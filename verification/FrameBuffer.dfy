/** A buffer of frames: the frames of one command, and what lookups, appends, removals and overwritings make of
    them (extApi.c). */
module FrameBuffers {
  import opened Sequences
  import opened Bytes
  import opened Buffers
  import opened Frames

  // ---------- the frames of one command ----------

  /** The frame is of command `cmd` with key `key`. */
  predicate IsOf(f: Frame, cmd: nat, key: seq<Byte>) {
    FrameOk(f) && CmdRaw(f) == cmd && Key(f) == key
  }

  /** The frames of one command and key, in order. */
  ghost function Of(frames: seq<Frame>, cmd: nat, key: seq<Byte>): seq<Frame> {
    if frames == [] then [] else
      var last := frames[|frames| - 1];
      Of(frames[..|frames| - 1], cmd, key) + if IsOf(last, cmd, key) then [last] else []
  }

  lemma OfSnoc(frames: seq<Frame>, f: Frame, cmd: nat, key: seq<Byte>)
    ensures Of(frames + [f], cmd, key) == Of(frames, cmd, key) + if IsOf(f, cmd, key) then [f] else []
  {
    assert (frames + [f])[..|frames|] == frames;
  }

  lemma {:induction false} OfConcat(a: seq<Frame>, b: seq<Frame>, cmd: nat, key: seq<Byte>)
    ensures Of(a + b, cmd, key) == Of(a, cmd, key) + Of(b, cmd, key)
  {
    if b == [] {
      assert a + b == a;
    } else {
      var c, f := b[..|b| - 1], b[|b| - 1];
      assert b == c + [f] && a + b == (a + c) + [f];
      OfConcat(a, c, cmd, key);
      OfSnoc(a + c, f, cmd, key);
      OfSnoc(c, f, cmd, key);
    }
  }

  lemma {:induction false} OfNone(frames: seq<Frame>, cmd: nat, key: seq<Byte>)
    requires forall i :: 0 <= i < |frames| ==> !IsOf(frames[i], cmd, key)
    ensures Of(frames, cmd, key) == []
  {
    if frames != [] {
      OfNone(frames[..|frames| - 1], cmd, key);
    }
  }

  lemma OfOne(f: Frame, cmd: nat, key: seq<Byte>)
    ensures Of([f], cmd, key) == if IsOf(f, cmd, key) then [f] else []
  {
    assert [f][..0] == [];
  }

  /** Frame `k` set apart. */
  lemma OfAt(frames: seq<Frame>, k: nat, cmd: nat, key: seq<Byte>)
    requires k < |frames|
    ensures Of(frames, cmd, key) == Of(frames[..k], cmd, key) + (if IsOf(frames[k], cmd, key) then [frames[k]] else []) + Of(frames[k + 1..], cmd, key)
  {
    OfSnoc(frames[..k], frames[k], cmd, key);
    assert frames == (frames[..k] + [frames[k]]) + frames[k + 1..];
    OfConcat(frames[..k] + [frames[k]], frames[k + 1..], cmd, key);
  }

  predicate AllProper(frames: seq<Frame>) {
    forall f :: f in frames ==> Proper(f)
  }

  lemma ProperAreOk(frames: seq<Frame>)
    requires AllProper(frames)
    ensures AllOk(frames)
  {
  }

  lemma NoneInFront(frames: seq<Frame>, cmd: nat, key: seq<Byte>, k: nat)
    requires AllProper(frames) && AllOk(frames) && KeyFits(cmd, key) && k == FirstMatch(frames, cmd, key, 0)
    ensures Of(frames[..k], cmd, key) == []
  {
    forall i | 0 <= i < k ensures !IsOf(frames[i], cmd, key) {
      assert frames[i] in frames;
      MatchesIsSameKey(frames[i], cmd, key);
    }
    OfNone(frames[..k], cmd, key);
  }

  /** The first match is the first frame of that command and key. */
  lemma FirstIsOf(frames: seq<Frame>, cmd: nat, key: seq<Byte>, k: nat)
    requires AllProper(frames) && AllOk(frames) && KeyFits(cmd, key) && k == FirstMatch(frames, cmd, key, 0)
    ensures Of(frames[..k], cmd, key) == []
    ensures k < |frames| ==> IsOf(frames[k], cmd, key) && Of(frames, cmd, key) == [frames[k]] + Of(frames[k + 1..], cmd, key)
    ensures k == |frames| ==> Of(frames, cmd, key) == []
  {
    NoneInFront(frames, cmd, key, k);
    if k < |frames| {
      assert frames[k] in frames;
      MatchesIsSameKey(frames[k], cmd, key);
      OfAt(frames, k, cmd, key);
    } else {
      WholePrefix(frames);
    }
  }

  /** The frames of all other commands and keys stay as they are. */
  ghost predicate OthersStay(frames: seq<Frame>, frames': seq<Frame>, cmd: nat, key: seq<Byte>) {
    forall c: nat, k: seq<Byte> :: (c, k) != (cmd, key) ==> Of(frames', c, k) == Of(frames, c, k)
  }

  lemma AppendedFrames(frames: seq<Frame>, f: Frame, cmd: nat, key: seq<Byte>)
    requires AllProper(frames) && Proper(f) && IsOf(f, cmd, key)
    ensures AllProper(frames + [f]) && OthersStay(frames, frames + [f], cmd, key)
    ensures Of(frames + [f], cmd, key) == Of(frames, cmd, key) + [f]
  {
    OfSnoc(frames, f, cmd, key);
    forall c: nat, k: seq<Byte> | (c, k) != (cmd, key) ensures Of(frames + [f], c, k) == Of(frames, c, k) {
      OfSnoc(frames, f, c, k);
    }
  }

  lemma ReplacedFrames(frames: seq<Frame>, i: nat, f: Frame, cmd: nat, key: seq<Byte>)
    requires AllProper(frames) && AllOk(frames) && KeyFits(cmd, key) && i == FirstMatch(frames, cmd, key, 0) && i < |frames|
    requires Proper(f) && IsOf(f, cmd, key)
    ensures AllProper(frames[i := f]) && OthersStay(frames, frames[i := f], cmd, key)
    ensures Of(frames, cmd, key) != [] && frames[i] == Of(frames, cmd, key)[0]
    ensures Of(frames[i := f], cmd, key) == [f] + Of(frames, cmd, key)[1..]
  {
    FirstIsOf(frames, cmd, key, i);
    var r := frames[i := f];
    assert r[..i] == frames[..i] && r[i + 1..] == frames[i + 1..];
    OfAt(r, i, cmd, key);
    forall c: nat, k: seq<Byte> | (c, k) != (cmd, key) ensures Of(r, c, k) == Of(frames, c, k) {
      OfAt(r, i, c, k);
      OfAt(frames, i, c, k);
    }
  }

  lemma RemovedFrames(frames: seq<Frame>, i: nat, cmd: nat, key: seq<Byte>)
    requires AllProper(frames) && AllOk(frames) && KeyFits(cmd, key) && i == FirstMatch(frames, cmd, key, 0) && i < |frames|
    ensures var r := frames[..i] + frames[i + 1..];
      && AllProper(r) && OthersStay(frames, r, cmd, key)
      && Of(frames, cmd, key) != [] && Of(r, cmd, key) == Of(frames, cmd, key)[1..]
  {
    FirstIsOf(frames, cmd, key, i);
    var r := frames[..i] + frames[i + 1..];
    OfConcat(frames[..i], frames[i + 1..], cmd, key);
    forall c: nat, k: seq<Byte> | (c, k) != (cmd, key) ensures Of(r, c, k) == Of(frames, c, k) {
      OfAt(frames, i, c, k);
      OfConcat(frames[..i], frames[i + 1..], c, k);
    }
  }

  lemma OthersStayOn(a: seq<Frame>, b: seq<Frame>, c: seq<Frame>, cmd: nat, key: seq<Byte>)
    requires OthersStay(a, b, cmd, key) && OthersStay(b, c, cmd, key)
    ensures OthersStay(a, c, cmd, key)
  {
  }

  lemma SameOff(a: seq<Frame>, k: nat, b: seq<Frame>)
    requires k <= |a| && k <= |b| && a[..k] == b[..k]
    ensures Off(a, k) == Off(b, k)
  {
  }

  /** A byte buffer that holds frames from `start` on. */
  class FrameBuffer {
    const buffer: ByteBuffer
    const start: nat
    ghost var frames: seq<Frame>

    ghost predicate Valid()
      reads this, buffer, buffer.data
    {
      buffer.Valid() && Framed(buffer.Bytes(), start, frames)
    }

    /** A buffer with `size` bytes of room, the first `start` of which are taken by a header. */
    constructor (size: nat, start: nat)
      ensures Valid() && fresh(buffer) && fresh(buffer.data) && frames == [] && this.start == start
    {
      buffer := new ByteBuffer(size);
      this.start := start;
      frames := [];
      new;
      buffer.AppendSpace(start);
      FramedNone(buffer.Bytes());
    }

    method Append(f: Frame)
      requires Valid()
      modifies this`frames, buffer, buffer.data
      ensures Valid() && (buffer.data == old(buffer.data) || fresh(buffer.data))
      ensures frames == old(frames) + [f]
    {
      FramedAppended(buffer.Bytes(), start, frames, f);
      frames := frames + [f];
      buffer.AppendChunk(f);
    }

    /** Room for a frame of `n` bytes; what is in it is left over from before. */
    method AppendSpace(n: nat) returns (ghost f: Frame)
      requires Valid()
      modifies this`frames, buffer
      ensures Valid() && (buffer.data == old(buffer.data) || fresh(buffer.data))
      ensures |f| == n && frames == old(frames) + [f]
    {
      ghost var before := buffer.Bytes();
      buffer.AppendSpace(n);
      f := buffer.Bytes()[|before|..];
      assert buffer.Bytes() == before + f;
      FramedAppended(before, start, frames, f);
      frames := frames + [f];
    }

    /** The bytes of frame `i`. */
    method Get(off: nat, size: nat, ghost i: nat) returns (f: Frame)
      requires Valid() && i < |frames| && off == start + Off(frames, i) && size == |frames[i]|
      ensures f == frames[i]
    {
      FrameIsAt(buffer.Bytes(), start, frames, i);
      f := buffer.Slice(off, off + size);
    }

    /** The lookup of a command by number and key. */
    method Find(cmd: nat, key: seq<Byte>) returns (found: bool, off: nat, ghost i: nat)
      requires Valid() && AllOk(frames)
      ensures i == FirstMatch(frames, cmd, key, 0) && (found <==> i < |frames|)
      ensures found ==> off == start + Off(frames, i)
    {
      found, off, i := FindCommand(buffer, start, cmd, key, frames);
    }

    /** A frame taken out of the buffer. */
    method RemoveAt(off: nat, size: nat, ghost i: nat)
      requires Valid() && i < |frames| && off == start + Off(frames, i) && size == |frames[i]|
      modifies this`frames, buffer`dataSize, buffer.data
      ensures Valid() && frames == old(frames)[..i] + old(frames)[i + 1..]
    {
      FramedWithout(buffer.Bytes(), start, frames, i);
      frames := frames[..i] + frames[i + 1..];
      buffer.RemoveChunk(off, size);
    }

    /** The size that frame `i` tells. */
    method SizeOf(off: nat, ghost i: nat) returns (size: nat)
      requires Valid() && i < |frames| && off == start + Off(frames, i) && FrameOk(frames[i])
      ensures size == |frames[i]|
    {
      FrameIsAt(buffer.Bytes(), start, frames, i);
      size := SizeAt(buffer, off, frames[i]);
    }

    /** Bytes written over part of frame `i`. */
    method Write(off: nat, at: nat, w: seq<Byte>, ghost i: nat)
      requires Valid() && i < |frames| && off == start + Off(frames, i) && at + |w| <= |frames[i]|
      modifies this`frames, buffer.data
      ensures Valid() && frames == old(frames)[i := Overwritten(old(frames)[i], at, w)]
      ensures Off(frames, i) == Off(old(frames), i)
    {
      FramedOverwritten(buffer.Bytes(), start, frames, i, at, w);
      assert frames[i := Overwritten(frames[i], at, w)][..i] == frames[..i];
      frames := frames[i := Overwritten(frames[i], at, w)];
      buffer.Overwrite(off + at, w);
    }
  }
}
