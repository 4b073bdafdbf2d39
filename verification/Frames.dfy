/** The command frames of the remote API (v_repConst.h:860-902): a 26-byte subheader, then the key data, then the
    pure data. Buffers hold frames one after the other; a frame tells its own size. */
module Frames {
  import opened Sequences
  import opened Bytes
  import opened Buffers

  type Frame = seq<Byte>

  const SUBHEADER_SIZE := 26
  const HEADER_SIZE := 18
  const MEM_SIZE := 0
  const FULL_MEM_SIZE := 4
  const PDATA_OFFSET0 := 8
  const PDATA_OFFSET1 := 10
  const CMD := 14
  const DELAY_OR_SPLIT := 18
  const STATUS := 24
  const SIZE_LIMIT := 0x8000_0000

  const CMD_4BYTES := 0x1000
  const CMD_8BYTES := 0x2000
  const CMD_STRING := 0x3000
  const CMD_RESERVED := 0x4000

  /** A frame that a walk over a buffer can step over: its first field is its size. */
  predicate FrameOk(f: Frame) {
    && SUBHEADER_SIZE <= |f| < SIZE_LIMIT
    && WordAt(f, MEM_SIZE) == |f|
    && SUBHEADER_SIZE + HalfAt(f, PDATA_OFFSET0) <= |f|
  }

  /** The command without its operation mode: the lower half of the command field. */
  function CmdRaw(f: Frame): nat
    requires |f| >= SUBHEADER_SIZE
  {
    HalfAt(f, CMD)
  }

  function OpMode(f: Frame): nat
    requires |f| >= SUBHEADER_SIZE
  {
    HalfAt(f, CMD + 2)
  }

  function KeySize(f: Frame): nat
    requires |f| >= SUBHEADER_SIZE
  {
    HalfAt(f, PDATA_OFFSET0)
  }

  function Key(f: Frame): seq<Byte>
    requires FrameOk(f)
  {
    f[SUBHEADER_SIZE..SUBHEADER_SIZE + KeySize(f)]
  }

  function PureData(f: Frame): seq<Byte>
    requires FrameOk(f)
  {
    f[SUBHEADER_SIZE + KeySize(f)..]
  }

  /** Commands that carry a key. */
  predicate Keyed(cmd: nat) {
    CMD_4BYTES < cmd < CMD_RESERVED && cmd != CMD_8BYTES && cmd != CMD_STRING
  }

  /** A string with its terminal zero, and no other. */
  predicate ZeroTerminated(key: seq<Byte>) {
    key != [] && key[|key| - 1] == 0 && forall i :: 0 <= i < |key| - 1 ==> key[i] != 0
  }

  /** The key has the form that the range of the command asks for. */
  predicate KeyFits(cmd: nat, key: seq<Byte>) {
    if CMD_4BYTES < cmd < CMD_8BYTES then |key| == 4
    else if CMD_8BYTES < cmd < CMD_STRING then |key| == 8
    else if CMD_STRING < cmd < CMD_RESERVED then ZeroTerminated(key)
    else key == []
  }

  predicate Proper(f: Frame) {
    FrameOk(f) && KeyFits(CmdRaw(f), Key(f))
  }

  /** Commands numbered strictly between 0x1000 and 0x4000 have a key, but for the two range marks in between. They are
      exactly those that an empty key does not fit. */
  lemma KeyedByNumber(cmd: nat)
    ensures Keyed(cmd) <==> 0x1000 < cmd < 0x2000 || 0x2000 < cmd < 0x3000 || 0x3000 < cmd < 0x4000
    ensures Keyed(cmd) <==> !KeyFits(cmd, [])
  {
  }

  /** The key is four bytes, eight bytes, or a string up to and with its zero. */
  lemma KeysByNumber(cmd: nat, key: seq<Byte>)
    ensures 0x1000 < cmd < 0x2000 ==> (KeyFits(cmd, key) <==> |key| == 4)
    ensures 0x2000 < cmd < 0x3000 ==> (KeyFits(cmd, key) <==> |key| == 8)
    ensures 0x3000 < cmd < 0x4000 ==> (KeyFits(cmd, key) <==> exists text :: key == text + [0] && 0 !in text)
    ensures cmd <= 0x1000 || cmd == 0x2000 || cmd == 0x3000 || 0x4000 <= cmd ==> (KeyFits(cmd, key) <==> key == [])
  {
    if key != [] && key[|key| - 1] == 0 {
      assert key == key[..|key| - 1] + [0];
    }
    if text :| key == text + [0] && 0 !in text {
      assert forall i :: 0 <= i < |text| ==> text[i] in text;
    }
    if ZeroTerminated(key) {
      assert forall i :: 0 <= i < |key| - 1 ==> key[..|key| - 1][i] == key[i];
    }
  }

  /** The frame is of command `cmd`, and its key data begin with `key`. */
  predicate Matches(f: Frame, cmd: nat, key: seq<Byte>) {
    SUBHEADER_SIZE + |key| <= |f| && CmdRaw(f) == cmd && f[SUBHEADER_SIZE..SUBHEADER_SIZE + |key|] == key
  }

  lemma InsideIsNotZero(s: seq<Byte>, n: nat, m: nat)
    requires 0 < m < n <= |s| && ZeroTerminated(s[..n])
    ensures s[m - 1] != 0
  {
    assert s[..n][m - 1] != 0;
  }

  lemma EndIsZero(s: seq<Byte>, n: nat)
    requires 0 < n <= |s| && ZeroTerminated(s[..n])
    ensures s[n - 1] == 0
  {
    assert s[..n][n - 1] == 0;
  }

  /** A string ends in one place. */
  lemma OneTermination(s: seq<Byte>, m: nat, n: nat)
    requires 0 < m <= |s| && 0 < n <= |s| && ZeroTerminated(s[..m]) && ZeroTerminated(s[..n])
    ensures m == n
  {
    if m < n {
      InsideIsNotZero(s, n, m);
      EndIsZero(s, m);
    } else if n < m {
      InsideIsNotZero(s, m, n);
      EndIsZero(s, n);
    }
  }

  /** For a frame in proper form, to begin with a key is to have it. */
  lemma MatchesIsSameKey(f: Frame, cmd: nat, key: seq<Byte>)
    requires Proper(f) && KeyFits(cmd, key)
    ensures Matches(f, cmd, key) <==> CmdRaw(f) == cmd && Key(f) == key
  {
    if Matches(f, cmd, key) && CMD_STRING < cmd < CMD_RESERVED {
      var s := f[SUBHEADER_SIZE..];
      assert s[..|key|] == key && s[..|Key(f)|] == Key(f);
      OneTermination(s, |key|, |Key(f)|);
    }
  }

  // ---------- frames in a buffer ----------

  /** The bytes of the frames, one after the other. */
  ghost function Flatten(frames: seq<Frame>): seq<Byte> {
    if frames == [] then [] else Flatten(frames[..|frames| - 1]) + frames[|frames| - 1]
  }

  /** Where frame `k` begins, counted from the first frame. */
  ghost function Off(frames: seq<Frame>, k: nat): nat
    requires k <= |frames|
  {
    |Flatten(frames[..k])|
  }

  /** The bytes from `start` on are the frames. */
  ghost predicate Framed(bytes: seq<Byte>, start: nat, frames: seq<Frame>) {
    start <= |bytes| && bytes[start..] == Flatten(frames)
  }

  predicate AllOk(frames: seq<Frame>) {
    forall f :: f in frames ==> FrameOk(f)
  }

  lemma FlattenSnoc(frames: seq<Frame>, f: Frame)
    ensures Flatten(frames + [f]) == Flatten(frames) + f
  {
    assert (frames + [f])[..|frames|] == frames;
  }

  lemma {:induction false} FlattenConcat(a: seq<Frame>, b: seq<Frame>)
    ensures Flatten(a + b) == Flatten(a) + Flatten(b)
  {
    if b == [] {
      assert a + b == a;
    } else {
      var c, f := b[..|b| - 1], b[|b| - 1];
      assert b == c + [f] && a + b == (a + c) + [f];
      FlattenConcat(a, c);
      FlattenSnoc(a + c, f);
      FlattenSnoc(c, f);
    }
  }

  /** The frames before, the bytes of frame `k`, the frames after. */
  lemma FlattenAt(frames: seq<Frame>, k: nat)
    requires k < |frames|
    ensures Flatten(frames) == Flatten(frames[..k]) + frames[k] + Flatten(frames[k + 1..])
    ensures Off(frames, k + 1) == Off(frames, k) + |frames[k]|
  {
    PrefixSnoc(frames, k);
    FlattenSnoc(frames[..k], frames[k]);
    assert frames == frames[..k + 1] + frames[k + 1..];
    FlattenConcat(frames[..k + 1], frames[k + 1..]);
  }

  lemma SplitBytes(bytes: seq<Byte>, start: nat, x: seq<Byte>, f: seq<Byte>, y: seq<Byte>)
    requires start <= |bytes| && bytes[start..] == x + f + y
    ensures bytes == (bytes[..start] + x) + f + y
  {
  }

  /** The bytes before frame `k`, its own, and those after. */
  lemma FramedAt(bytes: seq<Byte>, start: nat, frames: seq<Frame>, k: nat) returns (x: seq<Byte>, y: seq<Byte>)
    requires Framed(bytes, start, frames) && k < |frames|
    ensures x == bytes[..start] + Flatten(frames[..k]) && y == Flatten(frames[k + 1..])
    ensures |x| == start + Off(frames, k) && bytes == x + frames[k] + y
  {
    FlattenAt(frames, k);
    x, y := bytes[..start] + Flatten(frames[..k]), Flatten(frames[k + 1..]);
    SplitBytes(bytes, start, Flatten(frames[..k]), frames[k], y);
  }

  lemma MiddleSlice<T>(x: seq<T>, f: seq<T>, y: seq<T>)
    ensures (x + f + y)[|x|..|x| + |f|] == f
  {
  }

  /** The bytes with `n` of them taken out at `at`. */
  function CutOut<T>(s: seq<T>, at: nat, n: nat): seq<T>
    requires at + n <= |s|
  {
    s[..at] + s[at + n..]
  }

  lemma CutMiddle<T>(x: seq<T>, f: seq<T>, y: seq<T>)
    ensures CutOut(x + f + y, |x|, |f|) == x + y
  {
    assert (x + f + y)[..|x|] == x;
  }

  lemma OverwrittenMiddle<T>(x: seq<T>, f: seq<T>, y: seq<T>, at: nat, w: seq<T>)
    requires at + |w| <= |f|
    ensures Overwritten(x + f + y, |x| + at, w) == x + Overwritten(f, at, w) + y
  {
  }

  lemma DropPrefix<T>(p: seq<T>, x: seq<T>, y: seq<T>)
    ensures ((p + x) + y)[|p|..] == x + y
  {
  }

  lemma DropPrefix2<T>(p: seq<T>, x: seq<T>, f: seq<T>, y: seq<T>)
    ensures ((p + x) + f + y)[|p|..] == x + f + y
  {
  }

  /** Frame `k` is where it should be. */
  lemma FrameIsAt(bytes: seq<Byte>, start: nat, frames: seq<Frame>, k: nat)
    requires Framed(bytes, start, frames) && k < |frames|
    ensures start + Off(frames, k) + |frames[k]| <= |bytes|
    ensures bytes[start + Off(frames, k)..start + Off(frames, k) + |frames[k]|] == frames[k]
    ensures Off(frames, k + 1) == Off(frames, k) + |frames[k]|
  {
    var x, y := FramedAt(bytes, start, frames, k);
    MiddleSlice(x, frames[k], y);
    FlattenAt(frames, k);
  }

  /** Bytes of a frame put at the end. */
  lemma FramedAppended(bytes: seq<Byte>, start: nat, frames: seq<Frame>, f: Frame)
    requires Framed(bytes, start, frames)
    ensures Framed(bytes + f, start, frames + [f])
  {
    FlattenSnoc(frames, f);
    assert (bytes + f)[start..] == bytes[start..] + f;
  }

  /** The bytes of a frame taken out. */
  lemma FramedWithout(bytes: seq<Byte>, start: nat, frames: seq<Frame>, k: nat)
    requires Framed(bytes, start, frames) && k < |frames|
    ensures start + Off(frames, k) + |frames[k]| <= |bytes|
    ensures Framed(CutOut(bytes, start + Off(frames, k), |frames[k]|), start, frames[..k] + frames[k + 1..])
  {
    var x, y := FramedAt(bytes, start, frames, k);
    CutMiddle(x, frames[k], y);
    FlattenConcat(frames[..k], frames[k + 1..]);
    DropPrefix(bytes[..start], Flatten(frames[..k]), y);
  }

  /** A frame in place of another. */
  lemma FlattenReplaced(frames: seq<Frame>, k: nat, f: Frame)
    requires k < |frames|
    ensures Flatten(frames[k := f]) == Flatten(frames[..k]) + f + Flatten(frames[k + 1..])
  {
    FlattenAt(frames[k := f], k);
    assert frames[k := f][..k] == frames[..k] && frames[k := f][k + 1..] == frames[k + 1..];
  }

  /** Bytes written over part of a frame, which keeps its size. */
  lemma FramedOverwritten(bytes: seq<Byte>, start: nat, frames: seq<Frame>, k: nat, at: nat, w: seq<Byte>)
    requires Framed(bytes, start, frames) && k < |frames| && at + |w| <= |frames[k]|
    ensures start + Off(frames, k) + |frames[k]| <= |bytes|
    ensures Framed(Overwritten(bytes, start + Off(frames, k) + at, w), start, frames[k := Overwritten(frames[k], at, w)])
  {
    var x, y := FramedAt(bytes, start, frames, k);
    var f := Overwritten(frames[k], at, w);
    OverwrittenMiddle(x, frames[k], y, at, w);
    FlattenReplaced(frames, k, f);
    DropPrefix2(bytes[..start], Flatten(frames[..k]), f, y);
  }

  /** A buffer without frames. */
  lemma FramedNone(bytes: seq<Byte>)
    ensures Framed(bytes, |bytes|, [])
  {
  }

  // ---------- lookup ----------

  /** The number of the first frame that matches, or the number of frames. */
  ghost function FirstMatch(frames: seq<Frame>, cmd: nat, key: seq<Byte>, from: nat): (k: nat)
    requires from <= |frames|
    ensures from <= k <= |frames|
    ensures k < |frames| ==> Matches(frames[k], cmd, key)
    ensures forall i :: from <= i < k ==> !Matches(frames[i], cmd, key)
    decreases |frames| - from
  {
    if from == |frames| || Matches(frames[from], cmd, key) then from else FirstMatch(frames, cmd, key, from + 1)
  }

  lemma AtEnd(bytes: seq<Byte>, start: nat, frames: seq<Frame>, k: nat)
    requires Framed(bytes, start, frames) && k <= |frames| && AllOk(frames)
    ensures start + Off(frames, k) < |bytes| <==> k < |frames|
  {
    if k < |frames| {
      assert frames[k] in frames;
      FrameIsAt(bytes, start, frames, k);
    } else {
      WholePrefix(frames);
    }
  }

  lemma SliceOfSlice<T>(s: seq<T>, a: nat, b: nat, c: nat, d: nat)
    requires a <= b <= |s| && c <= d <= b - a
    ensures s[a..b][c..d] == s[a + c..a + d]
  {
    forall i | 0 <= i < d - c ensures s[a..b][c..d][i] == s[a + c..a + d][i] {
      assert s[a..b][c + i] == s[a + (c + i)];
    }
  }

  /** The comparison of the key bytes of one frame. */
  method MatchesAt(b: ByteBuffer, off: nat, cmd: nat, key: seq<Byte>, ghost f: Frame) returns (r: bool)
    requires b.Valid() && off + |f| <= b.dataSize && b.Bytes()[off..off + |f|] == f && FrameOk(f)
    ensures r == Matches(f, cmd, key)
  {
    ghost var bytes := b.Bytes();
    HalfOfSlice(bytes, off, off + |f|, CMD);
    WordOfSlice(bytes, off, off + |f|, MEM_SIZE);
    r := false;
    if HalfAt(b.data[..b.dataSize], off + CMD) == cmd {
      var size := WordAt(b.data[..b.dataSize], off + MEM_SIZE);
      if SUBHEADER_SIZE + |key| <= size {
        SliceOfSlice(bytes, off, off + |f|, SUBHEADER_SIZE, SUBHEADER_SIZE + |key|);
        var s := b.Slice(off + SUBHEADER_SIZE, off + SUBHEADER_SIZE + |key|);
        r := s == key;
      }
    }
  }

  /** The size that the frame at `off` tells. */
  method SizeAt(b: ByteBuffer, off: nat, ghost f: Frame) returns (size: nat)
    requires b.Valid() && off + |f| <= b.dataSize && b.Bytes()[off..off + |f|] == f && FrameOk(f)
    ensures size == |f|
  {
    WordOfSlice(b.Bytes(), off, off + |f|, MEM_SIZE);
    size := b.GetWord(off + MEM_SIZE);
  }

  /** `_getCommandPointer_`, `_i`, `_ii` and `_s`, which differ in how many key bytes they compare: none, four,
      eight, or a string with its terminal zero. `found` is false for the null pointer. */
  method FindCommand(b: ByteBuffer, start: nat, cmd: nat, key: seq<Byte>, ghost frames: seq<Frame>)
    returns (found: bool, off: nat, ghost k: nat)
    requires b.Valid() && Framed(b.Bytes(), start, frames) && AllOk(frames)
    ensures k == FirstMatch(frames, cmd, key, 0)
    ensures found <==> k < |frames|
    ensures found ==> off == start + Off(frames, k)
  {
    off, k, found := start, 0, false;
    AtEnd(b.Bytes(), start, frames, 0);
    while off < b.dataSize
      invariant !found
      invariant off < b.dataSize <==> k < |frames|
      invariant 0 <= k <= |frames| && off == start + Off(frames, k)
      invariant FirstMatch(frames, cmd, key, 0) == FirstMatch(frames, cmd, key, k)
      decreases |frames| - k
    {
      FrameIsAt(b.Bytes(), start, frames, k);
      found := MatchesAt(b, off, cmd, key, frames[k]);
      if found {
        return;
      }
      var size := SizeAt(b, off, frames[k]);
      off, k := off + size, k + 1;
      AtEnd(b.Bytes(), start, frames, k);
    }
  }
}
