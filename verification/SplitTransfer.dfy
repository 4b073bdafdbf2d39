/** The split transfer of large commands: the send loop cuts the waiting commands into chunks, one per command and
    message, and the receive loop puts them together again, whatever else arrives in between (extApi.c,
    `_communicationThread`). */
module SplitTransfer {
  import opened Sequences
  import opened Bytes
  import opened Frames
  import opened FrameBuffers
  import opened SplitFrames

  predicate AllWaiting(frames: seq<Frame>) {
    forall f :: f in frames ==> Waiting(f)
  }

  // ---------- one round of sending ----------

  /** The chunk that one message takes of a waiting command. */
  function PieceOf(f: Frame): seq<Frame> {
    if Waiting(f) then [ChunkOf(f)] else []
  }

  /** What waits of the command after the message: nothing if it is completely sent. */
  function NextOf(f: Frame): seq<Frame> {
    if Waiting(f) && !IsLast(f) then [Advanced(f)] else []
  }

  /** The chunks that one message takes, one for each waiting command. */
  ghost function Chunks(frames: seq<Frame>): seq<Frame> {
    Collect(frames, PieceOf)
  }

  /** What waits after the message. */
  ghost function Rest(frames: seq<Frame>): seq<Frame> {
    Collect(frames, NextOf)
  }

  /** The next chunk of a waiting command: subheader and key, then the piece, then its own size written in.
      `last` says that the command is then completely sent, `sent` how many bytes of it. */
  method CutChunk(f: Frame) returns (chunk: Frame, last: bool, sent: nat)
    requires Waiting(f)
    ensures chunk == ChunkOf(f) && last == IsLast(f) && sent == Sent(f) + PieceSize(f) && sent < SIZE_LIMIT
  {
    PieceFits(f);
    var size := WordAt(f, MEM_SIZE);
    var k, o, most := HalfAt(f, PDATA_OFFSET0), WordAt(f, PDATA_OFFSET1), HalfAt(f, DELAY_OR_SPLIT);
    var n := size - SUBHEADER_SIZE - k - o;
    if n > most {
      n := most;
    }
    chunk := f[..SUBHEADER_SIZE + k];
    chunk := chunk + f[SUBHEADER_SIZE + k + o..SUBHEADER_SIZE + k + o + n];
    chunk := Overwritten(chunk, MEM_SIZE, Word(SUBHEADER_SIZE + k + n));
    last := SUBHEADER_SIZE + k + o + n >= size;
    sent := o + n;
  }

  lemma {:induction false} RestWaits(frames: seq<Frame>)
    requires AllWaiting(frames)
    ensures AllWaiting(Rest(frames))
  {
    if frames != [] {
      var f := frames[|frames| - 1];
      assert f in frames;
      RestWaits(frames[..|frames| - 1]);
      AdvancedSays(f);
    }
  }

  lemma WaitingAreOk(frames: seq<Frame>)
    requires AllWaiting(frames)
    ensures AllOk(frames)
  {
    forall i | 0 <= i < |frames| ensures FrameOk(frames[i]) {
      assert frames[i] in frames;
    }
  }

  ghost predicate Apart(a: FrameBuffer, b: FrameBuffer)
    reads a, b, a.buffer, b.buffer
  {
    a != b && a.buffer != b.buffer && a.buffer.data != b.buffer.data
  }

  lemma ReplacedByNone<T>(now: seq<T>, p: nat)
    requires p < |now|
    ensures ReplacedBy(now, p, []) == now[..p] + now[p + 1..]
  {
  }

  lemma ReplacedByOne<T>(now: seq<T>, p: nat, x: T)
    requires p < |now|
    ensures ReplacedBy(now, p, [x]) == now[p := x]
  {
  }

  /** A command that is completely sent goes; another moves on. */
  method Settle(split: FrameBuffer, off: nat, size: nat, last: bool, sent: nat, ghost p: nat) returns (next: nat)
    requires split.Valid() && p < |split.frames| && off == split.start + Off(split.frames, p) && size == |split.frames[p]|
    requires Waiting(split.frames[p]) && last == IsLast(split.frames[p]) && sent < SIZE_LIMIT
    requires sent == Sent(split.frames[p]) + PieceSize(split.frames[p])
    modifies split, split.buffer, split.buffer.data
    ensures split.buffer.data == old(split.buffer.data)
    ensures split.Valid() && split.frames == ReplacedBy(old(split.frames), p, NextOf(old(split.frames)[p]))
    ensures var q := p + |NextOf(old(split.frames)[p])|; q <= |split.frames| && next == split.start + Off(split.frames, q)
  {
    ghost var f := split.frames[p];
    if last {
      SameOff(split.frames, p, split.frames[..p] + split.frames[p + 1..]);
      ReplacedByNone(split.frames, p);
      split.RemoveAt(off, size, p);
      next := off;
    } else {
      ReplacedByOne(split.frames, p, Advanced(f));
      split.Write(off, PDATA_OFFSET1, Word(sent), p);
      FlattenAt(split.frames, p);
      next := off + size;
    }
  }

  /** One turn of the send loop: the chunk of the command at `off`, and the command removed or moved on. */
  method SendOne(split: FrameBuffer, message: FrameBuffer, off: nat, ghost p: nat) returns (next: nat)
    requires split.Valid() && message.Valid() && Apart(split, message)
    requires p < |split.frames| && Waiting(split.frames[p]) && off == split.start + Off(split.frames, p)
    modifies split, split.buffer, split.buffer.data, message, message.buffer, message.buffer.data
    ensures split.buffer.data == old(split.buffer.data)
    ensures split.Valid() && message.Valid() && (message.buffer.data == old(message.buffer.data) || fresh(message.buffer.data))
    ensures split.frames == ReplacedBy(old(split.frames), p, NextOf(old(split.frames)[p]))
    ensures message.frames == old(message.frames) + PieceOf(old(split.frames)[p])
    ensures var q := p + |NextOf(old(split.frames)[p])|; q <= |split.frames| && next == split.start + Off(split.frames, q)
  {
    var size := split.SizeOf(off, p);
    var f := split.Get(off, size, p);
    var chunk, last, sent := CutChunk(f);
    message.Append(chunk);
    next := Settle(split, off, size, last, sent, p);
  }

  /** What the send loop keeps: the commands before `i` are settled, and `off` is where command `i` stands. */
  ghost predicate SendLoop(split: FrameBuffer, was: seq<Frame>, i: nat, off: nat)
    reads split, split.buffer, split.buffer.data
  {
    && split.Valid() && Halfway(was, NextOf, i, split.frames) && |Rest(was[..i])| <= |split.frames|
    && off == split.start + Off(split.frames, |Rest(was[..i])|) && (off < split.buffer.dataSize <==> i < |was|)
  }

  lemma AllOkHalfway(was: seq<Frame>, i: nat, now: seq<Frame>)
    requires AllWaiting(was) && Halfway(was, NextOf, i, now)
    ensures AllOk(now)
  {
    RestWaits(was[..i]);
    WaitingAreOk(Rest(was[..i]));
    WaitingAreOk(was);
  }

  lemma LoopState(split: FrameBuffer, was: seq<Frame>, i: nat, off: nat)
    requires split.Valid() && AllWaiting(was) && Halfway(was, NextOf, i, split.frames)
    requires |Rest(was[..i])| <= |split.frames| && off == split.start + Off(split.frames, |Rest(was[..i])|)
    ensures SendLoop(split, was, i, off)
  {
    HalfwayEnds(was, NextOf, i, split.frames);
    AllOkHalfway(was, i, split.frames);
    AtEnd(split.buffer.Bytes(), split.start, split.frames, |Rest(was[..i])|);
  }

  /** The message after the turns for the first `i` commands. */
  ghost function SentBy(sent: seq<Frame>, was: seq<Frame>, i: nat): seq<Frame>
    requires i <= |was|
  {
    sent + Chunks(was[..i])
  }

  lemma ChunksOn(was: seq<Frame>, i: nat, sent: seq<Frame>, m: seq<Frame>)
    requires i < |was| && m == SentBy(sent, was, i)
    ensures m + PieceOf(was[i]) == SentBy(sent, was, i + 1)
  {
    PrefixSnoc(was, i);
    CollectSnoc(was[..i], was[i], PieceOf);
  }

  method SendTurn(split: FrameBuffer, message: FrameBuffer, off: nat, ghost was: seq<Frame>, ghost sent: seq<Frame>, ghost i: nat) returns (next: nat)
    requires message.Valid() && Apart(split, message) && AllWaiting(was) && SendLoop(split, was, i, off) && i < |was|
    requires message.frames == SentBy(sent, was, i)
    modifies split, split.buffer, split.buffer.data, message, message.buffer, message.buffer.data
    ensures split.buffer.data == old(split.buffer.data)
    ensures message.Valid() && (message.buffer.data == old(message.buffer.data) || fresh(message.buffer.data))
    ensures SendLoop(split, was, i + 1, next) && message.frames == SentBy(sent, was, i + 1)
  {
    HalfwayOn(was, NextOf, i, split.frames);
    ChunksOn(was, i, sent, message.frames);
    assert was[i] in was;
    next := SendOne(split, message, off, |Rest(was[..i])|);
    LoopState(split, was, i + 1, next);
  }

  lemma SendStarts(split: FrameBuffer, was: seq<Frame>, sent: seq<Frame>, i: nat, off: nat)
    requires split.Valid() && AllWaiting(was) && was == split.frames && i == 0 && off == split.start
    ensures SendLoop(split, was, i, off) && SentBy(sent, was, i) == sent
  {
    LoopState(split, was, i, off);
  }

  lemma SendEnds(split: FrameBuffer, was: seq<Frame>, sent: seq<Frame>, i: nat, off: nat)
    requires SendLoop(split, was, i, off) && off >= split.buffer.dataSize
    ensures split.frames == Rest(was) && SentBy(sent, was, i) == sent + Chunks(was)
  {
    HalfwayEnds(was, NextOf, i, split.frames);
    WholePrefix(was);
  }

  /** One round of the send loop over the waiting commands. */
  method SendRound(split: FrameBuffer, message: FrameBuffer)
    requires split.Valid() && message.Valid() && Apart(split, message) && AllWaiting(split.frames)
    modifies split, split.buffer, split.buffer.data, message, message.buffer, message.buffer.data
    ensures split.buffer.data == old(split.buffer.data)
    ensures split.Valid() && message.Valid()
    ensures message.frames == old(message.frames) + Chunks(old(split.frames))
    ensures split.frames == Rest(old(split.frames))
  {
    ghost var was, sent := split.frames, message.frames;
    ghost var i: nat := 0;
    var off: nat := split.start;
    SendStarts(split, was, sent, i, off);
    while off < split.buffer.dataSize
      invariant SendLoop(split, was, i, off) && split.buffer.data == old(split.buffer.data)
      invariant message.Valid() && (message.buffer.data == old(message.buffer.data) || fresh(message.buffer.data))
      invariant message.frames == SentBy(sent, was, i)
      decreases |was| - i
    {
      off := SendTurn(split, message, off, was, sent, i);
      i := i + 1;
    }
    SendEnds(split, was, sent, i, off);
  }
}
