/** The receive loop over the chunks of split commands (extApi.c, `_communicationThread`). */
module SplitReceive {
  import opened Sequences
  import opened Bytes
  import opened Frames
  import opened FrameBuffers
  import opened SplitFrames

  /** The partial commands that the receiver takes to be the same as the chunk's: none if it has no key. */
  ghost function Own(parts: seq<Frame>, c: Frame): seq<Frame>
    requires FrameOk(c)
  {
    if Keyed(CmdRaw(c)) then Of(parts, CmdRaw(c), Key(c)) else []
  }

  /** The first of them, if it has the size of the chunk's whole. */
  ghost predicate Usable(parts: seq<Frame>, c: Frame)
    requires ChunkOk(c)
  {
    Own(parts, c) != [] && |Own(parts, c)[0]| == FullSize(c)
  }

  /** What one chunk does: it is written over `base`, which is the partial command in use or else fresh space, and
      the result comes out when it is complete. `out` is empty or the completed command. */
  ghost predicate Received(was: seq<Frame>, c: Frame, now: seq<Frame>, out: seq<Frame>, base: Frame)
    requires ChunkOk(c)
  {
    && |base| == FullSize(c) && AllProper(now)
    && (Usable(was, c) ==> base == Own(was, c)[0])
    && out == (if Completes(c) then [Merged(base, c)] else [])
    && if Keyed(CmdRaw(c)) then
         var left := if Own(was, c) == [] then [] else Own(was, c)[1..];
         && OthersStay(was, now, CmdRaw(c), Key(c))
         && Own(now, c) == (if Completes(c) then left else if Usable(was, c) then [Merged(base, c)] + left else left + [Merged(base, c)])
       else now == was + if Completes(c) then [] else [Merged(base, c)]
  }

  lemma MergedIsOwn(base: Frame, c: Frame)
    requires ChunkOk(c) && |base| == FullSize(c)
    ensures Proper(Merged(base, c)) && IsOf(Merged(base, c), CmdRaw(c), Key(c))
  {
    MergedSays(base, c);
    SameHeaderFields(c, Merged(base, c));
  }

  lemma FoundOutcome(was: seq<Frame>, i: nat, c: Frame)
    requires ChunkOk(c) && Keyed(CmdRaw(c)) && AllProper(was) && AllOk(was)
    requires i == FirstMatch(was, CmdRaw(c), Key(c), 0) && i < |was| && |was[i]| == FullSize(c)
    ensures Usable(was, c)
    ensures Completes(c) ==> Received(was, c, was[..i] + was[i + 1..], [Merged(was[i], c)], was[i])
    ensures !Completes(c) ==> Received(was, c, was[i := Merged(was[i], c)], [], was[i])
  {
    FirstIsOf(was, CmdRaw(c), Key(c), i);
    MergedIsOwn(was[i], c);
    ReplacedFrames(was, i, Merged(was[i], c), CmdRaw(c), Key(c));
    RemovedFrames(was, i, CmdRaw(c), Key(c));
  }

  /** `kept` is `was` without the partial command that has the wrong size, if there is one. */
  ghost predicate Cleared(was: seq<Frame>, kept: seq<Frame>, c: Frame)
    requires ChunkOk(c)
  {
    && !Usable(was, c) && AllProper(kept)
    && if Keyed(CmdRaw(c)) then
         OthersStay(was, kept, CmdRaw(c), Key(c)) && Own(kept, c) == if Own(was, c) == [] then [] else Own(was, c)[1..]
       else kept == was
  }

  lemma NewOutcome(was: seq<Frame>, kept: seq<Frame>, c: Frame, base: Frame)
    requires ChunkOk(c) && Cleared(was, kept, c) && |base| == FullSize(c)
    ensures Completes(c) ==> Received(was, c, kept, [Merged(base, c)], base)
    ensures !Completes(c) ==> Received(was, c, kept + [Merged(base, c)], [], base)
  {
    MergedIsOwn(base, c);
    AppendedFrames(kept, Merged(base, c), CmdRaw(c), Key(c));
    if Keyed(CmdRaw(c)) {
      OthersStayOn(was, kept, kept + [Merged(base, c)], CmdRaw(c), Key(c));
    }
  }

  lemma ClearedOutcome(was: seq<Frame>, i: nat, c: Frame)
    requires ChunkOk(c) && AllProper(was) && AllOk(was)
    requires Keyed(CmdRaw(c)) ==> i == FirstMatch(was, CmdRaw(c), Key(c), 0)
    ensures !Keyed(CmdRaw(c)) || i == |was| ==> Cleared(was, was, c)
    ensures Keyed(CmdRaw(c)) && i < |was| && |was[i]| != FullSize(c) ==> Cleared(was, was[..i] + was[i + 1..], c)
  {
    if Keyed(CmdRaw(c)) {
      FirstIsOf(was, CmdRaw(c), Key(c), i);
      if i < |was| {
        RemovedFrames(was, i, CmdRaw(c), Key(c));
      }
    }
  }

  /** `mid` is where the chunk has been written over frame `i`: of `was` itself, or of fresh space behind it. */
  ghost predicate MergedAt(was: seq<Frame>, kept: seq<Frame>, i: nat, c: Frame, base: Frame, mid: seq<Frame>)
    requires ChunkOk(c)
  {
    && |base| == FullSize(c) && AllOk(was) && AllProper(was)
    && if Usable(was, c) then
         Keyed(CmdRaw(c)) && i == FirstMatch(was, CmdRaw(c), Key(c), 0) && i < |was| && was[i] == base && mid == was[i := Merged(base, c)]
       else Cleared(was, kept, c) && i == |kept| && mid == (kept + [base])[i := Merged(base, c)]
  }

  lemma Outcome(was: seq<Frame>, kept: seq<Frame>, i: nat, c: Frame, base: Frame, mid: seq<Frame>)
    requires ChunkOk(c) && MergedAt(was, kept, i, c, base, mid)
    ensures i < |mid| && |mid[i]| == FullSize(c) && mid[i] == Merged(base, c)
    ensures Received(was, c, if Completes(c) then mid[..i] + mid[i + 1..] else mid, if Completes(c) then [mid[i]] else [], base)
  {
    MergedIsOwn(base, c);
    if Usable(was, c) {
      FoundOutcome(was, i, c);
      assert mid[..i] == was[..i] && mid[i + 1..] == was[i + 1..];
    } else {
      NewOutcome(was, kept, c, base);
      assert mid == kept + [Merged(base, c)];
      assert mid[..i] + mid[i + 1..] == kept;
    }
  }

  // ---------- the methods ----------

  /** The partial commands are proper frames. */
  ghost predicate IsPartials(parts: FrameBuffer)
    reads parts, parts.buffer, parts.buffer.data
  {
    parts.Valid() && AllProper(parts.frames) && AllOk(parts.frames)
  }

  /** The partial command of the chunk's key, if there is one of its size; one of another size is removed. */
  method FindPartial(parts: FrameBuffer, c: Frame) returns (found: bool, off: nat, ghost i: nat)
    requires IsPartials(parts) && ChunkOk(c)
    modifies parts, parts.buffer, parts.buffer.data
    ensures parts.Valid() && parts.buffer.data == old(parts.buffer.data)
    ensures found == Usable(old(parts.frames), c)
    ensures found ==> parts.frames == old(parts.frames) && i < |parts.frames| && |parts.frames[i]| == FullSize(c)
    ensures found ==> Keyed(CmdRaw(c)) && AllOk(parts.frames) && i == FirstMatch(parts.frames, CmdRaw(c), Key(c), 0)
    ensures found ==> off == parts.start + Off(parts.frames, i)
    ensures !found ==> Cleared(old(parts.frames), parts.frames, c)
  {
    ghost var was := parts.frames;
    found, off, i := false, 0, |was|;
    if Keyed(CmdRaw(c)) {
      found, off, i := parts.Find(CmdRaw(c), Key(c));
      FirstIsOf(was, CmdRaw(c), Key(c), i);
    }
    ClearedOutcome(was, i, c);
    if found {
      var size := parts.SizeOf(off, i);
      if size != FullSize(c) {
        parts.RemoveAt(off, size, i);
        found := false;
      }
    }
  }

  /** The partial command to write the chunk over, found or newly made. */
  method PartialFor(parts: FrameBuffer, c: Frame) returns (off: nat, ghost i: nat, ghost kept: seq<Frame>)
    requires IsPartials(parts) && ChunkOk(c)
    modifies parts, parts.buffer, parts.buffer.data
    ensures parts.Valid() && (parts.buffer.data == old(parts.buffer.data) || fresh(parts.buffer.data))
    ensures i < |parts.frames| && off == parts.start + Off(parts.frames, i) && |parts.frames[i]| == FullSize(c)
    ensures if Usable(old(parts.frames), c)
      then parts.frames == old(parts.frames) && Keyed(CmdRaw(c)) && AllOk(parts.frames) && i == FirstMatch(parts.frames, CmdRaw(c), Key(c), 0)
      else Cleared(old(parts.frames), kept, c) && i == |kept| && parts.frames == kept + [parts.frames[i]]
  {
    var found;
    found, off, i := FindPartial(parts, c);
    kept := parts.frames;
    if !found {
      off, i := parts.buffer.dataSize, |kept|;
      EndOf(parts);
      ghost var base := parts.AppendSpace(FullSize(c));
      SameOff(kept, i, parts.frames);
    }
  }

  lemma EndOf(parts: FrameBuffer)
    requires parts.Valid()
    ensures parts.buffer.dataSize == parts.start + Off(parts.frames, |parts.frames|)
  {
    WholePrefix(parts.frames);
  }

  /** Subheader, size, key and piece of the chunk written over the partial command. */
  method MergeInto(parts: FrameBuffer, off: nat, c: Frame, ghost i: nat)
    requires parts.Valid() && ChunkOk(c) && i < |parts.frames| && off == parts.start + Off(parts.frames, i)
    requires |parts.frames[i]| == FullSize(c)
    modifies parts, parts.buffer.data
    ensures parts.Valid() && parts.frames == old(parts.frames)[i := Merged(old(parts.frames)[i], c)]
    ensures off == parts.start + Off(parts.frames, i)
  {
    parts.Write(off, 0, c[..SUBHEADER_SIZE], i);
    parts.Write(off, MEM_SIZE, Word(FullSize(c)), i);
    parts.Write(off, SUBHEADER_SIZE, Key(c), i);
    parts.Write(off, SUBHEADER_SIZE + KeySize(c) + Sent(c), PureData(c), i);
  }

  /** The partial command comes out of the buffer if the chunk completes it. */
  method TakeOut(parts: FrameBuffer, off: nat, c: Frame, ghost i: nat) returns (out: seq<Frame>)
    requires parts.Valid() && ChunkOk(c) && i < |parts.frames| && off == parts.start + Off(parts.frames, i)
    requires |parts.frames[i]| == FullSize(c)
    modifies parts, parts.buffer, parts.buffer.data
    ensures parts.Valid() && parts.buffer.data == old(parts.buffer.data)
    ensures out == if Completes(c) then [old(parts.frames)[i]] else []
    ensures parts.frames == if Completes(c) then old(parts.frames)[..i] + old(parts.frames)[i + 1..] else old(parts.frames)
  {
    out := [];
    if SUBHEADER_SIZE + KeySize(c) + Sent(c) + |PureData(c)| >= FullSize(c) {
      var whole := parts.Get(off, FullSize(c), i);
      out := [whole];
      parts.RemoveAt(off, FullSize(c), i);
    }
  }

  /** One chunk of a split command: merged into its partial command, which comes out if it is complete. */
  method ReceiveChunk(parts: FrameBuffer, c: Frame) returns (out: seq<Frame>, ghost base: Frame)
    requires IsPartials(parts) && ChunkOk(c)
    modifies parts, parts.buffer, parts.buffer.data
    ensures IsPartials(parts) && (parts.buffer.data == old(parts.buffer.data) || fresh(parts.buffer.data))
    ensures Received(old(parts.frames), c, parts.frames, out, base)
  {
    ghost var was := parts.frames;
    var off;
    ghost var i, kept;
    off, i, kept := PartialFor(parts, c);
    base := parts.frames[i];
    MergeInto(parts, off, c, i);
    ghost var mid := parts.frames;
    Outcome(was, kept, i, c, base, mid);
    out := TakeOut(parts, off, c, i);
    ProperAreOk(parts.frames);
  }
}
