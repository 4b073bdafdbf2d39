/** Which split commands arrive (extApi.c, `_communicationThread` and `_getSameCommandPointer`): all with a key, and of
    those without one exactly the ones that fit into one piece. */
module SplitArrivals {
  import opened Sequences
  import opened Bytes
  import opened Frames
  import opened FrameBuffers
  import opened SplitFrames
  import opened SplitTransfer
  import opened SplitReceive
  import opened SplitRun

  /** In how many rounds a command is sent. */
  ghost function Rounds(f: Frame): nat
    requires Waiting(f)
  {
    RoundsLeft(|PureData(f)|, 0, MaxPiece(f))
  }

  /** In every run, whatever else is sent and whatever was in the space that the receiver uses, the command comes out as
      it was at its last chunk, and nothing of it before. */
  ghost predicate Arrives(f: Frame)
    requires Waiting(f) && Sent(f) == 0
  {
    forall run, r: nat :: Starts(run, r, f) ==> Transferred(run, r, Rounds(f), f)
  }

  /** The command is put into the split buffer at round `r`, and the run goes on long enough. */
  ghost predicate Starts(run: seq<Round>, r: nat, f: Frame)
    requires Waiting(f) && Sent(f) == 0
  {
    && IsRun(run) && r + Rounds(f) <= |run| && Of(run[r].sent, CmdRaw(f), Key(f)) == [f]
    && |run[r].Before(CmdRaw(f), Key(f))| <= 1
  }

  function Flipped(p: Byte): (q: Byte)
    ensures q != p
  {
    if p == 0 then 1 else 0
  }

  lemma OverSpace(was: seq<Frame>, c: Frame, base: Frame) returns (now: seq<Frame>, out: seq<Frame>)
    requires ChunkOk(c) && !Keyed(CmdRaw(c)) && |base| == FullSize(c) && AllProper(was)
    ensures Received(was, c, now, out, base) && AllProper(now) && out == if Completes(c) then [Merged(base, c)] else []
    ensures Of(out, CmdRaw(c), Key(c)) == out
  {
    var m := Merged(base, c);
    MergedIsOwn(base, c);
    OfOne(m, CmdRaw(c), Key(c));
    OfNone([], CmdRaw(c), Key(c));
    now, out := was + (if Completes(c) then [] else [m]), if Completes(c) then [m] else [];
  }

  /** What can happen to a chunk of a command without a key: it is written over fresh space that holds other bytes. */
  lemma Spoiled(was: seq<Frame>, f: Frame, g: Frame) returns (now: seq<Frame>, out: seq<Frame>)
    requires Underway(f, g) && !Keyed(CmdRaw(f)) && |PureData(f)| > MaxPiece(f) && AllProper(was)
    ensures Taken(was, ChunkOf(g), now, out) && AllProper(now)
    ensures Of(out, CmdRaw(f), Key(f)) == out
    ensures IsLast(g) && Sent(g) > 0 ==> |out| == 1 && !IsCopy(out[0], f)
    ensures !IsLast(g) ==> out == []
  {
    var c := ChunkOf(g);
    ChunkOfUnderway(f, g);
    var base := seq(|f|, _ => Flipped(PureData(f)[0]));
    MergedSays(base, c);
    now, out := OverSpace(was, c, base);
    if Sent(g) > 0 {
      assert PureData(Merged(base, c))[0] == Tail(base, KeySize(c))[0] == Flipped(PureData(f)[0]);
    }
  }

  /** A round with one chunk and nothing else. */
  lemma OneChunk(g: Frame, was: seq<Frame>, now: seq<Frame>, out: seq<Frame>) returns (rd: Round)
    requires Waiting(g) && AllProper(was) && AllProper(now) && Taken(was, ChunkOf(g), now, out)
    ensures rd.Valid() && rd.sent == [g] && rd.plain == [] && rd.tr.parts == [was, now] && Out(rd.tr, |rd.tr.outs|) == out
  {
    rd := Round([g], [], Trace([was, now], [out]));
    CollectSnoc([], g, PieceOf);
    assert [] + [g] == [g] && [] + [ChunkOf(g)] == [ChunkOf(g)];
    assert rd.Message() == [ChunkOf(g)];
    assert Out(rd.tr, 1) == Out(rd.tr, 0) + out == out;
  }

  lemma SpoiledRound(was: seq<Frame>, f: Frame, g: Frame) returns (rd: Round)
    requires Underway(f, g) && !Keyed(CmdRaw(f)) && |PureData(f)| > MaxPiece(f) && AllProper(was)
    ensures rd.Valid() && rd.sent == [g] && rd.plain == [] && rd.tr.parts[0] == was && |rd.tr.parts| == 2 && AllProper(rd.tr.parts[1])
    ensures var delivered := rd.Delivered(CmdRaw(f), Key(f));
      IsLast(g) && Sent(g) > 0 ==> |delivered| == 1 && !IsCopy(delivered[0], f)
  {
    var now, out := Spoiled(was, f, g);
    rd := OneChunk(g, was, now, out);
  }

  /** A run in which every chunk of a command without a key is written over such space. */
  lemma {:induction false} SpoiledRun(was: seq<Frame>, f: Frame, g: Frame) returns (run: seq<Round>)
    requires Underway(f, g) && !Keyed(CmdRaw(f)) && |PureData(f)| > MaxPiece(f) && AllProper(was) && Sent(g) <= |PureData(f)|
    ensures IsRun(run) && |run| == RoundsLeft(|PureData(f)|, Sent(g), MaxPiece(f))
    ensures run[0].sent == [g] && run[0].tr.parts != [] && run[0].tr.parts[0] == was
    ensures var last := run[|run| - 1]; var delivered := last.Delivered(CmdRaw(f), Key(f));
      last.plain == [] && |delivered| == 1 && !IsCopy(delivered[0], f)
    decreases |PureData(f)| - Sent(g)
  {
    LeftInFlight(f, g);
    UnderwayFields(f, g, 0, []);
    PieceLeft(g);
    var rd := SpoiledRound(was, f, g);
    if IsLast(g) {
      PieceFits(g);
      run := [rd];
    } else {
      AdvancedSays(g);
      var rest := SpoiledRun(rd.tr.parts[1], f, Advanced(g));
      RestOfOne(g);
      run := [rd] + rest;
      assert Follows(rd, rest[0]);
      RunGrows(rd, rest);
    }
  }

  lemma RestOfOne(g: Frame)
    requires Waiting(g) && !IsLast(g)
    ensures Rest([g]) == [Advanced(g)]
  {
    CollectSnoc([], g, NextOf);
    assert [] + [g] == [g] && [] + [Advanced(g)] == [Advanced(g)];
  }

  lemma RunGrows(rd: Round, rest: seq<Round>)
    requires rd.Valid() && IsRun(rest) && rest != [] && Follows(rd, rest[0])
    ensures IsRun([rd] + rest)
  {
    var run := [rd] + rest;
    forall r | 0 <= r < |run| ensures run[r].Valid() {
      assert r > 0 ==> run[r] == rest[r - 1];
    }
    forall r | 0 <= r < |run| - 1 ensures Follows(run[r], run[r + 1]) {
      assert run[r + 1] == rest[r];
      assert r > 0 ==> run[r] == rest[r - 1];
    }
  }

  lemma UnkeyedFails(f: Frame)
    requires Waiting(f) && Sent(f) == 0 && !Keyed(CmdRaw(f)) && |PureData(f)| > MaxPiece(f)
    ensures !Arrives(f)
  {
    assert Underway(f, f);
    var run := SpoiledRun([], f, f);
    OfOne(f, CmdRaw(f), Key(f));
    OfNone([], CmdRaw(f), Key(f));
    assert IsOf(f, CmdRaw(f), Key(f));
    assert Starts(run, 0, f);
    assert !Transferred(run, 0, Rounds(f), f);
  }

  /** A split command arrives in every run if and only if it has a key or fits into one piece. */
  lemma ArrivesIff(f: Frame)
    requires Waiting(f) && Sent(f) == 0
    ensures Arrives(f) <==>
      |PureData(f)| <= MaxPiece(f) || (0x1000 < CmdRaw(f) < 0x4000 && CmdRaw(f) != 0x2000 && CmdRaw(f) != 0x3000)
  {
    if |PureData(f)| <= MaxPiece(f) {
      forall run, r: nat | Starts(run, r, f) ensures Transferred(run, r, Rounds(f), f) {
        SmallArrives(run, r, f);
      }
    } else if Keyed(CmdRaw(f)) {
      RoundsIsCeiling(|PureData(f)|, MaxPiece(f));
      forall run, r: nat | Starts(run, r, f) ensures Transferred(run, r, Rounds(f), f) {
        SplitRoundTrip(run, r, f, Rounds(f));
      }
    } else {
      UnkeyedFails(f);
    }
  }
}
