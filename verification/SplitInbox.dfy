/** From the split buffer of one side to the inbox of the other: what a lookup finds after the last chunk of a split command
    has arrived (extApi.c, `_communicationThread`). */
module SplitInbox {
  import opened Sequences
  import opened Bytes
  import opened Frames
  import opened FrameBuffers
  import opened SplitFrames
  import opened SplitTransfer
  import opened SplitReceive
  import opened SplitRun
  import opened InboxMerge
  import opened InboxRun

  // ---------- what comes out of a message is what enters the inbox ----------

  lemma FramesOfOne(es: seq<Entry>, c: Frame, out: seq<Frame>)
    requires if IsWhole(c) then out == [c] else |out| <= 1
    ensures FramesOf(es + EntryOf(c, out)) == FramesOf(es) + out
  {
    if EntryOf(c, out) != [] {
      FramesSnoc(es, EntryOf(c, out)[0]);
    } else {
      assert es + [] == es && FramesOf(es) + [] == FramesOf(es);
    }
  }

  lemma TakenOut(message: seq<Frame>, tr: Trace, n: nat)
    requires TakenAll(message, tr) && n < |message|
    ensures if IsWhole(message[n]) then tr.outs[n] == [message[n]] else |tr.outs[n]| <= 1
  {
    assert Taken(tr.parts[n], message[n], tr.parts[n + 1], tr.outs[n]);
    OutIsWhole(tr.parts[n], message[n], tr.parts[n + 1], tr.outs[n]);
  }

  /** The entries of a message are exactly what comes out at its frames. */
  lemma {:induction false} EntriesAreOut(message: seq<Frame>, tr: Trace, n: nat)
    requires TakenAll(message, tr) && n <= |message|
    ensures FramesOf(Entries(message, tr.outs, n)) == Out(tr, n)
  {
    if n > 0 {
      EntriesAreOut(message, tr, n - 1);
      TakenOut(message, tr, n - 1);
      FramesOfOne(Entries(message, tr.outs, n - 1), message[n - 1], tr.outs[n - 1]);
    }
  }

  lemma {:induction false} FramesOfNamed(es: seq<Entry>, cmd: nat, key: seq<Byte>)
    ensures FramesOf(Named(es, cmd, key)) == Of(FramesOf(es), cmd, key)
  {
    if es != [] {
      var front, e := es[..|es| - 1], es[|es| - 1];
      FramesOfNamed(front, cmd, key);
      OfSnoc(FramesOf(front), e.f, cmd, key);
      if IsOf(e.f, cmd, key) {
        FramesSnoc(Named(front, cmd, key), e);
      } else {
        assert Named(front, cmd, key) + [] == Named(front, cmd, key);
      }
    } else {
      OfNone([], cmd, key);
    }
  }

  /** An entry of a name comes from a frame of that name. */
  ghost predicate ComesFrom(e: Entry, frames: seq<Frame>) {
    exists f :: f in frames && (IsWhole(f) <==> e.Whole?)
  }

  ghost predicate AllComeFrom(rs: seq<Entry>, frames: seq<Frame>) {
    forall e :: e in rs ==> ComesFrom(e, frames)
  }

  lemma OtherBringsNone(message: seq<Frame>, tr: Trace, n: nat, cmd: nat, key: seq<Byte>)
    requires TakenAll(message, tr) && n < |message| && !IsOf(message[n], cmd, key)
    ensures Of(tr.outs[n], cmd, key) == []
  {
    assert Taken(tr.parts[n], message[n], tr.parts[n + 1], tr.outs[n]);
    OtherPasses(tr.parts[n], message[n], tr.parts[n + 1], tr.outs[n], cmd, key);
  }

  lemma {:induction false} NamedComeFrom(message: seq<Frame>, tr: Trace, n: nat, cmd: nat, key: seq<Byte>)
    requires TakenAll(message, tr) && n <= |message|
    ensures AllComeFrom(Named(Entries(message, tr.outs, n), cmd, key), Of(message[..n], cmd, key))
  {
    if n > 0 {
      NamedComeFrom(message, tr, n - 1, cmd, key);
      TakenOut(message, tr, n - 1);
      if !IsOf(message[n - 1], cmd, key) {
        OtherBringsNone(message, tr, n - 1, cmd, key);
      }
      OfPrefix(message, n - 1, cmd, key);
      NamedOn(Entries(message, tr.outs, n - 1), message[n - 1], tr.outs[n - 1], cmd, key, Of(message[..n - 1], cmd, key));
    }
  }

  lemma NamedOn(es: seq<Entry>, c: Frame, out: seq<Frame>, cmd: nat, key: seq<Byte>, frames: seq<Frame>)
    requires if IsWhole(c) then out == [c] else |out| <= 1
    requires !IsOf(c, cmd, key) ==> Of(out, cmd, key) == []
    requires AllComeFrom(Named(es, cmd, key), frames)
    ensures AllComeFrom(Named(es + EntryOf(c, out), cmd, key), frames + if IsOf(c, cmd, key) then [c] else [])
  {
    var now := frames + if IsOf(c, cmd, key) then [c] else [];
    forall e | ComesFrom(e, frames) ensures ComesFrom(e, now) {
      var f :| f in frames && (IsWhole(f) <==> e.Whole?);
      assert f in now;
    }
    if EntryOf(c, out) == [] {
      assert es + [] == es;
    } else {
      var e := EntryOf(c, out)[0];
      NamedSnoc(es, e, cmd, key);
      OfOne(e.f, cmd, key);
      if IsOf(e.f, cmd, key) {
        assert c in now;
        assert ComesFrom(e, now);
      }
    }
  }

  // ---------- the last round ----------

  lemma OneRoundOn(run: seq<Round>, r: nat, f: Frame, g: Frame)
    requires IsRun(run) && r + 1 < |run| && InFlight(run[r], f, g) && !IsLast(g)
    ensures InFlight(run[r + 1], f, Advanced(g))
  {
    RoundProgress(run[r], f, g);
    assert Follows(run[r], run[r + 1]);
    NextInFlight(run[r], run[r + 1], f, g);
  }

  /** What waits of a split command of several pieces in the round that sends its last chunk. */
  lemma {:induction false} LastInFlight(run: seq<Round>, r: nat, f: Frame, g: Frame, last: nat) returns (h: Frame)
    requires IsRun(run) && r <= last < |run| && InFlight(run[r], f, g) && Sent(g) <= |PureData(f)|
    requires last + 1 - r == RoundsLeft(|PureData(f)|, Sent(g), MaxPiece(f))
    ensures InFlight(run[last], f, h)
    decreases last - r
  {
    LeftInFlight(f, g);
    if IsLast(g) {
      h := g;
    } else {
      OneRoundOn(run, r, f, g);
      h := LastInFlight(run, r + 1, f, Advanced(g), last);
    }
  }

  lemma StartsInFlight(run: seq<Round>, r: nat, f: Frame, n: nat)
    requires Starting(run, r, f, n) && |PureData(f)| > MaxPiece(f)
    ensures InFlight(run[r], f, f)
  {
    assert run[r].Valid() && Underway(f, f);
  }

  lemma InFlightSays(rd: Round, f: Frame, g: Frame)
    requires InFlight(rd, f, g)
    ensures Of(rd.sent, CmdRaw(f), Key(f)) == [g] && Waiting(g) && !IsWhole(ChunkOf(g))
  {
    ChunkOfUnderway(f, g);
  }

  /** What waits of the command in the round that sends its last chunk. */
  lemma LastWaiting(run: seq<Round>, r: nat, f: Frame, n: nat) returns (g: Frame)
    requires Starting(run, r, f, n)
    ensures Of(run[r + n - 1].sent, CmdRaw(f), Key(f)) == [g] && Waiting(g)
    ensures IsWhole(ChunkOf(g)) <==> |PureData(f)| <= MaxPiece(f)
  {
    if |PureData(f)| <= MaxPiece(f) {
      SmallIsWhole(f);
      g := f;
    } else {
      StartsInFlight(run, r, f, n);
      g := LastInFlight(run, r, f, f, r + n - 1);
      InFlightSays(run[r + n - 1], f, g);
    }
  }

  /** The frame of its name in the message that sends the last chunk. It is whole exactly if it is the only one. */
  lemma LastChunk(rd: Round, f: Frame, g: Frame)
    requires rd.Valid() && Waiting(g) && FrameOk(f) && Of(rd.sent, CmdRaw(f), Key(f)) == [g] && Of(rd.plain, CmdRaw(f), Key(f)) == []
    ensures Of(rd.Message()[..|rd.Message()|], CmdRaw(f), Key(f)) == [ChunkOf(g)]
  {
    MessageOf(rd, f, g);
    assert [] + [ChunkOf(g)] == [ChunkOf(g)];
  }

  /** A keyed command is put into the split buffer at round `r`, and the run goes on until its last chunk. */
  ghost predicate Starting(run: seq<Round>, r: nat, f: Frame, n: nat) {
    && IsRun(run) && r < |run| && Waiting(f) && Keyed(CmdRaw(f)) && Sent(f) == 0
    && Of(run[r].sent, CmdRaw(f), Key(f)) == [f] && |run[r].Before(CmdRaw(f), Key(f))| <= 1
    && n == RoundsLeft(|PureData(f)|, 0, MaxPiece(f)) && r + n <= |run|
  }

  // ---------- in the inbox ----------

  /** What enters the inbox when the last chunk of a command `f` arrives as `m`. */
  function Arrived(f: Frame, m: Frame): Entry
    requires FrameOk(f)
  {
    if |PureData(f)| <= MaxPiece(f) then Whole(m) else Completed(m)
  }

  lemma OneNamed(es: seq<Entry>, cmd: nat, key: seq<Byte>, m: Frame)
    requires FramesOf(Named(es, cmd, key)) == [m]
    ensures |Named(es, cmd, key)| == 1 && Named(es, cmd, key)[0].f == m
  {
    var named := Named(es, cmd, key);
    FramesLength(named);
    FramesLength(named[..|named| - 1]);
    assert FramesOf(named)[0] == named[0].f;
  }

  lemma NamedAtLast(run: seq<Round>, r: nat, f: Frame, n: nat) returns (m: Frame)
    requires Starting(run, r, f, n) && Of(run[r + n - 1].plain, CmdRaw(f), Key(f)) == []
    ensures var rd := run[r + n - 1];
      |rd.Message()| <= |rd.tr.outs| &&
      IsCopy(m, f) && Named(Entries(rd.Message(), rd.tr.outs, |rd.Message()|), CmdRaw(f), Key(f)) == [Arrived(f, m)]
  {
    var rd, cmd, key := run[r + n - 1], CmdRaw(f), Key(f);
    var es := Entries(rd.Message(), rd.tr.outs, |rd.Message()|);
    RoundTripIn(run, r, f, n);
    m := rd.Delivered(cmd, key)[0];
    assert rd.Delivered(cmd, key) == [m];
    EntriesAreOut(rd.Message(), rd.tr, |rd.Message()|);
    FramesOfNamed(es, cmd, key);
    OneNamed(es, cmd, key, m);
    var g := LastWaiting(run, r, f, n);
    LastChunk(rd, f, g);
    NamedComeFrom(rd.Message(), rd.tr, |rd.Message()|, cmd, key);
    assert Named(es, cmd, key)[0] in Named(es, cmd, key);
  }

  /** After the last chunk of a keyed command has arrived, and no other reply of its name in the same message, the inbox has
      the command, byte for byte in key and pure data, in front of what it had of the name but for the first. In several
      chunks this holds whatever the command: a string stream takes the place of what was there and is not joined to it, and
      a discontinued command is put in. */
  lemma SplitReachesInbox(run: seq<Round>, r: nat, f: Frame, n: nat, before: seq<Byte>, was: seq<Frame>, now: seq<Frame>)
    returns (m: Frame)
    requires Starting(run, r, f, n) && Of(run[r + n - 1].plain, CmdRaw(f), Key(f)) == []
    requires Merges(before, was, run[r + n - 1].Message(), run[r + n - 1].tr, now)
    ensures IsCopy(m, f) && var own := Of(was, CmdRaw(f), Key(f));
      && Of(now, CmdRaw(f), Key(f)) == Added(Arrived(f, m), own) + Dropped(own, 1)
      && (|PureData(f)| > MaxPiece(f) || (CmdRaw(f) != READ_STRING_STREAM && OpMode(f) != DISCONTINUE) ==>
            Of(now, CmdRaw(f), Key(f)) == [m] + Dropped(own, 1))
  {
    var rd, cmd, key := run[r + n - 1], CmdRaw(f), Key(f);
    var es := Entries(rd.Message(), rd.tr.outs, |rd.Message()|);
    m := NamedAtLast(run, r, f, n);
    assert NameNow(was, es, now, cmd, key);
    NewsOfSingle(Arrived(f, m), Of(was, cmd, key));
  }
}
