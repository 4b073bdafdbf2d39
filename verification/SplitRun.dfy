/** The split transfer over whole runs: many messages, many commands in flight at once, and whatever partial data
    the receiver held before (extApi.c, `_communicationThread`). */
module SplitRun {
  import opened Sequences
  import opened Bytes
  import opened Frames
  import opened FrameBuffers
  import opened SplitFrames
  import opened SplitTransfer
  import opened SplitReceive

  // ---------- one message at the receiver ----------

  predicate IsWhole(c: Frame) {
    FrameOk(c) && |c| == FullSize(c)
  }

  /** A frame that carries its whole command passes through; a chunk goes into the partial commands. */
  ghost predicate Taken(was: seq<Frame>, c: Frame, now: seq<Frame>, out: seq<Frame>) {
    if IsWhole(c) then now == was && out == [c]
    else ChunkOk(c) && exists base :: Received(was, c, now, out, base)
  }

  /** The receive loop over one message: the partial commands before each frame and at the end, and what comes
      out at each frame. */
  datatype Trace = Trace(parts: seq<seq<Frame>>, outs: seq<seq<Frame>>)

  ghost predicate TakenAll(message: seq<Frame>, tr: Trace) {
    TakenTo(message, tr, |message|)
  }

  ghost predicate TakenTo(message: seq<Frame>, tr: Trace, n: nat) {
    && |tr.parts| == n + 1 && |tr.outs| == n <= |message|
    && forall i :: 0 <= i < n ==> Taken(tr.parts[i], message[i], tr.parts[i + 1], tr.outs[i])
  }

  /** All that comes out at the first `n` frames. */
  ghost function Out(tr: Trace, n: nat): seq<Frame>
    requires n <= |tr.outs|
  {
    if n == 0 then [] else Out(tr, n - 1) + tr.outs[n - 1]
  }

  predicate AllWhole(fs: seq<Frame>) {
    forall f :: f in fs ==> IsWhole(f)
  }

  lemma OutPasses(c: Frame, base: Frame, out: seq<Frame>, cmd: nat, key: seq<Byte>)
    requires ChunkOk(c) && |base| == FullSize(c) && !IsOf(c, cmd, key)
    requires out == if Completes(c) then [Merged(base, c)] else []
    ensures !IsOf(Merged(base, c), cmd, key) && Of(out, cmd, key) == []
  {
    MergedIsOwn(base, c);
    OfOne(Merged(base, c), cmd, key);
    OfNone([], cmd, key);
  }

  lemma BehindPasses(was: seq<Frame>, x: Frame, put: bool, cmd: nat, key: seq<Byte>)
    requires !IsOf(x, cmd, key)
    ensures Of(was + if put then [x] else [], cmd, key) == Of(was, cmd, key)
  {
    OfSnoc(was, x, cmd, key);
    assert was + [] == was;
  }

  /** A frame of another command or key changes nothing for this one. */
  lemma OtherPasses(was: seq<Frame>, c: Frame, now: seq<Frame>, out: seq<Frame>, cmd: nat, key: seq<Byte>)
    requires Taken(was, c, now, out) && !IsOf(c, cmd, key)
    ensures Of(now, cmd, key) == Of(was, cmd, key) && Of(out, cmd, key) == []
  {
    if IsWhole(c) {
      OfOne(c, cmd, key);
    } else {
      var base :| Received(was, c, now, out, base);
      OutPasses(c, base, out, cmd, key);
      if !Keyed(CmdRaw(c)) {
        BehindPasses(was, Merged(base, c), !Completes(c), cmd, key);
      }
    }
  }

  lemma OfPrefix(message: seq<Frame>, n: nat, cmd: nat, key: seq<Byte>)
    requires n < |message|
    ensures Of(message[..n + 1], cmd, key) == Of(message[..n], cmd, key) + if IsOf(message[n], cmd, key) then [message[n]] else []
  {
    PrefixSnoc(message, n);
    OfSnoc(message[..n], message[n], cmd, key);
  }

  /** Whole commands of a name pass through and leave its partial commands alone. */
  lemma {:induction false} WholesPass(message: seq<Frame>, tr: Trace, n: nat, cmd: nat, key: seq<Byte>)
    requires TakenAll(message, tr) && n <= |message| && AllWhole(Of(message[..n], cmd, key))
    ensures Of(tr.parts[n], cmd, key) == Of(tr.parts[0], cmd, key)
    ensures Of(Out(tr, n), cmd, key) == Of(message[..n], cmd, key)
  {
    if n > 0 {
      var c := message[n - 1];
      OfPrefix(message, n - 1, cmd, key);
      WholesPass(message, tr, n - 1, cmd, key);
      assert Taken(tr.parts[n - 1], c, tr.parts[n], tr.outs[n - 1]);
      OfConcat(Out(tr, n - 1), tr.outs[n - 1], cmd, key);
      if IsOf(c, cmd, key) {
        assert c in Of(message[..n], cmd, key) by {
          assert Of(message[..n], cmd, key)[|Of(message[..n - 1], cmd, key)|] == c;
        }
        OfOne(c, cmd, key);
      } else {
        OtherPasses(tr.parts[n - 1], c, tr.parts[n], tr.outs[n - 1], cmd, key);
      }
    } else {
      assert message[..0] == [] && Of([], cmd, key) == [];
    }
  }

  /** What one chunk of a key, behind whole commands of it, does within a whole message. */
  ghost predicate ChunkTaken(own: seq<Frame>, wholes: seq<Frame>, c: Frame, own': seq<Frame>, outs: seq<Frame>, base: Frame)
    requires ChunkOk(c)
  {
    && |base| == FullSize(c) && (own != [] && |own[0]| == FullSize(c) ==> base == own[0])
    && own' == (if Completes(c) then [] else [Merged(base, c)])
    && outs == wholes + if Completes(c) then [Merged(base, c)] else []
  }

  /** What the chunk can have been written over. */
  ghost function Bases(own: seq<Frame>, wholes: seq<Frame>, c: Frame, own': seq<Frame>, outs: seq<Frame>): iset<Frame>
    requires ChunkOk(c)
  {
    iset base | ChunkTaken(own, wholes, c, own', outs, base)
  }

  lemma {:induction false} ChunkInMessage(message: seq<Frame>, tr: Trace, n: nat, cmd: nat, key: seq<Byte>, wholes: seq<Frame>, c: Frame)
    returns (base: Frame)
    requires TakenAll(message, tr) && n <= |message| && Keyed(cmd) && AllWhole(wholes) && ChunkOk(c)
    requires Of(message[..n], cmd, key) == wholes + [c] && |Of(tr.parts[0], cmd, key)| <= 1
    ensures base in Bases(Of(tr.parts[0], cmd, key), wholes, c, Of(tr.parts[n], cmd, key), Of(Out(tr, n), cmd, key))
  {
    OwnIsThere(message, n, cmd, key);
    var f := message[n - 1];
    OfPrefix(message, n - 1, cmd, key);
    assert Taken(tr.parts[n - 1], f, tr.parts[n], tr.outs[n - 1]);
    OfConcat(Out(tr, n - 1), tr.outs[n - 1], cmd, key);
    if IsOf(f, cmd, key) {
      SnocIsSnoc(Of(message[..n - 1], cmd, key), f, wholes, c);
      WholesPass(message, tr, n - 1, cmd, key);
      base := ChunkAtLast(tr.parts[n - 1], c, tr.parts[n], tr.outs[n - 1]);
      ChunkBehind(Of(tr.parts[0], cmd, key), wholes, c, Of(tr.parts[n], cmd, key), Of(tr.outs[n - 1], cmd, key), base, Of(Out(tr, n), cmd, key));
    } else {
      base := ChunkInMessage(message, tr, n - 1, cmd, key, wholes, c);
      OtherPasses(tr.parts[n - 1], f, tr.parts[n], tr.outs[n - 1], cmd, key);
      AddsNothing(Of(Out(tr, n - 1), cmd, key), Of(tr.outs[n - 1], cmd, key));
    }
  }

  lemma AddsNothing<T>(a: seq<T>, b: seq<T>)
    requires b == []
    ensures a + b == a
  {
  }

  lemma ChunkBehind(own: seq<Frame>, wholes: seq<Frame>, c: Frame, own': seq<Frame>, outs: seq<Frame>, base: Frame, all: seq<Frame>)
    requires ChunkOk(c) && base in Bases(own, [], c, own', outs) && all == wholes + outs
    ensures base in Bases(own, wholes, c, own', all)
  {
  }

  lemma OwnIsThere(message: seq<Frame>, n: nat, cmd: nat, key: seq<Byte>)
    requires n <= |message|
    ensures Of(message[..n], cmd, key) != [] ==> n > 0
  {
    OfNone([], cmd, key);
  }

  lemma SnocIsSnoc<T>(a: seq<T>, x: T, b: seq<T>, y: T)
    requires a + [x] == b + [y]
    ensures a == b && x == y
  {
    assert (a + [x])[..|a|] == a && (b + [y])[..|b|] == b;
    assert (a + [x])[|a|] == x && (b + [y])[|b|] == y;
  }

  lemma ReceivedOwn(was: seq<Frame>, c: Frame, now: seq<Frame>, out: seq<Frame>, base: Frame)
    requires ChunkOk(c) && Keyed(CmdRaw(c)) && Received(was, c, now, out, base) && |Own(was, c)| <= 1
    ensures ChunkTaken(Own(was, c), [], c, Own(now, c), out, base)
  {
    var own := Own(was, c);
    if own != [] {
      assert own[1..] == [];
    }
    AddsNothing([Merged(base, c)], []);
  }

  lemma CompletedIsOwn(c: Frame, base: Frame, out: seq<Frame>)
    requires ChunkOk(c) && |base| == FullSize(c) && out == if Completes(c) then [Merged(base, c)] else []
    ensures Of(out, CmdRaw(c), Key(c)) == out
  {
    MergedIsOwn(base, c);
    OfOne(Merged(base, c), CmdRaw(c), Key(c));
    OfNone([], CmdRaw(c), Key(c));
  }

  lemma ChunkAtLast(was: seq<Frame>, c: Frame, now: seq<Frame>, out: seq<Frame>) returns (base: Frame)
    requires ChunkOk(c) && Keyed(CmdRaw(c)) && Taken(was, c, now, out) && |Of(was, CmdRaw(c), Key(c))| <= 1
    ensures base in Bases(Of(was, CmdRaw(c), Key(c)), [], c, Of(now, CmdRaw(c), Key(c)), Of(out, CmdRaw(c), Key(c)))
  {
    base :| Received(was, c, now, out, base);
    ReceivedOwn(was, c, now, out, base);
    CompletedIsOwn(c, base, out);
  }

  // ---------- one round at the sender ----------

  /** The chunk and the rest of a command are of the same command and key. */
  lemma PieceAndNextAreOf(f: Frame, cmd: nat, key: seq<Byte>)
    ensures Of(PieceOf(f), cmd, key) == if IsOf(f, cmd, key) then PieceOf(f) else []
    ensures Of(NextOf(f), cmd, key) == if IsOf(f, cmd, key) then NextOf(f) else []
  {
    OfNone([], cmd, key);
    if Waiting(f) {
      ChunkSays(f);
      AdvancedSays(f);
      SameHeaderFields(f, ChunkOf(f));
      SameHeaderFields(f, Advanced(f));
      OfOne(ChunkOf(f), cmd, key);
      OfOne(Advanced(f), cmd, key);
    }
  }

  lemma {:induction false} CollectOf(frames: seq<Frame>, g: Frame -> seq<Frame>, cmd: nat, key: seq<Byte>)
    requires forall f :: Of(g(f), cmd, key) == if IsOf(f, cmd, key) then g(f) else []
    ensures Of(Collect(frames, g), cmd, key) == Collect(Of(frames, cmd, key), g)
  {
    if frames == [] {
      OfNone([], cmd, key);
    } else {
      var front, f := frames[..|frames| - 1], frames[|frames| - 1];
      CollectOf(front, g, cmd, key);
      OfConcat(Collect(front, g), g(f), cmd, key);
      if IsOf(f, cmd, key) {
        CollectSnoc(Of(front, cmd, key), f, g);
      } else {
        assert Of(front, cmd, key) + [] == Of(front, cmd, key);
      }
    }
  }

  /** What one round makes of the commands of one key. */
  lemma RoundOf(frames: seq<Frame>, cmd: nat, key: seq<Byte>)
    ensures Of(Chunks(frames), cmd, key) == Chunks(Of(frames, cmd, key))
    ensures Of(Rest(frames), cmd, key) == Rest(Of(frames, cmd, key))
  {
    forall f ensures Of(PieceOf(f), cmd, key) == if IsOf(f, cmd, key) then PieceOf(f) else [] {
      PieceAndNextAreOf(f, cmd, key);
    }
    forall f ensures Of(NextOf(f), cmd, key) == if IsOf(f, cmd, key) then NextOf(f) else [] {
      PieceAndNextAreOf(f, cmd, key);
    }
    CollectOf(frames, PieceOf, cmd, key);
    CollectOf(frames, NextOf, cmd, key);
  }

  lemma RoundOfOne(frames: seq<Frame>, f: Frame, cmd: nat, key: seq<Byte>)
    requires Of(frames, cmd, key) == [f]
    ensures Of(Chunks(frames), cmd, key) == PieceOf(f) && Of(Rest(frames), cmd, key) == NextOf(f)
  {
    RoundOf(frames, cmd, key);
    CollectSnoc([], f, PieceOf);
    CollectSnoc([], f, NextOf);
    assert [] + [f] == [f];
  }

  // ---------- whole runs ----------

  /** One round: the commands waiting at the sender, the other frames of its message, and what the receiver makes
      of the message. */
  datatype Round = Round(sent: seq<Frame>, plain: seq<Frame>, tr: Trace) {
    ghost function Message(): seq<Frame> {
      plain + Chunks(sent)
    }

    ghost predicate Valid() {
      AllWaiting(sent) && AllWhole(plain) && TakenAll(Message(), tr)
    }

    /** What the receiver has of a command's partial data before the round. */
    ghost function Before(cmd: nat, key: seq<Byte>): seq<Frame> {
      if tr.parts == [] then [] else Of(tr.parts[0], cmd, key)
    }

    ghost function After(cmd: nat, key: seq<Byte>): seq<Frame> {
      if tr.parts == [] then [] else Of(tr.parts[|tr.parts| - 1], cmd, key)
    }

    /** What comes out of a command and key in the round. */
    ghost function Delivered(cmd: nat, key: seq<Byte>): seq<Frame> {
      Of(Out(tr, |tr.outs|), cmd, key)
    }
  }

  /** Between rounds the receiver keeps its partial commands, and commands may be added at the sender; a command
      still waiting is not replaced. */
  ghost predicate Follows(a: Round, b: Round)
    requires a.Valid() && b.Valid()
  {
    && b.tr.parts[0] == a.tr.parts[|a.tr.parts| - 1]
    && forall cmd: nat, key: seq<Byte> :: Of(Rest(a.sent), cmd, key) != [] ==> Of(b.sent, cmd, key) == Of(Rest(a.sent), cmd, key)
  }

  ghost predicate IsRun(run: seq<Round>) {
    && (forall r :: 0 <= r < |run| ==> run[r].Valid())
    && forall r :: 0 <= r < |run| - 1 ==> Follows(run[r], run[r + 1])
  }

  /** How many more rounds a command takes. */
  ghost function RoundsLeft(total: nat, sent: nat, most: nat): (n: nat)
    requires sent <= total && most > 0
    ensures n > 0
    decreases total - sent
  {
    if total - sent <= most then 1 else 1 + RoundsLeft(total, sent + most, most)
  }

  lemma {:induction false} RoundsLeftBounds(total: nat, sent: nat, most: nat)
    requires sent <= total && most > 0
    ensures (RoundsLeft(total, sent, most) - 1) * most <= total - sent <= RoundsLeft(total, sent, most) * most
    ensures RoundsLeft(total, sent, most) > 1 ==> (RoundsLeft(total, sent, most) - 1) * most < total - sent
    decreases total - sent
  {
    if total - sent > most {
      RoundsLeftBounds(total, sent + most, most);
      var n := RoundsLeft(total, sent + most, most);
      assert n * most == (n - 1) * most + most;
      assert (n + 1) * most == n * most + most;
    }
  }

  lemma ProductOfLess(p: int, q: int, b: nat)
    requires p < q
    ensures p * b + b <= q * b
  {
    assert (q - p - 1) * b >= 0;
    assert (q - p - 1) * b == q * b - p * b - b;
  }

  lemma QuotientIs(a: nat, b: nat, q: nat, r: nat)
    requires b > 0 && r < b && a == q * b + r
    ensures a / b == q
  {
    var p := a / b;
    assert a == p * b + a % b;
    if p < q {
      ProductOfLess(p, q, b);
    } else if q < p {
      ProductOfLess(q, p, b);
    }
  }

  /** A command is drained in its size divided by the piece size, rounded up, and in one round if it is empty. */
  lemma RoundsIsCeiling(total: nat, most: nat)
    requires most > 0
    ensures RoundsLeft(total, 0, most) == if total == 0 then 1 else (total + most - 1) / most
  {
    if total > 0 {
      RoundsLeftBounds(total, 0, most);
      var n := RoundsLeft(total, 0, most);
      assert n * most == (n - 1) * most + most;
      QuotientIs(total + most - 1, most, n, total - 1 - (n - 1) * most);
    }
  }

  /** `g` is `f` with some of its pure data sent. */
  ghost predicate Underway(f: Frame, g: Frame) {
    Waiting(f) && Waiting(g) && SameHeader(f, g) && Key(g) == Key(f) && PureData(g) == PureData(f)
  }

  lemma UnderwayFields(f: Frame, g: Frame, cmd: nat, key: seq<Byte>)
    requires Underway(f, g)
    ensures |f| == |g| && FullSize(g) == FullSize(f) && KeySize(g) == KeySize(f) && MaxPiece(g) == MaxPiece(f) && CmdRaw(g) == CmdRaw(f)
    ensures IsOf(f, cmd, key) <==> IsOf(g, cmd, key)
  {
    SameHeaderFields(f, g);
    PieceFits(f);
    PieceFits(g);
  }

  /** The receiver holds the first `sent` bytes of the command, and nothing of it before the first chunk but
      possibly one partial command left over from before. */
  ghost predicate Covers(own: seq<Frame>, f: Frame, sent: nat)
    requires FrameOk(f)
  {
    |own| <= 1 && (sent > 0 ==> own != [] && HoldsStart(own[0], f, sent))
  }

  ghost predicate HoldsStart(p: Frame, f: Frame, sent: nat)
    requires FrameOk(f)
  {
    && FrameOk(p) && |p| == |f| && KeySize(p) == KeySize(f) && sent <= |PureData(f)| == |PureData(p)|
    && PureData(p)[..sent] == PureData(f)[..sent]
  }

  /** The command as it was: command, key, pure data and size. */
  ghost predicate IsCopy(r: Frame, f: Frame)
    requires FrameOk(f)
  {
    FrameOk(r) && CmdRaw(r) == CmdRaw(f) && OpMode(r) == OpMode(f) && Key(r) == Key(f) && PureData(r) == PureData(f) && |r| == |f| == FullSize(r)
  }

  lemma OverwrittenStart<T>(p: seq<T>, f: seq<T>, o: nat, n: nat)
    requires |p| == |f| && o + n <= |f| && p[..o] == f[..o]
    ensures Overwritten(p, o, f[o..o + n])[..o + n] == f[..o + n]
  {
    var r := Overwritten(p, o, f[o..o + n]);
    forall i | 0 <= i < o + n ensures r[i] == f[i] {
      assert i < o ==> p[i] == p[..o][i] && f[i] == f[..o][i];
    }
  }

  /** `c` carries the bytes from `o` to `o + n` of the pure data of `f`, and completes it if they are the last. */
  ghost predicate IsPiece(f: Frame, c: Frame, o: nat, n: nat) {
    && FrameOk(f) && ChunkOk(c) && FullSize(c) == |f| && o + n <= |PureData(f)|
    && KeySize(c) == KeySize(f) && CmdRaw(c) == CmdRaw(f) && OpMode(c) == OpMode(f) && Key(c) == Key(f)
    && Sent(c) == o && PureData(c) == PureData(f)[o..o + n] && (Completes(c) <==> o + n == |PureData(f)|)
  }

  lemma ChunkFields(f: Frame, g: Frame, c: Frame)
    requires Underway(f, g) && c == ChunkOf(g)
    ensures Proper(c) && FullSize(c) == |f| && KeySize(c) == KeySize(f) && CmdRaw(c) == CmdRaw(f) && OpMode(c) == OpMode(f)
    ensures Key(c) == Key(f) && Sent(c) == Sent(g) && Sent(g) + PieceSize(g) <= |PureData(f)|
    ensures PureData(c) == PureData(f)[Sent(g)..Sent(g) + PieceSize(g)]
    ensures |c| == SUBHEADER_SIZE + KeySize(f) + PieceSize(g)
  {
    UnderwayFields(f, g, 0, []);
    ChunkSays(g);
    SameHeaderFields(g, c);
    SameHeaderFields(f, g);
  }

  /** The chunk of a command underway is a piece of it. */
  lemma ChunkOfUnderway(f: Frame, g: Frame)
    requires Underway(f, g) && |PureData(f)| > MaxPiece(f)
    ensures IsPiece(f, ChunkOf(g), Sent(g), PieceSize(g)) && !IsWhole(ChunkOf(g))
    ensures IsLast(g) <==> Sent(g) + PieceSize(g) == |PureData(f)|
  {
    ChunkFields(f, g, ChunkOf(g));
    UnderwayFields(f, g, 0, []);
    PieceFits(f);
    PieceFits(g);
  }

  /** A piece written behind the bytes that were there already. */
  lemma MergedIsCopy(f: Frame, c: Frame, m: Frame, base: Frame, o: nat, n: nat)
    requires IsPiece(f, c, o, n) && |base| == |f| && m == Merged(base, c) && (o > 0 ==> HoldsStart(base, f, o))
    ensures HoldsStart(m, f, o + n) && (o + n == |PureData(f)| ==> IsCopy(m, f))
  {
    MergedSays(base, c);
    SameHeaderFields(c, m);
    OverwrittenStart(Tail(base, KeySize(c)), PureData(f), o, n);
    WholePrefix(PureData(f));
    WholePrefix(PureData(m));
  }

  // ---------- the round trip ----------

  /** Round `rd` sends a chunk of `f`, which is underway as `g`, and the chunk is not the whole. */
  ghost predicate InFlight(rd: Round, f: Frame, g: Frame) {
    && rd.Valid() && Underway(f, g) && Keyed(CmdRaw(f)) && |PureData(f)| > MaxPiece(f)
    && Of(rd.sent, CmdRaw(f), Key(f)) == [g] && Covers(rd.Before(CmdRaw(f), Key(f)), f, Sent(g))
  }

  /** In the round, the plain frames of the command come out, and at the last chunk the command itself. */
  ghost predicate Progress(rd: Round, f: Frame, g: Frame)
    requires Waiting(f) && Waiting(g)
  {
    var wholes, delivered := Of(rd.plain, CmdRaw(f), Key(f)), rd.Delivered(CmdRaw(f), Key(f));
    if IsLast(g) then
      && |delivered| == |wholes| + 1 && delivered[..|wholes|] == wholes && IsCopy(delivered[|wholes|], f)
      && rd.After(CmdRaw(f), Key(f)) == [] && Of(Rest(rd.sent), CmdRaw(f), Key(f)) == []
    else
      && delivered == wholes && Covers(rd.After(CmdRaw(f), Key(f)), f, Sent(g) + PieceSize(g))
      && Of(Rest(rd.sent), CmdRaw(f), Key(f)) == [Advanced(g)]
  }

  lemma {:induction false} WholesOf(fs: seq<Frame>, cmd: nat, key: seq<Byte>)
    requires AllWhole(fs)
    ensures AllWhole(Of(fs, cmd, key))
  {
    if fs != [] {
      assert fs[|fs| - 1] in fs;
      WholesOf(fs[..|fs| - 1], cmd, key);
    }
  }

  lemma MessageOf(rd: Round, f: Frame, g: Frame)
    requires rd.Valid() && Waiting(g) && FrameOk(f) && Of(rd.sent, CmdRaw(f), Key(f)) == [g]
    ensures Of(rd.Message()[..|rd.Message()|], CmdRaw(f), Key(f)) == Of(rd.plain, CmdRaw(f), Key(f)) + [ChunkOf(g)]
    ensures Of(Rest(rd.sent), CmdRaw(f), Key(f)) == NextOf(g)
  {
    RoundOfOne(rd.sent, g, CmdRaw(f), Key(f));
    OfConcat(rd.plain, Chunks(rd.sent), CmdRaw(f), Key(f));
    WholePrefix(rd.Message());
  }

  lemma ChunkMakesProgress(f: Frame, c: Frame, o: nat, n: nat, own: seq<Frame>, wholes: seq<Frame>, own': seq<Frame>, outs: seq<Frame>, base: Frame)
    requires IsPiece(f, c, o, n) && Covers(own, f, o) && ChunkTaken(own, wholes, c, own', outs, base)
    ensures o + n == |PureData(f)| ==> own' == [] && |outs| == |wholes| + 1 && outs[..|wholes|] == wholes && IsCopy(outs[|wholes|], f)
    ensures o + n < |PureData(f)| ==> outs == wholes && Covers(own', f, o + n)
  {
    MergedIsCopy(f, c, Merged(base, c), base, o, n);
  }

  lemma RoundTaken(rd: Round, f: Frame, g: Frame) returns (base: Frame)
    requires InFlight(rd, f, g)
    ensures ChunkOk(ChunkOf(g)) && Of(Rest(rd.sent), CmdRaw(f), Key(f)) == NextOf(g)
    ensures base in Bases(rd.Before(CmdRaw(f), Key(f)), Of(rd.plain, CmdRaw(f), Key(f)), ChunkOf(g), rd.After(CmdRaw(f), Key(f)),
                          rd.Delivered(CmdRaw(f), Key(f)))
  {
    MessageOf(rd, f, g);
    WholesOf(rd.plain, CmdRaw(f), Key(f));
    ChunkOfUnderway(f, g);
    base := ChunkInMessage(rd.Message(), rd.tr, |rd.Message()|, CmdRaw(f), Key(f), Of(rd.plain, CmdRaw(f), Key(f)), ChunkOf(g));
  }

  lemma ProgressFrom(rd: Round, f: Frame, g: Frame, base: Frame)
    requires Waiting(f) && Waiting(g) && IsPiece(f, ChunkOf(g), Sent(g), PieceSize(g))
    requires (IsLast(g) <==> Sent(g) + PieceSize(g) == |PureData(f)|) && Of(Rest(rd.sent), CmdRaw(f), Key(f)) == NextOf(g)
    requires Covers(rd.Before(CmdRaw(f), Key(f)), f, Sent(g))
    requires base in Bases(rd.Before(CmdRaw(f), Key(f)), Of(rd.plain, CmdRaw(f), Key(f)), ChunkOf(g), rd.After(CmdRaw(f), Key(f)),
                           rd.Delivered(CmdRaw(f), Key(f)))
    ensures Progress(rd, f, g)
  {
    ChunkMakesProgress(f, ChunkOf(g), Sent(g), PieceSize(g), rd.Before(CmdRaw(f), Key(f)), Of(rd.plain, CmdRaw(f), Key(f)),
                       rd.After(CmdRaw(f), Key(f)), rd.Delivered(CmdRaw(f), Key(f)), base);
  }

  lemma RoundProgress(rd: Round, f: Frame, g: Frame)
    requires InFlight(rd, f, g)
    ensures Progress(rd, f, g)
  {
    var base := RoundTaken(rd, f, g);
    ChunkOfUnderway(f, g);
    ProgressFrom(rd, f, g, base);
  }

  /** The rounds `r` to `r + n - 1` send all of `f` from `g` on: nothing of it comes out before the last of them,
      and then a copy of it. */
  ghost predicate Transferred(run: seq<Round>, r: nat, n: nat, f: Frame)
    requires 0 < n && r + n <= |run| && FrameOk(f)
  {
    var cmd, key := CmdRaw(f), Key(f);
    var wholes, delivered := Of(run[r + n - 1].plain, cmd, key), run[r + n - 1].Delivered(cmd, key);
    && (forall i :: r <= i < r + n - 1 ==> run[i].Delivered(cmd, key) == Of(run[i].plain, cmd, key))
    && |delivered| == |wholes| + 1 && delivered[..|wholes|] == wholes && IsCopy(delivered[|wholes|], f)
    && Of(Rest(run[r + n - 1].sent), cmd, key) == []
  }

  lemma {:induction false} FlightArrives(run: seq<Round>, r: nat, f: Frame, g: Frame)
    requires IsRun(run) && r < |run| && InFlight(run[r], f, g)
    requires Sent(g) <= |PureData(f)| && r + RoundsLeft(|PureData(f)|, Sent(g), MaxPiece(f)) <= |run|
    ensures Transferred(run, r, RoundsLeft(|PureData(f)|, Sent(g), MaxPiece(f)), f)
    decreases |run| - r
  {
    LeftInFlight(f, g);
    RoundProgress(run[r], f, g);
    if IsLast(g) {
      LastRound(run, r, f, g);
    } else {
      NextInFlight(run[r], run[r + 1], f, g);
      FlightArrives(run, r + 1, f, Advanced(g));
      OneMoreRound(run, r, RoundsLeft(|PureData(f)|, Sent(g), MaxPiece(f)), f, g);
    }
  }

  /** The rounds left, by one chunk. */
  lemma LeftInFlight(f: Frame, g: Frame)
    requires Underway(f, g)
    ensures Sent(g) <= |PureData(f)|
    ensures IsLast(g) ==> RoundsLeft(|PureData(f)|, Sent(g), MaxPiece(f)) == 1
    ensures !IsLast(g) ==> Sent(Advanced(g)) <= |PureData(f)|
    ensures !IsLast(g) ==> RoundsLeft(|PureData(f)|, Sent(g), MaxPiece(f)) == 1 + RoundsLeft(|PureData(f)|, Sent(Advanced(g)), MaxPiece(f))
  {
    UnderwayFields(f, g, 0, []);
    PieceLeft(g);
    PieceFits(g);
    WordWritten(g, PDATA_OFFSET1, Sent(g) + PieceSize(g));
  }

  lemma LastRound(run: seq<Round>, r: nat, f: Frame, g: Frame)
    requires r < |run| && Waiting(f) && Waiting(g) && IsLast(g) && Progress(run[r], f, g)
    ensures Transferred(run, r, 1, f)
  {
  }

  lemma OneMoreRound(run: seq<Round>, r: nat, n: nat, f: Frame, g: Frame)
    requires 1 < n && r + n <= |run| && Waiting(f) && Waiting(g) && !IsLast(g)
    requires Progress(run[r], f, g) && Transferred(run, r + 1, n - 1, f)
    ensures Transferred(run, r, n, f)
  {
  }

  lemma NextInFlight(a: Round, b: Round, f: Frame, g: Frame)
    requires InFlight(a, f, g) && Progress(a, f, g) && !IsLast(g) && b.Valid() && Follows(a, b)
    ensures InFlight(b, f, Advanced(g))
  {
    AdvancedSays(g);
  }

  lemma SmallIsWhole(f: Frame)
    requires Waiting(f) && Sent(f) == 0 && |PureData(f)| <= MaxPiece(f)
    ensures IsLast(f) && IsWhole(ChunkOf(f)) && IsCopy(ChunkOf(f), f)
  {
    PieceLeft(f);
    PieceFits(f);
    ChunkSays(f);
    SameHeaderFields(f, ChunkOf(f));
    WholePrefix(PureData(f));
  }

  /** A command that fits into one piece, with a key or without, passes through whole in one round. */
  lemma SmallArrives(run: seq<Round>, r: nat, f: Frame)
    requires r < |run| && run[r].Valid() && Waiting(f) && Sent(f) == 0 && |PureData(f)| <= MaxPiece(f)
    requires Of(run[r].sent, CmdRaw(f), Key(f)) == [f]
    ensures Transferred(run, r, 1, f)
  {
    var cmd, key, rd := CmdRaw(f), Key(f), run[r];
    var wholes := Of(rd.plain, cmd, key);
    SmallIsWhole(f);
    MessageOf(rd, f, f);
    WholesOf(rd.plain, cmd, key);
    WholesPass(rd.Message(), rd.tr, |rd.Message()|, cmd, key);
  }

  /** The round trip: a keyed command put into the split buffer, with whatever else is sent and received, and with
      whatever partial command of its key the receiver held, takes exactly its size divided by the piece size,
      rounded up, in rounds; nothing of it comes out before the last of them, and then the command itself does,
      with key and pure data byte for byte, and it is gone from the split buffer. */
  lemma SplitRoundTrip(run: seq<Round>, r: nat, f: Frame, n: nat)
    requires IsRun(run) && r < |run| && Waiting(f) && Keyed(CmdRaw(f)) && Sent(f) == 0
    requires Of(run[r].sent, CmdRaw(f), Key(f)) == [f] && |run[r].Before(CmdRaw(f), Key(f))| <= 1
    requires n == (if |PureData(f)| == 0 then 1 else (|PureData(f)| + MaxPiece(f) - 1) / MaxPiece(f)) && r + n <= |run|
    ensures Transferred(run, r, n, f)
  {
    RoundsIsCeiling(|PureData(f)|, MaxPiece(f));
    RoundTripIn(run, r, f, n);
  }

  lemma RoundTripIn(run: seq<Round>, r: nat, f: Frame, n: nat)
    requires IsRun(run) && r < |run| && Waiting(f) && Keyed(CmdRaw(f)) && Sent(f) == 0
    requires Of(run[r].sent, CmdRaw(f), Key(f)) == [f] && |run[r].Before(CmdRaw(f), Key(f))| <= 1
    requires n == RoundsLeft(|PureData(f)|, 0, MaxPiece(f)) && r + n <= |run|
    ensures Transferred(run, r, n, f)
  {
    if |PureData(f)| <= MaxPiece(f) {
      SmallArrives(run, r, f);
    } else {
      FlightArrives(run, r, f, f);
    }
  }

  // ---------- partial commands stay single ----------

  /** For no keyed command does the receiver ever hold more than one partial command. */
  ghost predicate Singles(parts: seq<Frame>) {
    forall cmd: nat, key: seq<Byte> :: Keyed(cmd) ==> |Of(parts, cmd, key)| <= 1
  }

  lemma TakenKeepsSingles(was: seq<Frame>, c: Frame, now: seq<Frame>, out: seq<Frame>)
    requires Taken(was, c, now, out) && Singles(was)
    ensures Singles(now)
  {
    forall cmd: nat, key: seq<Byte> | Keyed(cmd) ensures |Of(now, cmd, key)| <= 1 {
      if IsOf(c, cmd, key) && !IsWhole(c) {
        var base := ChunkAtLast(was, c, now, out);
      } else if !IsWhole(c) {
        OtherPasses(was, c, now, out, cmd, key);
      }
    }
  }

  lemma TakenAt(message: seq<Frame>, tr: Trace, j: nat)
    requires TakenAll(message, tr) && j < |message|
    ensures Taken(tr.parts[j], message[j], tr.parts[j + 1], tr.outs[j])
  {
  }

  lemma {:induction false} SinglesAlways(message: seq<Frame>, tr: Trace, n: nat)
    requires TakenAll(message, tr) && n <= |message| && Singles(tr.parts[0])
    ensures Singles(tr.parts[n])
  {
    if n > 0 {
      var j := n - 1;
      SinglesAlways(message, tr, j);
      TakenAt(message, tr, j);
      TakenKeepsSingles(tr.parts[j], message[j], tr.parts[n], tr.outs[j]);
    }
  }

  // ---------- the receive loop ----------

  ghost predicate GoodMessage(fs: seq<Frame>) {
    forall f :: f in fs ==> FrameOk(f) && (IsWhole(f) || ChunkOk(f))
  }

  lemma GoodAreOk(fs: seq<Frame>)
    requires GoodMessage(fs)
    ensures AllOk(fs)
  {
  }

  lemma TakenToOn(message: seq<Frame>, tr: Trace, n: nat, now: seq<Frame>, out: seq<Frame>, tr': Trace)
    requires n < |message| && TakenTo(message, tr, n) && Taken(tr.parts[n], message[n], now, out)
    requires tr' == Trace(tr.parts + [now], tr.outs + [out])
    ensures TakenTo(message, tr', n + 1) && Out(tr', n + 1) == Out(tr, n) + out
  {
    OutOfPrefix(tr, tr', n);
    forall i | 0 <= i < n + 1 ensures Taken(tr'.parts[i], message[i], tr'.parts[i + 1], tr'.outs[i]) {
      assert i < n ==> Taken(tr.parts[i], message[i], tr.parts[i + 1], tr.outs[i]);
    }
  }

  lemma {:induction false} OutOfPrefix(a: Trace, b: Trace, n: nat)
    requires n <= |a.outs| && n <= |b.outs| && forall i :: 0 <= i < n ==> a.outs[i] == b.outs[i]
    ensures Out(a, n) == Out(b, n)
  {
    if n > 0 {
      OutOfPrefix(a, b, n - 1);
    }
  }

  /** One frame of the message: a whole one passes through, a chunk goes into the partial commands. */
  method TakeFrame(parts: FrameBuffer, c: Frame) returns (out: seq<Frame>)
    requires IsPartials(parts) && FrameOk(c) && (IsWhole(c) || ChunkOk(c))
    modifies parts, parts.buffer, parts.buffer.data
    ensures IsPartials(parts) && (parts.buffer.data == old(parts.buffer.data) || fresh(parts.buffer.data))
    ensures Taken(old(parts.frames), c, parts.frames, out)
  {
    if WordAt(c, MEM_SIZE) == WordAt(c, FULL_MEM_SIZE) {
      out := [c];
    } else {
      ghost var base;
      out, base := ReceiveChunk(parts, c);
    }
  }

  /** What the walk keeps: `n` frames, up to `off`, are taken. */
  ghost predicate ReceiveLoop(parts: FrameBuffer, reply: FrameBuffer, n: nat, off: nat, out: seq<Frame>, tr: Trace)
    reads parts, parts.buffer, parts.buffer.data, reply, reply.buffer, reply.buffer.data
  {
    && IsPartials(parts) && reply.Valid() && GoodMessage(reply.frames)
    && n <= |reply.frames| && off == reply.start + Off(reply.frames, n) && (off < reply.buffer.dataSize <==> n < |reply.frames|)
    && TakenTo(reply.frames, tr, n) && tr.parts[n] == parts.frames && out == Out(tr, n)
  }

  /** One turn of the walk. */
  method ReceiveTurn(parts: FrameBuffer, reply: FrameBuffer, off: nat, was: seq<Frame>, ghost n: nat, ghost tr: Trace)
    returns (next: nat, out: seq<Frame>, ghost tr': Trace)
    requires Apart(parts, reply) && ReceiveLoop(parts, reply, n, off, was, tr) && n < |reply.frames|
    modifies parts, parts.buffer, parts.buffer.data
    ensures parts.buffer.data == old(parts.buffer.data) || fresh(parts.buffer.data)
    ensures ReceiveLoop(parts, reply, n + 1, next, out, tr') && tr'.parts[0] == tr.parts[0]
  {
    ghost var message := reply.frames;
    assert message[n] in message;
    GoodAreOk(message);
    var size := reply.SizeOf(off, n);
    var c := reply.Get(off, size, n);
    var o := TakeFrame(parts, c);
    tr' := Trace(tr.parts + [parts.frames], tr.outs + [o]);
    TakenToOn(message, tr, n, parts.frames, o, tr');
    FlattenAt(message, n);
    next, out := off + size, was + o;
    AtEnd(reply.buffer.Bytes(), reply.start, message, n + 1);
  }

  /** The walk over the frames of a message. */
  method ReceiveMessage(parts: FrameBuffer, reply: FrameBuffer) returns (out: seq<Frame>, ghost tr: Trace)
    requires IsPartials(parts) && reply.Valid() && Apart(parts, reply) && GoodMessage(reply.frames)
    modifies parts, parts.buffer, parts.buffer.data
    ensures IsPartials(parts) && TakenAll(reply.frames, tr)
    ensures tr.parts[0] == old(parts.frames) && tr.parts[|reply.frames|] == parts.frames && out == Out(tr, |reply.frames|)
  {
    ghost var n: nat := 0;
    var off: nat := reply.start;
    out, tr := [], Trace([parts.frames], []);
    GoodAreOk(reply.frames);
    AtEnd(reply.buffer.Bytes(), reply.start, reply.frames, 0);
    while off < reply.buffer.dataSize
      invariant parts.buffer.data == old(parts.buffer.data) || fresh(parts.buffer.data)
      invariant ReceiveLoop(parts, reply, n, off, out, tr) && tr.parts[0] == old(parts.frames)
      decreases |reply.frames| - n
    {
      off, out, tr := ReceiveTurn(parts, reply, off, out, n, tr);
      n := n + 1;
    }
    WholePrefix(reply.frames);
  }
}
