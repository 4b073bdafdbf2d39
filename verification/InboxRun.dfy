/** The inbox over whole runs of merges and removals: the newest reply of every name wins, string streams lose nothing,
    and what happens to commands without a key and to replies that name a key twice (extApi.c). */
module InboxRun {
  import opened Sequences
  import opened Bytes
  import opened Frames
  import opened FrameBuffers
  import opened SplitFrames
  import opened SplitTransfer
  import opened SplitReceive
  import opened SplitRun
  import opened InboxMerge

  // ---------- one merge and one name ----------

  lemma {:induction false} OfAreOk(fs: seq<Frame>, cmd: nat, key: seq<Byte>)
    ensures AllOk(Of(fs, cmd, key)) && forall f :: f in Of(fs, cmd, key) ==> IsOf(f, cmd, key) && f in fs
  {
    if fs != [] {
      OfAreOk(fs[..|fs| - 1], cmd, key);
      assert forall f :: f in fs[..|fs| - 1] ==> f in fs;
    }
  }

  lemma {:induction false} NamedAre(es: seq<Entry>, cmd: nat, key: seq<Byte>)
    ensures forall e :: e in Named(es, cmd, key) ==> IsOf(e.f, cmd, key) && e in es
  {
    if es != [] {
      NamedAre(es[..|es| - 1], cmd, key);
      assert forall e :: e in es[..|es| - 1] ==> e in es;
    }
  }

  predicate OkEntries(es: seq<Entry>) {
    forall e :: e in es ==> FrameOk(e.f)
  }

  /** But for string streams, commands go into the inbox as they are. */
  lemma {:induction false} NewsPlain(rs: seq<Entry>, own: seq<Frame>)
    requires forall e :: e in rs ==> FrameOk(e.f) && CmdRaw(e.f) != READ_STRING_STREAM
    ensures News(rs, own) == Collect(rs, PutIn)
  {
    if rs != [] {
      var n: nat := |rs| - 1;
      assert rs[n] in rs;
      NewsPlain(rs[..n], own);
    }
  }

  lemma {:induction false} NothingKept(rs: seq<Entry>)
    requires OkEntries(rs)
    ensures Collect(rs, PutIn) == [] <==> forall e :: e in rs ==> Discontinues(e)
  {
    if rs != [] {
      var front, last := rs[..|rs| - 1], rs[|rs| - 1];
      assert last in rs && forall e :: e in rs ==> e in front || e == last;
      NothingKept(front);
    }
  }

  /** What a name should have after the entries `rs`, when it had `own`: the last of them counts. */
  function Newest(rs: seq<Entry>, own: seq<Frame>): seq<Frame> {
    if rs == [] then own else if Discontinues(rs[|rs| - 1]) then [] else [rs[|rs| - 1].f]
  }

  lemma PlainNow(was: seq<Frame>, es: seq<Entry>, now: seq<Frame>, c: nat, k: seq<Byte>)
    requires MergedFrom(was, es, now) && Keyed(c) && c != READ_STRING_STREAM
    ensures Of(now, c, k) == Collect(Named(es, c, k), PutIn) + Dropped(Of(was, c, k), |Named(es, c, k)|)
  {
    NamedAre(es, c, k);
    NewsPlain(Named(es, c, k), Of(was, c, k));
    assert NameNow(was, es, now, c, k);
  }

  /** A merge gives a name its newest reply and nothing else if and only if the message does not bring it, or all that the
      message brings of it but the last discontinues it and the inbox had no more of it than the message. */
  lemma MergeGivesNewest(was: seq<Frame>, es: seq<Entry>, now: seq<Frame>, c: nat, k: seq<Byte>)
    requires MergedFrom(was, es, now) && Keyed(c) && c != READ_STRING_STREAM
    ensures var rs, own := Named(es, c, k), Of(was, c, k);
      Of(now, c, k) == Newest(rs, own) <==>
      rs == [] || ((forall e :: e in rs[..|rs| - 1] ==> Discontinues(e)) && |own| <= |rs|)
  {
    PlainNow(was, es, now, c, k);
    NamedAre(es, c, k);
    NewestIff(Named(es, c, k), Of(was, c, k));
  }

  lemma OnlyMiddle<T>(a: seq<T>, b: seq<T>, c: seq<T>)
    ensures a + b + c == b <==> a == [] && c == []
  {
    if a + b + c == b {
      assert |a + b + c| == |a| + |b| + |c|;
    }
  }

  lemma NewestIff(rs: seq<Entry>, own: seq<Frame>)
    requires OkEntries(rs)
    ensures Collect(rs, PutIn) + Dropped(own, |rs|) == Newest(rs, own) <==>
      rs == [] || ((forall e :: e in rs[..|rs| - 1] ==> Discontinues(e)) && |own| <= |rs|)
  {
    if rs == [] {
      assert Collect(rs, PutIn) + own == own;
    } else {
      var front, last := rs[..|rs| - 1], rs[|rs| - 1];
      assert last in rs && forall e :: e in front ==> e in rs;
      NothingKept(front);
      OnlyMiddle(Collect(front, PutIn), PutIn(last), Dropped(own, |rs|));
    }
  }

  /** What a lookup finds: the first of the name's frames. */
  function First<T>(s: seq<T>): seq<T> {
    if s == [] then [] else [s[0]]
  }

  /** A lookup after a merge that brings the name finds its newest reply if and only if the first of it in the message that
      does not discontinue it is the last one; if the last one discontinues it, if and only if all do and the inbox had no
      more of it than the message. */
  lemma LookupGivesNewest(was: seq<Frame>, es: seq<Entry>, now: seq<Frame>, c: nat, k: seq<Byte>)
    requires MergedFrom(was, es, now) && Keyed(c) && c != READ_STRING_STREAM && Named(es, c, k) != []
    ensures var rs, own := Named(es, c, k), Of(was, c, k);
      First(Of(now, c, k)) == Newest(rs, own) <==>
      if Discontinues(rs[|rs| - 1]) then (forall e :: e in rs ==> Discontinues(e)) && |own| <= |rs|
      else First(Collect(rs, PutIn)) == [rs[|rs| - 1].f]
  {
    var rs, own := Named(es, c, k), Of(was, c, k);
    PlainNow(was, es, now, c, k);
    NamedAre(es, c, k);
    NothingKept(rs);
    assert rs[|rs| - 1] in rs;
  }

  /** Two replies of one name in one message, wherever they stand and whatever the inbox had: both go in, and a lookup
      finds the older one. */
  lemma NamedTwiceOlderWins(was: seq<Frame>, es: seq<Entry>, now: seq<Frame>, c: nat, k: seq<Byte>, a: Entry, b: Entry)
    requires MergedFrom(was, es, now) && Keyed(c) && c != READ_STRING_STREAM && Named(es, c, k) == [a, b]
    requires !Discontinues(a) && !Discontinues(b)
    ensures Of(now, c, k) == [a.f, b.f] + Dropped(Of(was, c, k), 2) && First(Of(now, c, k)) == [a.f]
    ensures Newest(Named(es, c, k), Of(was, c, k)) == [b.f]
  {
    PlainNow(was, es, now, c, k);
    NamedAre(es, c, k);
    assert a in [a, b] && b in [a, b];
    KeptTwo(a, b);
  }

  lemma KeptTwo(a: Entry, b: Entry)
    requires FrameOk(a.f) && FrameOk(b.f) && !Discontinues(a) && !Discontinues(b)
    ensures Collect([a, b], PutIn) == [a.f, b.f]
  {
    CollectSnoc([], a, PutIn);
    CollectSnoc([a], b, PutIn);
    assert [] + [a] == [a] && [a] + [b] == [a, b];
  }

  // ---------- runs ----------

  /** A message is received and brings `entered` to the inbox, or a reply is read and removed. */
  datatype Event = Merge(entered: seq<Entry>) | Remove(cmd: nat, key: seq<Byte>) {

    ghost function Brings(c: nat, k: seq<Byte>): seq<Entry> {
      if Merge? then Named(entered, c, k) else []
    }

    predicate Removes(c: nat, k: seq<Byte>) {
      Remove? && cmd == c && key == k
    }

    ghost predicate Touches(c: nat, k: seq<Byte>) {
      Brings(c, k) != [] || Removes(c, k)
    }
  }

  /** The first reply of the name is gone. A command without a key is removed by its number alone. */
  ghost predicate Removed(was: seq<Frame>, cmd: nat, key: seq<Byte>, now: seq<Frame>) {
    && (Keyed(cmd) ==> Of(now, cmd, key) == Dropped(Of(was, cmd, key), 1))
    && forall c: nat, k: seq<Byte> :: (c, k) != (cmd, key) && (Keyed(c) || Keyed(cmd)) ==> Of(now, c, k) == Of(was, c, k)
  }

  /** A reply as `MergeReply` asks for it, with what the receiver makes of its chunks and what lies in front of the new inbox
      in memory, that brings the entries. */
  ghost predicate Brought(before: seq<Byte>, was: seq<Frame>, message: seq<Frame>, tr: Trace, entered: seq<Entry>) {
    && Lookable(was) && GoodReply(message, was) && |message| <= |tr.outs|
    && entered == Entries(message, tr.outs, |message|)
  }

  ghost predicate Happens(was: seq<Frame>, e: Event, now: seq<Frame>) {
    match e
    case Merge(entered) => exists message, tr, before :: Brought(before, was, message, tr, entered) && Merges(before, was, message, tr, now)
    case Remove(cmd, key) => Removed(was, cmd, key, now)
  }

  /** Inbox `i + 1` is what event `i` makes of inbox `i`. The run may start with any inbox. */
  datatype Run = Run(inboxes: seq<seq<Frame>>, events: seq<Event>) {
    ghost predicate Valid() {
      |inboxes| == |events| + 1 && forall i: nat :: i < |events| ==> HappensAt(i)
    }

    ghost predicate HappensAt(i: nat)
      requires i < |events| == |inboxes| - 1
    {
      Happens(inboxes[i], events[i], inboxes[i + 1])
    }

    ghost predicate Touched(j: nat, c: nat, k: seq<Byte>) {
      j < |events| && events[j].Touches(c, k)
    }

    /** Event `i` is the last of the first `n` that brings or removes a reply of the name; -1 if there is none. */
    ghost predicate IsLast(n: nat, i: int, c: nat, k: seq<Byte>) {
      -1 <= i < n <= |events| && (i >= 0 ==> Touched(i, c, k)) && forall j: nat :: i < j < n ==> !Touched(j, c, k)
    }

    /** No message brings two of the name. */
    ghost predicate Once(n: nat, c: nat, k: seq<Byte>)
      requires n <= |events|
    {
      forall i: nat :: i < n ==> OnceAt(i, c, k)
    }

    ghost predicate OnceAt(i: nat, c: nat, k: seq<Byte>)
      requires i < |events|
    {
      |events[i].Brings(c, k)| <= 1
    }
  }

  lemma EventAt(run: Run, j: nat)
    requires run.Valid() && j < |run.events|
    ensures Happens(run.inboxes[j], run.events[j], run.inboxes[j + 1])
  {
    assert run.HappensAt(j);
  }

  lemma EventMerges(was: seq<Frame>, e: Event, now: seq<Frame>)
    requires Happens(was, e, now) && e.Merge?
    ensures MergedFrom(was, e.entered, now) && ProperEntries(e.entered) && forall d :: d in e.entered ==> IsWhole(d.f)
  {
    var message, tr, before :| Brought(before, was, message, tr, e.entered) && Merges(before, was, message, tr, now);
    EntriesAreWhole(message, tr, |message|);
  }

  lemma NameStep(was: seq<Frame>, e: Event, now: seq<Frame>, c: nat, k: seq<Byte>)
    requires Happens(was, e, now) && Keyed(c)
    ensures e.Removes(c, k) ==> Of(now, c, k) == Dropped(Of(was, c, k), 1)
    ensures !e.Removes(c, k) ==>
      Of(now, c, k) == News(e.Brings(c, k), Of(was, c, k)) + Dropped(Of(was, c, k), |e.Brings(c, k)|)
  {
    if e.Merge? {
      EventMerges(was, e, now);
      assert NameNow(was, e.entered, now, c, k);
    } else {
      assert News([], Of(was, c, k)) + Of(was, c, k) == Of(was, c, k);
    }
  }

  lemma StepGivesNewest(was: seq<Frame>, e: Event, now: seq<Frame>, c: nat, k: seq<Byte>)
    requires Happens(was, e, now) && Keyed(c) && c != READ_STRING_STREAM
    requires |e.Brings(c, k)| <= 1 && |Of(was, c, k)| <= 1
    ensures Of(now, c, k) == if e.Removes(c, k) then [] else Newest(e.Brings(c, k), Of(was, c, k))
  {
    NameStep(was, e, now, c, k);
    if e.Merge? {
      EventMerges(was, e, now);
      MergeGivesNewest(was, e.entered, now, c, k);
    }
  }

  /** After an event that touches a name it does not matter what there was; another event leaves the name. */
  lemma StepTouches(was: seq<Frame>, e: Event, now: seq<Frame>, c: nat, k: seq<Byte>)
    requires Happens(was, e, now) && Keyed(c) && c != READ_STRING_STREAM
    requires |e.Brings(c, k)| <= 1 && |Of(was, c, k)| <= 1
    ensures Of(now, c, k) == (if e.Touches(c, k) then Newest(e.Brings(c, k), []) else Of(was, c, k)) && |Of(now, c, k)| <= 1
  {
    StepGivesNewest(was, e, now, c, k);
  }

  lemma NameAfter(run: Run, n: nat, c: nat, k: seq<Byte>)
    requires run.Valid() && 0 < n <= |run.events| && Keyed(c) && c != READ_STRING_STREAM
    requires run.OnceAt(n - 1, c, k) && |Of(run.inboxes[n - 1], c, k)| <= 1
    ensures |Of(run.inboxes[n], c, k)| <= 1
    ensures Of(run.inboxes[n], c, k) == if run.Touched(n - 1, c, k) then Newest(run.events[n - 1].Brings(c, k), []) else Of(run.inboxes[n - 1], c, k)
  {
    EventAt(run, n - 1);
    StepTouches(run.inboxes[n - 1], run.events[n - 1], run.inboxes[n], c, k);
  }

  lemma {:induction false} AtMostOne(run: Run, n: nat, c: nat, k: seq<Byte>)
    requires run.Valid() && n <= |run.events| && Keyed(c) && c != READ_STRING_STREAM
    requires |Of(run.inboxes[0], c, k)| <= 1 && run.Once(n, c, k)
    ensures |Of(run.inboxes[n], c, k)| <= 1
  {
    if n > 0 {
      AtMostOne(run, n - 1, c, k);
      assert run.OnceAt(n - 1, c, k);
      NameAfter(run, n, c, k);
    }
  }

  /** After any run of messages and removals, from an inbox that has at most one reply of a name on, and if no message
      brings two of it, a lookup finds the newest reply of the name; nothing if it has been removed or discontinued since;
      and what was there at the start if nothing has happened to the name. */
  lemma {:induction false} LookupIsNewest(run: Run, n: nat, c: nat, k: seq<Byte>, last: int)
    requires run.Valid() && run.IsLast(n, last, c, k) && Keyed(c) && c != READ_STRING_STREAM
    requires |Of(run.inboxes[0], c, k)| <= 1 && run.Once(n, c, k)
    ensures Of(run.inboxes[n], c, k) == if last < 0 then Of(run.inboxes[0], c, k) else Newest(run.events[last].Brings(c, k), [])
  {
    if n > 0 {
      TouchSettles(run, n, c, k);
      if last < n - 1 {
        assert !run.Touched(n - 1, c, k);
        LookupIsNewest(run, n - 1, c, k, last);
      }
    }
  }

  lemma TouchSettles(run: Run, n: nat, c: nat, k: seq<Byte>)
    requires run.Valid() && 0 < n <= |run.events| && Keyed(c) && c != READ_STRING_STREAM
    requires |Of(run.inboxes[0], c, k)| <= 1 && run.Once(n, c, k)
    ensures Of(run.inboxes[n], c, k) == if run.Touched(n - 1, c, k) then Newest(run.events[n - 1].Brings(c, k), []) else Of(run.inboxes[n - 1], c, k)
  {
    AtMostOne(run, n - 1, c, k);
    assert run.OnceAt(n - 1, c, k);
    NameAfter(run, n, c, k);
  }

  // ---------- the inbox as a map ----------

  type Name = (nat, seq<Byte>)

  ghost function ValueOf(m: map<Name, Frame>, c: nat, k: seq<Byte>): seq<Frame> {
    if (c, k) in m then [m[(c, k)]] else []
  }

  /** The inbox holds exactly one frame for every name of the map, and none for other keyed names. */
  ghost predicate Denotes(frames: seq<Frame>, m: map<Name, Frame>) {
    forall c: nat, k: seq<Byte> :: Keyed(c) ==> Of(frames, c, k) == ValueOf(m, c, k)
  }

  /** What one entry means: a keyed one takes the place of what its name had, or discontinues it. */
  ghost function Apply(m: map<Name, Frame>, e: Entry): map<Name, Frame> {
    if !FrameOk(e.f) || !Keyed(CmdRaw(e.f)) then m else
      var name := (CmdRaw(e.f), Key(e.f));
      if Discontinues(e) then m - {name}
      else m[name := Put(e, ValueOf(m, name.0, name.1))]
  }

  ghost function ApplyAll(m: map<Name, Frame>, es: seq<Entry>): map<Name, Frame> {
    if es == [] then m else Apply(ApplyAll(m, es[..|es| - 1]), es[|es| - 1])
  }

  /** No keyed name occurs twice among the entries. */
  ghost predicate NamesOnce(es: seq<Entry>) {
    forall c: nat, k: seq<Byte> :: Keyed(c) ==> |Named(es, c, k)| <= 1
  }

  lemma MapTakes(m: map<Name, Frame>, e: Entry, c: nat, k: seq<Byte>)
    requires Keyed(c)
    ensures ValueOf(Apply(m, e), c, k) == if IsOf(e.f, c, k) then Added(e, ValueOf(m, c, k)) else ValueOf(m, c, k)
  {
  }

  lemma {:induction false} MapOfName(m: map<Name, Frame>, es: seq<Entry>, c: nat, k: seq<Byte>)
    requires Keyed(c) && |Named(es, c, k)| <= 1
    ensures var v, rs := ValueOf(m, c, k), Named(es, c, k);
      ValueOf(ApplyAll(m, es), c, k) == if rs == [] then v else Added(rs[0], v)
  {
    if es != [] {
      var front, e := es[..|es| - 1], es[|es| - 1];
      MapOfName(m, front, c, k);
      MapTakes(ApplyAll(m, front), e, c, k);
    }
  }

  lemma NewsOfSingle(c: Entry, own: seq<Frame>)
    ensures News([c], own) == Added(c, own)
  {
    NewsSnoc([], c, own);
    assert [] + [c] == [c] && Dropped(own, 0) == own;
    assert News([], own) + Added(c, own) == Added(c, own);
  }

  lemma NewsOfOne(rs: seq<Entry>, own: seq<Frame>)
    requires |rs| <= 1 && |own| <= 1
    ensures News(rs, own) + Dropped(own, |rs|) == if rs == [] then own else Added(rs[0], own)
  {
    if rs == [] {
      assert [] + own == own;
    } else {
      assert rs == [rs[0]];
      NewsOfSingle(rs[0], own);
      AddsNothing(Added(rs[0], own), Dropped(own, 1));
    }
  }

  /** A message that brings no key twice makes of a map the map with what it brings taken in. */
  lemma MergeIsMap(was: seq<Frame>, es: seq<Entry>, now: seq<Frame>, m: map<Name, Frame>)
    requires MergedFrom(was, es, now) && Denotes(was, m) && NamesOnce(es)
    ensures Denotes(now, ApplyAll(m, es))
  {
    forall c: nat, k: seq<Byte> | Keyed(c) ensures Of(now, c, k) == ValueOf(ApplyAll(m, es), c, k) {
      assert Of(was, c, k) == ValueOf(m, c, k) && NameNow(was, es, now, c, k);
      NewsOfOne(Named(es, c, k), Of(was, c, k));
      MapOfName(m, es, c, k);
    }
  }

  ghost predicate OnceAll(run: Run, n: nat)
    requires n <= |run.events|
  {
    forall i :: 0 <= i < n && run.events[i].Merge? ==> NamesOnce(run.events[i].entered)
  }

  /** What the first `n` events make of the map `m`. */
  ghost function MapAfter(run: Run, m: map<Name, Frame>, n: nat): map<Name, Frame>
    requires n <= |run.events|
  {
    if n == 0 then m else
      match run.events[n - 1]
      case Merge(entered) => ApplyAll(MapAfter(run, m, n - 1), entered)
      case Remove(cmd, key) => MapAfter(run, m, n - 1) - {(cmd, key)}
  }

  /** Over any run in which no message brings a key twice the inbox stays a map: the one that all that arrived makes, taken
      in one after the other, without what was removed. */
  lemma {:induction false} InboxIsMap(run: Run, m: map<Name, Frame>, n: nat)
    requires run.Valid() && n <= |run.events| && Denotes(run.inboxes[0], m) && OnceAll(run, n)
    ensures Denotes(run.inboxes[n], MapAfter(run, m, n))
  {
    if n > 0 {
      var j: nat := n - 1;
      InboxIsMap(run, m, j);
      EventAt(run, j);
      var was := MapAfter(run, m, j);
      match run.events[j]
      case Merge(entered) =>
        EventMerges(run.inboxes[j], run.events[j], run.inboxes[n]);
        MergeIsMap(run.inboxes[j], entered, run.inboxes[n], was);
      case Remove(cmd, key) =>
        forall c: nat, k: seq<Byte> | Keyed(c) ensures Of(run.inboxes[n], c, k) == ValueOf(was - {(cmd, key)}, c, k) {
          assert Of(run.inboxes[j], c, k) == ValueOf(was, c, k);
        }
    }
  }

  // ---------- string streams ----------

  function PureOf(f: Frame): seq<Byte> {
    if FrameOk(f) then PureData(f) else []
  }

  /** The payloads of the frames, one after the other. */
  ghost function Payloads(fs: seq<Frame>): seq<Byte> {
    Collect(fs, PureOf)
  }

  lemma PayloadsSnoc(fs: seq<Frame>, f: Frame)
    requires FrameOk(f)
    ensures Payloads(fs + [f]) == Payloads(fs) + PureData(f)
  {
    CollectSnoc(fs, f, PureOf);
  }

  lemma PayloadsOfOne(f: Frame)
    ensures Payloads([f]) == PureOf(f)
  {
    CollectSnoc([], f, PureOf);
    assert [] + [f] == [f] && [] + PureOf(f) == PureOf(f);
  }

  /** The frame of a stream: the concatenation of all its payloads, with both size fields right. */
  ghost predicate HoldsStream(v: seq<Frame>, own: seq<Frame>, key: seq<Byte>)
  {
    if own == [] then v == []
    else |v| == 1 && Proper(v[0]) && IsOf(v[0], READ_STRING_STREAM, key) && PureData(v[0]) == Payloads(own) && FullSize(v[0]) == |v[0]|
  }

  lemma StreamTakes(v: seq<Frame>, own: seq<Frame>, key: seq<Byte>, f: Frame)
    requires HoldsStream(v, own, key) && Proper(f) && IsOf(f, READ_STRING_STREAM, key) && IsWhole(f)
    requires 2 * (SUBHEADER_SIZE + |key|) + |Payloads(own)| + |PureData(f)| < SIZE_LIMIT
    ensures HoldsStream([Incoming(f, v)], own + [f], key)
  {
    PayloadsSnoc(own, f);
    IncomingSays(f, v);
    if own != [] {
      JoinedSays(f, v[0]);
    } else {
      assert Payloads([]) + PureData(f) == PureData(f);
    }
  }

  /** What there is of a stream after each event: its frames since it was last removed, discontinued or completed by a chunk,
      behind what the inbox had of it at the start if it was not. */
  ghost predicate IsSince(run: Run, since: seq<seq<Frame>>, key: seq<Byte>)
    requires run.Valid()
  {
    && |since| == |run.events| + 1 && since[0] == Of(run.inboxes[0], READ_STRING_STREAM, key)
    && forall i: nat :: i < |run.events| ==> SinceAt(run, since, i, key)
  }

  ghost predicate SinceAt(run: Run, since: seq<seq<Frame>>, i: nat, key: seq<Byte>)
    requires i < |run.events| && |since| == |run.events| + 1
  {
    since[i + 1] == GrownBy(since[i], run.events[i], key)
  }

  /** The last entry counts: a frame that came whole is joined to the stream, a completed command begins it anew. */
  function Grown(own: seq<Frame>, rs: seq<Entry>, gone: bool): seq<Frame> {
    if gone then [] else if rs == [] then own else
      var e := rs[|rs| - 1];
      if Discontinues(e) then [] else if e.Completed? then [e.f] else own + [e.f]
  }

  ghost function GrownBy(own: seq<Frame>, e: Event, key: seq<Byte>): seq<Frame> {
    Grown(own, e.Brings(READ_STRING_STREAM, key), e.Removes(READ_STRING_STREAM, key))
  }

  /** The payloads fit a frame. */
  ghost predicate Fit(own: seq<Frame>, key: seq<Byte>) {
    2 * (SUBHEADER_SIZE + |key|) + |Payloads(own)| < SIZE_LIMIT
  }

  lemma OutIsWhole(was: seq<Frame>, c: Frame, now: seq<Frame>, out: seq<Frame>)
    requires Taken(was, c, now, out)
    ensures |out| <= 1 && AllWhole(out)
  {
    if !IsWhole(c) {
      var base :| Received(was, c, now, out, base);
      MergedSays(base, c);
      SameHeaderFields(c, Merged(base, c));
    }
  }

  lemma EntryIsWhole(message: seq<Frame>, tr: Trace, n: nat)
    requires TakenAll(message, tr) && n < |message|
    ensures forall e :: e in EntryOf(message[n], tr.outs[n]) ==> IsWhole(e.f)
  {
    assert Taken(tr.parts[n], message[n], tr.parts[n + 1], tr.outs[n]);
    OutIsWhole(tr.parts[n], message[n], tr.parts[n + 1], tr.outs[n]);
  }

  /** Whatever reaches the inbox is whole. */
  lemma {:induction false} EntriesAreWhole(message: seq<Frame>, tr: Trace, n: nat)
    requires TakenAll(message, tr) && n <= |message|
    ensures forall e :: e in Entries(message, tr.outs, n) ==> IsWhole(e.f)
  {
    if n > 0 {
      EntriesAreWhole(message, tr, n - 1);
      EntryIsWhole(message, tr, n - 1);
    }
  }

  lemma StreamFrame(v: seq<Frame>, own: seq<Frame>, key: seq<Byte>, e: Entry)
    requires HoldsStream(v, own, key) && Proper(e.f) && IsOf(e.f, READ_STRING_STREAM, key) && IsWhole(e.f)
    requires Fit(Grown(own, [e], false), key)
    ensures HoldsStream(Added(e, v), Grown(own, [e], false), key)
  {
    if e.Completed? {
      StreamStarts([e.f], key);
    } else if !Discontinues(e) {
      PayloadsSnoc(own, e.f);
      StreamTakes(v, own, key, e.f);
    }
  }

  lemma StreamStep(v: seq<Frame>, own: seq<Frame>, key: seq<Byte>, rs: seq<Entry>, gone: bool, next: seq<Frame>)
    requires HoldsStream(v, own, key) && |rs| <= 1 && (gone ==> rs == [])
    requires forall e :: e in rs ==> Proper(e.f) && IsOf(e.f, READ_STRING_STREAM, key) && IsWhole(e.f)
    requires next == if gone then Dropped(v, 1) else News(rs, v) + Dropped(v, |rs|)
    requires Fit(Grown(own, rs, gone), key)
    ensures HoldsStream(next, Grown(own, rs, gone), key)
  {
    NewsOfOne(rs, v);
    if rs != [] {
      assert rs[0] in rs && rs == [rs[0]];
      StreamFrame(v, own, key, rs[0]);
      assert next == Added(rs[0], v);
    }
  }

  /** One good frame is a stream to start with. */
  lemma StreamStarts(v: seq<Frame>, key: seq<Byte>)
    requires |v| <= 1 && forall f :: f in v ==> Proper(f) && IsOf(f, READ_STRING_STREAM, key) && IsWhole(f)
    ensures HoldsStream(v, v, key)
  {
    if v != [] {
      assert v[0] in v && v == [] + [v[0]];
      PayloadsSnoc([], v[0]);
    }
  }

  lemma BringsWhole(was: seq<Frame>, e: Event, now: seq<Frame>, c: nat, k: seq<Byte>)
    requires Happens(was, e, now)
    ensures forall r :: r in e.Brings(c, k) ==> Proper(r.f) && IsOf(r.f, c, k) && IsWhole(r.f)
    ensures e.Remove? ==> e.Brings(c, k) == []
  {
    if e.Merge? {
      EventMerges(was, e, now);
      NamedAre(e.entered, c, k);
    }
  }

  /** The inbox has at most one frame of the stream, and that is well-formed. */
  ghost predicate StartsStream(inbox: seq<Frame>, key: seq<Byte>) {
    var v := Of(inbox, READ_STRING_STREAM, key);
    |v| <= 1 && forall f :: f in v ==> Proper(f) && IsWhole(f)
  }

  lemma StreamBegins(inbox: seq<Frame>, key: seq<Byte>)
    requires StartsStream(inbox, key)
    ensures HoldsStream(Of(inbox, READ_STRING_STREAM, key), Of(inbox, READ_STRING_STREAM, key), key)
  {
    OfAreOk(inbox, READ_STRING_STREAM, key);
    StreamStarts(Of(inbox, READ_STRING_STREAM, key), key);
  }

  lemma StreamEvent(was: seq<Frame>, e: Event, now: seq<Frame>, own: seq<Frame>, next: seq<Frame>, key: seq<Byte>)
    requires Happens(was, e, now) && |e.Brings(READ_STRING_STREAM, key)| <= 1 && next == GrownBy(own, e, key) && Fit(next, key)
    requires HoldsStream(Of(was, READ_STRING_STREAM, key), own, key)
    ensures HoldsStream(Of(now, READ_STRING_STREAM, key), next, key)
  {
    NameStep(was, e, now, READ_STRING_STREAM, key);
    BringsWhole(was, e, now, READ_STRING_STREAM, key);
    StreamStep(Of(was, READ_STRING_STREAM, key), own, key, e.Brings(READ_STRING_STREAM, key), e.Removes(READ_STRING_STREAM, key),
               Of(now, READ_STRING_STREAM, key));
  }

  /** Streams lose nothing. Over any run of messages, removals and whatever other frames, from an inbox with at most one
      frame of the stream on, and as long as the payloads fit a frame, the inbox holds all payloads of the stream that were
      received since it was last removed, discontinued or completed by a chunk, in order, in one frame with both sizes
      right. */
  lemma {:induction false} StreamInInbox(run: Run, since: seq<seq<Frame>>, n: nat, key: seq<Byte>)
    requires run.Valid() && n <= |run.events| && run.Once(n, READ_STRING_STREAM, key)
    requires IsSince(run, since, key) && StartsStream(run.inboxes[0], key) && forall i :: 0 <= i <= n ==> Fit(since[i], key)
    ensures HoldsStream(Of(run.inboxes[n], READ_STRING_STREAM, key), since[n], key)
  {
    if n == 0 {
      StreamBegins(run.inboxes[0], key);
    } else {
      StreamInInbox(run, since, n - 1, key);
      assert run.OnceAt(n - 1, READ_STRING_STREAM, key) && SinceAt(run, since, n - 1, key);
      EventAt(run, n - 1);
      StreamEvent(run.inboxes[n - 1], run.events[n - 1], run.inboxes[n], since[n - 1], since[n], key);
    }
  }

  // ---------- several frames of a stream in one message ----------

  function FrameOf(e: Entry): seq<Frame> {
    [e.f]
  }

  ghost function FramesOf(es: seq<Entry>): seq<Frame> {
    Collect(es, FrameOf)
  }

  lemma FramesSnoc(es: seq<Entry>, e: Entry)
    ensures FramesOf(es + [e]) == FramesOf(es) + [e.f]
  {
    CollectSnoc(es, e, FrameOf);
  }

  lemma {:induction false} FramesLength(es: seq<Entry>)
    ensures |FramesOf(es)| == |es|
  {
    if es != [] {
      FramesLength(es[..|es| - 1]);
    }
  }

  /** A frame that can be joined to what there is of its stream. */
  ghost predicate JoinsStream(e: Entry, own: seq<Frame>) {
    && e.Whole? && Proper(e.f) && CmdRaw(e.f) == READ_STRING_STREAM && !Discontinues(e)
    && forall o :: o in own ==> Joinable(e.f, o)
  }

  ghost predicate StreamNews(rs: seq<Entry>, own: seq<Frame>) {
    AllOk(own) && |own| <= 1 && forall e :: e in rs ==> JoinsStream(e, own)
  }

  lemma FirstOfStream(own: seq<Frame>, e: Entry)
    requires AllOk(own) && |own| <= 1 && JoinsStream(e, own)
    ensures PureOf(Put(e, own)) == Payloads(own) + PureOf(e.f)
  {
    IncomingSays(e.f, own);
    if own != [] {
      assert own[0] in own && own == [own[0]];
      PayloadsOfOne(own[0]);
    } else {
      assert [] + PureOf(e.f) == PureOf(e.f);
    }
  }

  lemma AddedAlone(front: seq<Entry>, e: Entry, own: seq<Frame>)
    requires |own| <= |front| && JoinsStream(e, own)
    ensures News(front + [e], own) == News(front, own) + [e.f]
  {
    NewsSnoc(front, e, own);
  }

  lemma StreamNewsParts(rs: seq<Entry>, own: seq<Frame>)
    requires StreamNews(rs, own) && rs != []
    ensures StreamNews(rs[..|rs| - 1], own) && JoinsStream(rs[0], own) && JoinsStream(rs[|rs| - 1], own)
  {
    assert rs[0] in rs && rs[|rs| - 1] in rs;
    forall d | d in rs[..|rs| - 1] ensures JoinsStream(d, own) {
      assert d in rs;
    }
  }

  lemma StreamGoesOn(front: seq<Entry>, e: Entry, first: seq<Frame>)
    requires front != []
    ensures first + FramesOf(front[1..]) + [e.f] == first + FramesOf((front + [e])[1..])
  {
    assert (front + [e])[1..] == front[1..] + [e];
    FramesSnoc(front[1..], e);
  }

  /** What the first frame adds, and behind it the others as they are. */
  lemma {:induction false} NewsOfStream(rs: seq<Entry>, own: seq<Frame>, first: seq<Frame>)
    requires StreamNews(rs, own) && rs != [] && first == Added(rs[0], own)
    ensures News(rs, own) == first + FramesOf(rs[1..])
  {
    var front, e := rs[..|rs| - 1], rs[|rs| - 1];
    if |rs| == 1 {
      assert rs == [e] && rs[1..] == [] && first + [] == first;
      NewsOfSingle(e, own);
    } else {
      StreamNewsParts(rs, own);
      NewsOfStream(front, own, first);
      assert rs == front + [e];
      AddedAlone(front, e, own);
      StreamGoesOn(front, e, first);
    }
  }

  lemma StreamPayloads(rs: seq<Entry>, own: seq<Frame>)
    requires StreamNews(rs, own) && rs != []
    ensures |News(rs, own)| == |rs| && Payloads(News(rs, own)) == Payloads(own) + Payloads(FramesOf(rs))
  {
    StreamNewsParts(rs, own);
    NewsOfStream(rs, own, [Put(rs[0], own)]);
    FramesLength(rs[1..]);
    FirstOfStream(own, rs[0]);
    FirstApart(rs);
    JoinedInFront(Put(rs[0], own), rs[0].f, own, FramesOf(rs[1..]));
  }

  lemma JoinedInFront(x: Frame, f: Frame, own: seq<Frame>, rest: seq<Frame>)
    requires PureOf(x) == Payloads(own) + PureOf(f)
    ensures Payloads([x] + rest) == Payloads(own) + Payloads([f] + rest)
  {
    PayloadsInFront(f, rest);
    PayloadsInFront(x, rest);
    assert (Payloads(own) + PureOf(f)) + Payloads(rest) == Payloads(own) + (PureOf(f) + Payloads(rest));
  }

  lemma PayloadsInFront(f: Frame, fs: seq<Frame>)
    ensures Payloads([f] + fs) == PureOf(f) + Payloads(fs)
  {
    CollectConcat([f], fs, PureOf);
    PayloadsOfOne(f);
  }

  lemma FirstApart(rs: seq<Entry>)
    requires rs != []
    ensures FramesOf(rs) == [rs[0].f] + FramesOf(rs[1..])
  {
    assert rs == [rs[0]] + rs[1..] && [rs[0]][..0] == [];
    CollectConcat([rs[0]], rs[1..], FrameOf);
  }

  /** However many frames of a stream a message brings, if the inbox had at most one of it, then all payloads are there in
      order; in one frame, so that a lookup finds all of them, if and only if the message brings at most one. */
  lemma StreamOfMessage(was: seq<Frame>, es: seq<Entry>, now: seq<Frame>, key: seq<Byte>)
    requires MergedFrom(was, es, now)
    requires StreamNews(Named(es, READ_STRING_STREAM, key), Of(was, READ_STRING_STREAM, key))
    ensures var rs, own, v := Named(es, READ_STRING_STREAM, key), Of(was, READ_STRING_STREAM, key), Of(now, READ_STRING_STREAM, key);
      && Payloads(v) == Payloads(own) + Payloads(FramesOf(rs)) && (|v| <= 1 <==> |rs| <= 1)
  {
    var rs, own := Named(es, READ_STRING_STREAM, key), Of(was, READ_STRING_STREAM, key);
    assert NameNow(was, es, now, READ_STRING_STREAM, key);
    if rs == [] {
      assert News(rs, own) + own == own && FramesOf(rs) == [] && Payloads(own) + Payloads([]) == Payloads(own);
    } else {
      StreamPayloads(rs, own);
      AddsNothing(News(rs, own), Dropped(own, |rs|));
    }
  }

  /** With two frames of it in the inbox the next one is put between them, and the order is lost. */
  lemma StreamOutOfOrder(was: seq<Frame>, es: seq<Entry>, now: seq<Frame>, key: seq<Byte>, a: Frame, b: Frame, c: Frame)
    requires MergedFrom(was, es, now) && Of(was, READ_STRING_STREAM, key) == [a, b] && Named(es, READ_STRING_STREAM, key) == [Whole(c)]
    requires FrameOk(a) && FrameOk(b) && Proper(c) && !Discontinued(c) && Joinable(c, a)
    ensures var v := Of(now, READ_STRING_STREAM, key);
      |v| == 2 && FrameOk(v[0]) && PureData(v[0]) == PureData(a) + PureData(c) && v[1] == b
  {
    assert NameNow(was, es, now, READ_STRING_STREAM, key);
    NewsOfSingle(Whole(c), [a, b]);
    NamedAre(es, READ_STRING_STREAM, key);
    assert Whole(c) in Named(es, READ_STRING_STREAM, key);
    IncomingSays(c, [a, b]);
    assert Dropped([a, b], 1) == [b];
  }

  // ---------- reading and removing ----------

  /** `_removeCommandReply_null`, `_int`, `_intint` and `_string`. */
  method RemoveReply(inbox: FrameBuffer, cmd: nat, key: seq<Byte>) returns (found: bool)
    requires inbox.Valid() && Lookable(inbox.frames) && KeyFits(cmd, key)
    modifies inbox, inbox.buffer, inbox.buffer.data
    ensures inbox.Valid() && Lookable(inbox.frames)
    ensures Removed(old(inbox.frames), cmd, key, inbox.frames)
    ensures Keyed(cmd) ==> (found <==> Of(old(inbox.frames), cmd, key) != [])
    ensures !Keyed(cmd) ==> (found <==> exists f :: f in old(inbox.frames) && Matches(f, cmd, []))
  {
    ghost var frames := inbox.frames;
    LookableAreOk(frames);
    var off;
    ghost var i;
    found, off, i := inbox.Find(cmd, key);
    if Keyed(cmd) {
      FirstOfKeyed(frames, cmd, key, i);
    }
    if found {
      assert frames[i] in frames;
      RemovedAt(frames, i, cmd, key);
      var size := inbox.SizeOf(off, i);
      inbox.RemoveAt(off, size, i);
    } else {
      assert forall f :: f in frames ==> exists j :: 0 <= j < |frames| && frames[j] == f;
    }
  }

  lemma RemovedAt(frames: seq<Frame>, i: nat, cmd: nat, key: seq<Byte>)
    requires Lookable(frames) && KeyFits(cmd, key) && i == FirstMatch(frames, cmd, key, 0) && i < |frames|
    ensures Lookable(frames[..i] + frames[i + 1..]) && Removed(frames, cmd, key, frames[..i] + frames[i + 1..])
  {
    var r := frames[..i] + frames[i + 1..];
    assert forall f :: f in r ==> f in frames[..i] || f in frames[i + 1..];
    forall c: nat, k: seq<Byte>
      ensures Of(r, c, k) == Of(frames[..i], c, k) + Of(frames[i + 1..], c, k)
      ensures (c, k) != (cmd, key) && (Keyed(c) || Keyed(cmd)) ==> Of(r, c, k) == Of(frames, c, k)
    {
      OfConcat(frames[..i], frames[i + 1..], c, k);
      OfAt(frames, i, c, k);
      if Keyed(cmd) {
        FirstOfKeyed(frames, cmd, key, i);
      }
      AddsNothing(Of(frames[..i], c, k), []);
    }
    if Keyed(cmd) {
      FirstOfKeyed(frames, cmd, key, i);
      NoneBefore(frames, cmd, key, i);
      assert [] + Of(frames[i + 1..], cmd, key) == Of(frames[i + 1..], cmd, key);
    }
  }

  // ---------- commands without a key ----------

  /** What is there of a command without a key after the first `n` events, newest message first. */
  ghost function Pile(run: Run, n: nat, c: nat, k: seq<Byte>): seq<Frame>
    requires n <= |run.events| == |run.inboxes| - 1
  {
    if n == 0 then Of(run.inboxes[0], c, k)
    else if run.events[n - 1].Merge? then Of(Collect(run.events[n - 1].entered, PutIn), c, k) + Pile(run, n - 1, c, k)
    else Pile(run, n - 1, c, k)
  }

  /** Replies without a key are never replaced or discontinued: over any run in which none is removed, all that ever
      came, but for those that discontinue, are in the inbox. */
  lemma {:induction false} UnkeyedPilesUp(run: Run, n: nat, c: nat, k: seq<Byte>)
    requires run.Valid() && n <= |run.events| && (0 < c <= 0x1000 || c == 0x2000 || c == 0x3000 || 0x4000 <= c)
    requires forall i :: 0 <= i < n && run.events[i].Remove? ==> Keyed(run.events[i].cmd)
    ensures Of(run.inboxes[n], c, k) == Pile(run, n, c, k)
  {
    if n > 0 {
      UnkeyedPilesUp(run, n - 1, c, k);
      PileAfter(run, n, c, k);
    }
  }

  lemma PileAfter(run: Run, n: nat, c: nat, k: seq<Byte>)
    requires run.Valid() && 0 < n <= |run.events| && !Keyed(c) && c != 0
    requires run.events[n - 1].Remove? ==> Keyed(run.events[n - 1].cmd)
    ensures Of(run.inboxes[n], c, k) ==
      if run.events[n - 1].Merge? then Of(Collect(run.events[n - 1].entered, PutIn), c, k) + Of(run.inboxes[n - 1], c, k)
      else Of(run.inboxes[n - 1], c, k)
  {
    EventAt(run, n - 1);
    PileGrows(run.inboxes[n - 1], run.events[n - 1], run.inboxes[n], c, k);
  }

  lemma PileGrows(was: seq<Frame>, e: Event, now: seq<Frame>, c: nat, k: seq<Byte>)
    requires Happens(was, e, now) && !Keyed(c) && c != 0 && (e.Remove? ==> Keyed(e.cmd))
    ensures Of(now, c, k) == if e.Merge? then Of(Collect(e.entered, PutIn), c, k) + Of(was, c, k) else Of(was, c, k)
  {
    if e.Merge? {
      EventMerges(was, e, now);
      LiveOfNumbered(was, c, k);
    }
  }
}
