/** How a reply is merged into the inbox: newer replies take the place of older ones of the same command and key,
    string streams are joined, and a discontinued command is dropped (extApi.c, `_communicationThread` with
    `_appendCommandToBufferAndTakeIntoAccountPreviouslyReceivedData`). Chunks of split commands go into the partial
    commands instead. */
module InboxMerge {
  import opened Sequences
  import opened Bytes
  import opened Frames
  import opened FrameBuffers
  import opened SplitFrames
  import opened SplitTransfer
  import opened SplitReceive
  import opened SplitRun

  const READ_STRING_STREAM := 0x3018
  const DISCONTINUE := 5

  // ---------- one frame of a reply ----------

  predicate Discontinued(c: Frame)
    requires |c| >= SUBHEADER_SIZE
  {
    OpMode(c) == DISCONTINUE
  }

  /** The subheader and the key of `c`, the pure data of `prev`, the pure data of `c`, with both sizes set. */
  function Joined(c: Frame, prev: Frame): Frame
    requires FrameOk(c) && FrameOk(prev) && |c| + |PureData(prev)| < WORD_LIMIT
  {
    var all := c[..SUBHEADER_SIZE + KeySize(c)] + PureData(prev) + PureData(c);
    Overwritten(Overwritten(all, MEM_SIZE, Word(|all|)), FULL_MEM_SIZE, Word(|all|))
  }

  lemma JoinedBytes(c: seq<Byte>, k: nat, p: seq<Byte>, w: seq<Byte>)
    requires SUBHEADER_SIZE <= k <= |c| && |w| == 4
    ensures var all := c[..k] + p + c[k..];
      var r := Overwritten(Overwritten(all, MEM_SIZE, w), FULL_MEM_SIZE, w);
      && |r| == |c| + |p| && r[SUBHEADER_SIZE..k] == c[SUBHEADER_SIZE..k] && r[k..] == p + c[k..]
      && (forall i :: 0 <= i < 4 ==> r[i] == w[i] && r[i + 4] == w[i]) && (forall i :: 8 <= i < SUBHEADER_SIZE ==> r[i] == c[i])
  {
  }

  /** A joined frame is a proper frame of the same command and key, whole, with the payloads one after the other. */
  lemma JoinedSays(c: Frame, prev: Frame)
    requires Proper(c) && FrameOk(prev) && |c| + |PureData(prev)| < SIZE_LIMIT
    ensures var r := Joined(c, prev);
      && Proper(r) && CmdRaw(r) == CmdRaw(c) && OpMode(r) == OpMode(c) && Key(r) == Key(c)
      && |r| == FullSize(r) == |c| + |PureData(prev)| && PureData(r) == PureData(prev) + PureData(c)
  {
    var k, r := SUBHEADER_SIZE + KeySize(c), Joined(c, prev);
    var w := Word(|r|);
    JoinedBytes(c, k, PureData(prev), w);
    WordReadsBack(|r|);
    JoinedLike(c, r, PureData(prev) + PureData(c));
  }

  lemma JoinedLike(c: Frame, r: Frame, pure: seq<Byte>)
    requires Proper(c) && |r| == SUBHEADER_SIZE + KeySize(c) + |pure| < SIZE_LIMIT
    requires forall i :: 0 <= i < 4 ==> r[i] == Word(|r|)[i] && r[i + 4] == Word(|r|)[i]
    requires forall i :: 8 <= i < SUBHEADER_SIZE ==> r[i] == c[i]
    requires r[SUBHEADER_SIZE..SUBHEADER_SIZE + KeySize(c)] == Key(c) && r[SUBHEADER_SIZE + KeySize(c)..] == pure
    ensures Proper(r) && CmdRaw(r) == CmdRaw(c) && OpMode(r) == OpMode(c) && Key(r) == Key(c) && |r| == FullSize(r) && PureData(r) == pure
  {
    WordReadsBack(|r|);
    assert WordAt(r, MEM_SIZE) == |r| && WordAt(r, FULL_MEM_SIZE) == |r|;
    assert KeySize(r) == KeySize(c);
  }

  predicate Joinable(c: Frame, prev: Frame) {
    FrameOk(c) && FrameOk(prev) && |c| + |prev| < SIZE_LIMIT
  }

  /** What a frame of a reply is put into the inbox as, when the inbox holds `own` of its command and key. */
  function Incoming(c: Frame, own: seq<Frame>): Frame
    requires |c| >= SUBHEADER_SIZE
  {
    if CmdRaw(c) == READ_STRING_STREAM && own != [] && Joinable(c, own[0]) && |PureData(own[0])| != 0 then Joined(c, own[0]) else c
  }

  lemma IncomingSays(c: Frame, own: seq<Frame>)
    requires Proper(c)
    ensures var r := Incoming(c, own); Proper(r) && IsOf(r, CmdRaw(c), Key(c)) && OpMode(r) == OpMode(c)
    ensures CmdRaw(c) == READ_STRING_STREAM && own != [] && Joinable(c, own[0]) ==>
      PureData(Incoming(c, own)) == PureData(own[0]) + PureData(c)
    ensures own == [] || CmdRaw(c) != READ_STRING_STREAM ==> Incoming(c, own) == c
  {
    if own != [] && Joinable(c, own[0]) {
      JoinedSays(c, own[0]);
    }
  }

  // ---------- the old inbox ----------

  /** A command is unmarked by writing zero over its command field. */
  function Unmarked(f: Frame): Frame
    requires |f| >= SUBHEADER_SIZE
  {
    Overwritten(f, CMD, Word(0))
  }

  predicate IsLive(f: Frame)
    requires |f| >= SUBHEADER_SIZE
  {
    WordAt(f, CMD) != 0
  }

  function LiveOf(f: Frame): seq<Frame> {
    if |f| >= SUBHEADER_SIZE && IsLive(f) then [f] else []
  }

  /** The commands that are not unmarked. */
  ghost function Live(frames: seq<Frame>): seq<Frame> {
    Collect(frames, LiveOf)
  }

  /** Commands with a key are in proper form. */
  predicate Lookable(frames: seq<Frame>) {
    forall f :: f in frames ==> FrameOk(f) && (Keyed(CmdRaw(f)) ==> Proper(f))
  }

  /** The old inbox's frames of the command and key of `c`, if it has a key. */
  ghost function OwnIn(olds: seq<Frame>, c: Frame): seq<Frame>
    requires FrameOk(c)
  {
    if Keyed(CmdRaw(c)) then Of(olds, CmdRaw(c), Key(c)) else []
  }

  lemma UnmarkedSays(f: Frame)
    requires FrameOk(f)
    ensures FrameOk(Unmarked(f)) && CmdRaw(Unmarked(f)) == 0 && !IsLive(Unmarked(f))
  {
    WordReadsBack(0);
    var g := Unmarked(f);
    assert g[CMD] == 0 && g[CMD + 1] == 0 && g[CMD + 2] == 0 && g[CMD + 3] == 0;
  }

  lemma NumberedIsLive(f: Frame)
    requires |f| >= SUBHEADER_SIZE && CmdRaw(f) != 0
    ensures IsLive(f)
  {
  }

  lemma KeyedMatches(f: Frame, cmd: nat, key: seq<Byte>)
    requires FrameOk(f) && (Keyed(CmdRaw(f)) ==> Proper(f)) && Keyed(cmd) && KeyFits(cmd, key)
    ensures Matches(f, cmd, key) <==> IsOf(f, cmd, key)
  {
    if CmdRaw(f) == cmd {
      MatchesIsSameKey(f, cmd, key);
    }
  }

  lemma NoneBefore(frames: seq<Frame>, cmd: nat, key: seq<Byte>, k: nat)
    requires Lookable(frames) && Keyed(cmd) && KeyFits(cmd, key) && k == FirstMatch(frames, cmd, key, 0)
    ensures Of(frames[..k], cmd, key) == []
  {
    forall i | 0 <= i < k ensures !IsOf(frames[i], cmd, key) {
      assert frames[i] in frames;
      KeyedMatches(frames[i], cmd, key);
    }
    OfNone(frames[..k], cmd, key);
  }

  /** The first match of a keyed command is the first frame of that command and key. */
  lemma FirstOfKeyed(frames: seq<Frame>, cmd: nat, key: seq<Byte>, k: nat)
    requires Lookable(frames) && Keyed(cmd) && KeyFits(cmd, key) && k == FirstMatch(frames, cmd, key, 0)
    ensures k < |frames| ==> IsOf(frames[k], cmd, key) && Of(frames, cmd, key) == [frames[k]] + Of(frames[k + 1..], cmd, key)
    ensures k == |frames| ==> Of(frames, cmd, key) == []
  {
    NoneBefore(frames, cmd, key, k);
    if k < |frames| {
      assert frames[k] in frames;
      KeyedMatches(frames[k], cmd, key);
      OfAt(frames, k, cmd, key);
    } else {
      WholePrefix(frames);
    }
  }

  /** Unmarking the first match takes it from the frames of its command and key, and changes no other keyed ones. */
  lemma UnmarkTakes(frames: seq<Frame>, j: nat, cmd: nat, key: seq<Byte>)
    requires Lookable(frames) && Keyed(cmd) && KeyFits(cmd, key) && j == FirstMatch(frames, cmd, key, 0) && j < |frames|
    ensures |frames[j]| >= SUBHEADER_SIZE && Of(frames, cmd, key) != []
    ensures var r := frames[j := Unmarked(frames[j])];
      && Lookable(r) && Of(r, cmd, key) == Of(frames, cmd, key)[1..]
      && (forall c: nat, k: seq<Byte> :: Keyed(c) && (c, k) != (cmd, key) ==> Of(r, c, k) == Of(frames, c, k))
  {
    assert frames[j] in frames;
    FirstOfKeyed(frames, cmd, key, j);
    NoneBefore(frames, cmd, key, j);
    UnmarkedSays(frames[j]);
    var r := frames[j := Unmarked(frames[j])];
    assert r[..j] == frames[..j] && r[j + 1..] == frames[j + 1..];
    OfAt(r, j, cmd, key);
    forall c: nat, k: seq<Byte> | Keyed(c) && (c, k) != (cmd, key) ensures Of(r, c, k) == Of(frames, c, k) {
      OfAt(r, j, c, k);
      OfAt(frames, j, c, k);
    }
  }

  /** Unmarking a keyed command leaves the live commands without a key as they are. */
  lemma UnmarkKeepsUnkeyed(frames: seq<Frame>, j: nat, c: nat, k: seq<Byte>)
    requires j < |frames| && FrameOk(frames[j]) && Keyed(CmdRaw(frames[j])) && !Keyed(c)
    ensures Of(Live(frames[j := Unmarked(frames[j])]), c, k) == Of(Live(frames), c, k)
  {
    UnmarkedSays(frames[j]);
    var r := frames[j := Unmarked(frames[j])];
    assert r == frames[..j] + [r[j]] + frames[j + 1..] && frames == frames[..j] + [frames[j]] + frames[j + 1..];
    LiveSplit(frames[..j], r[j], frames[j + 1..], c, k);
    LiveSplit(frames[..j], frames[j], frames[j + 1..], c, k);
    OfOne(frames[j], c, k);
    OfNone([], c, k);
  }

  lemma LiveSplit(a: seq<Frame>, f: Frame, b: seq<Frame>, c: nat, k: seq<Byte>)
    ensures Of(Live(a + [f] + b), c, k) == Of(Live(a), c, k) + Of(LiveOf(f), c, k) + Of(Live(b), c, k)
  {
    CollectConcat(a + [f], b, LiveOf);
    CollectSnoc(a, f, LiveOf);
    OfConcat(Live(a) + LiveOf(f), Live(b), c, k);
    OfConcat(Live(a), LiveOf(f), c, k);
  }

  /** A command number other than zero has only live commands. */
  lemma {:induction false} LiveOfNumbered(frames: seq<Frame>, c: nat, k: seq<Byte>)
    requires c != 0
    ensures Of(Live(frames), c, k) == Of(frames, c, k)
  {
    if frames == [] {
      OfNone([], c, k);
    } else {
      var front, f := frames[..|frames| - 1], frames[|frames| - 1];
      LiveOfNumbered(front, c, k);
      OfConcat(Live(front), LiveOf(f), c, k);
      OfOne(f, c, k);
      OfNone([], c, k);
      if IsOf(f, c, k) {
        NumberedIsLive(f);
      }
    }
  }

  // ---------- what reaches the inbox ----------

  /** A frame that carries its whole command, or a command completed by its last chunk. */
  datatype Entry = Whole(f: Frame) | Completed(f: Frame)

  function EntryOf(c: Frame, out: seq<Frame>): seq<Entry> {
    if IsWhole(c) then [Whole(c)] else if out == [] then [] else [Completed(out[0])]
  }

  /** What the first `n` frames of a message bring to the inbox, when `outs` is what comes out at each of them. */
  ghost function Entries(message: seq<Frame>, outs: seq<seq<Frame>>, n: nat): seq<Entry>
    requires n <= |message| && n <= |outs|
  {
    if n == 0 then [] else Entries(message, outs, n - 1) + EntryOf(message[n - 1], outs[n - 1])
  }

  lemma {:induction false} EntriesOfPrefix(message: seq<Frame>, outs: seq<seq<Frame>>, more: seq<seq<Frame>>, n: nat)
    requires n <= |message| && n <= |outs| && outs <= more
    ensures Entries(message, outs, n) == Entries(message, more, n)
  {
    if n > 0 {
      EntriesOfPrefix(message, outs, more, n - 1);
    }
  }

  predicate ProperEntries(es: seq<Entry>) {
    forall e :: e in es ==> Proper(e.f)
  }

  /** The entries of one command and key, in order. */
  ghost function Named(es: seq<Entry>, cmd: nat, key: seq<Byte>): seq<Entry> {
    if es == [] then [] else
      var last := es[|es| - 1];
      Named(es[..|es| - 1], cmd, key) + if IsOf(last.f, cmd, key) then [last] else []
  }

  lemma NamedSnoc(es: seq<Entry>, e: Entry, cmd: nat, key: seq<Byte>)
    ensures Named(es + [e], cmd, key) == Named(es, cmd, key) + if IsOf(e.f, cmd, key) then [e] else []
  {
    assert (es + [e])[..|es|] == es;
  }

  /** Only a frame that came whole can discontinue its command; a completed one is put in whatever its mode. */
  predicate Discontinues(e: Entry) {
    e.Whole? && |e.f| >= SUBHEADER_SIZE && Discontinued(e.f)
  }

  /** By its bytes: a frame that came whole discontinues if its mode is five, and is of a string stream if its command is
      0x3018 (v_repConst.h:1025 and 1045). */
  lemma ModesByByte(f: Frame)
    requires |f| >= 26
    ensures Discontinues(Whole(f)) <==> f[16] == 5 && f[17] == 0
    ensures !Discontinues(Completed(f))
    ensures CmdRaw(f) == READ_STRING_STREAM <==> f[14] == 0x18 && f[15] == 0x30
  {
  }

  /** What an entry is put into the inbox as. Only a frame that came whole is joined with a stream that is there. */
  function Put(e: Entry, own: seq<Frame>): Frame
    requires |e.f| >= SUBHEADER_SIZE
  {
    if e.Whole? then Incoming(e.f, own) else e.f
  }

  /** What an entry adds to the new inbox. */
  ghost function Added(e: Entry, own: seq<Frame>): seq<Frame> {
    if |e.f| < SUBHEADER_SIZE || Discontinues(e) then [] else [Put(e, own)]
  }

  function PutIn(e: Entry): seq<Frame> {
    if |e.f| >= SUBHEADER_SIZE && !Discontinues(e) then [e.f] else []
  }

  lemma PutSays(e: Entry, own: seq<Frame>)
    requires Proper(e.f)
    ensures var r := Put(e, own); Proper(r) && IsOf(r, CmdRaw(e.f), Key(e.f))
    ensures own == [] || CmdRaw(e.f) != READ_STRING_STREAM ==> Put(e, own) == e.f
  {
    IncomingSays(e.f, own);
  }

  /** `s` without its first `n`. */
  function Dropped<T>(s: seq<T>, n: nat): seq<T> {
    if n <= |s| then s[n..] else []
  }

  /** What the entries `rs` of one name put into the new inbox, when the old one holds `own` of that name: each of them
      has one more of the old ones unmarked. */
  ghost function News(rs: seq<Entry>, own: seq<Frame>): seq<Frame> {
    if rs == [] then [] else
      var n: nat := |rs| - 1;
      News(rs[..n], own) + Added(rs[n], Dropped(own, n))
  }

  lemma NewsSnoc(rs: seq<Entry>, e: Entry, own: seq<Frame>)
    ensures News(rs + [e], own) == News(rs, own) + Added(e, Dropped(own, |rs|))
  {
    assert (rs + [e])[..|rs|] == rs;
  }

  lemma AddedOf(e: Entry, own: seq<Frame>, cmd: nat, key: seq<Byte>)
    requires Proper(e.f)
    ensures Of(Added(e, own), cmd, key) == if IsOf(e.f, cmd, key) then Added(e, own) else []
  {
    PutSays(e, own);
    OfOne(Put(e, own), cmd, key);
    OfNone([], cmd, key);
  }

  /** The first frame of the name is gone from the old inbox, if there was one; other keyed names keep theirs. */
  ghost predicate Takes(olds: seq<Frame>, cmd: nat, key: seq<Byte>, left: seq<Frame>) {
    && Of(left, cmd, key) == Dropped(Of(olds, cmd, key), 1)
    && forall c: nat, k: seq<Byte> :: Keyed(c) && (c, k) != (cmd, key) ==> Of(left, c, k) == Of(olds, c, k)
  }

  /** What taking in a command leaves of the old inbox: the first of its name is unmarked, if there is one. */
  ghost function LeftBy(olds: seq<Frame>, c: Frame): seq<Frame>
    requires FrameOk(c)
  {
    var j := FirstMatch(olds, CmdRaw(c), Key(c), 0);
    if Keyed(CmdRaw(c)) && j < |olds| then olds[j := Unmarked(olds[j])] else olds
  }

  predicate RoomFor(frames: seq<Frame>, n: nat) {
    forall f :: f in frames ==> |f| + n < SIZE_LIMIT
  }

  lemma LeftByKeeps(olds: seq<Frame>, c: Frame)
    requires Lookable(olds) && Proper(c)
    ensures var left := LeftBy(olds, c);
      Lookable(left) && (Keyed(CmdRaw(c)) ==> Takes(olds, CmdRaw(c), Key(c), left)) && (!Keyed(CmdRaw(c)) ==> left == olds)
    ensures forall n: nat :: RoomFor(olds, n) ==> RoomFor(LeftBy(olds, c), n)
  {
    var j := FirstMatch(olds, CmdRaw(c), Key(c), 0);
    if Keyed(CmdRaw(c)) {
      FirstOfKeyed(olds, CmdRaw(c), Key(c), j);
      if j < |olds| {
        UnmarkTakes(olds, j, CmdRaw(c), Key(c));
        forall n: nat | RoomFor(olds, n) ensures RoomFor(LeftBy(olds, c), n) {
          assert olds[j] in olds;
        }
      }
    }
  }

  lemma LeftByKeepsUnkeyed(olds: seq<Frame>, c: Frame, cmd: nat, key: seq<Byte>)
    requires Lookable(olds) && Proper(c) && !Keyed(cmd)
    ensures Of(Live(LeftBy(olds, c)), cmd, key) == Of(Live(olds), cmd, key)
  {
    var j := FirstMatch(olds, CmdRaw(c), Key(c), 0);
    if Keyed(CmdRaw(c)) && j < |olds| {
      FirstOfKeyed(olds, CmdRaw(c), Key(c), j);
      UnmarkKeepsUnkeyed(olds, j, cmd, key);
    }
  }

  // ---------- the merge of a message ----------

  /** The new inbox so far, and the old one. */
  datatype Halves = Halves(news: seq<Frame>, olds: seq<Frame>)

  /** What the loop makes of the inbox `was` with the entries `es`. */
  ghost function MergeOf(es: seq<Entry>, was: seq<Frame>): Halves
    requires ProperEntries(es)
  {
    if es == [] then Halves([], was) else
      var e := es[|es| - 1];
      var m := MergeOf(es[..|es| - 1], was);
      assert e in es;
      Halves(m.news + Added(e, OwnIn(m.olds, e.f)), LeftBy(m.olds, e.f))
  }

  lemma MergeOfSnoc(es: seq<Entry>, e: Entry, was: seq<Frame>)
    requires ProperEntries(es) && Proper(e.f)
    ensures ProperEntries(es + [e])
    ensures var m := MergeOf(es, was);
      MergeOf(es + [e], was) == Halves(m.news + Added(e, OwnIn(m.olds, e.f)), LeftBy(m.olds, e.f))
  {
    assert (es + [e])[..|es|] == es;
  }

  /** After the entries `es`, a keyed name has in the new inbox what they put in, and in the old one what is left. */
  ghost predicate NameMerged(news: seq<Frame>, olds: seq<Frame>, es: seq<Entry>, was: seq<Frame>, c: nat, k: seq<Byte>) {
    && Of(news, c, k) == News(Named(es, c, k), Of(was, c, k))
    && Of(olds, c, k) == Dropped(Of(was, c, k), |Named(es, c, k)|)
  }

  /** Commands without a key pile up. */
  ghost predicate PilesUp(news: seq<Frame>, olds: seq<Frame>, es: seq<Entry>, was: seq<Frame>) {
    forall c: nat, k: seq<Byte> :: !Keyed(c) ==>
      Of(news, c, k) == Of(Collect(es, PutIn), c, k) && Of(Live(olds), c, k) == Of(Live(was), c, k)
  }

  /** What holds of the two halves after the entries `es` of a message. */
  ghost predicate Merging(news: seq<Frame>, olds: seq<Frame>, es: seq<Entry>, was: seq<Frame>) {
    && (forall c: nat, k: seq<Byte> :: Keyed(c) ==> NameMerged(news, olds, es, was, c, k))
    && PilesUp(news, olds, es, was) && Lookable(olds) && AllProper(news)
  }

  lemma NewsGrow(news: seq<Frame>, es: seq<Entry>, own: seq<Frame>, e: Entry, left: seq<Frame>, c: nat, k: seq<Byte>)
    requires Proper(e.f) && Of(news, c, k) == News(Named(es, c, k), own)
    requires IsOf(e.f, c, k) ==> left == Dropped(own, |Named(es, c, k)|)
    ensures Of(news + Added(e, left), c, k) == News(Named(es + [e], c, k), own)
  {
    OfConcat(news, Added(e, left), c, k);
    AddedOf(e, left, c, k);
    NamedSnoc(es, e, c, k);
    if IsOf(e.f, c, k) {
      NewsSnoc(Named(es, c, k), e, own);
    } else {
      AddsNothing(Of(news, c, k), Of(Added(e, left), c, k));
      AddsNothing(Named(es, c, k), []);
    }
  }

  lemma DroppedOne<T>(s: seq<T>, n: nat)
    ensures Dropped(Dropped(s, n), 1) == Dropped(s, n + 1)
  {
  }

  lemma OwnShrinks(own: seq<Frame>, now: seq<Frame>, left: seq<Frame>, es: seq<Entry>, e: Entry, c: nat, k: seq<Byte>)
    requires now == Dropped(own, |Named(es, c, k)|) && left == if IsOf(e.f, c, k) then Dropped(now, 1) else now
    ensures left == Dropped(own, |Named(es + [e], c, k)|)
  {
    NamedSnoc(es, e, c, k);
    DroppedOne(own, |Named(es, c, k)|);
  }

  lemma MergesName(news: seq<Frame>, olds: seq<Frame>, es: seq<Entry>, was: seq<Frame>, e: Entry, left: seq<Frame>,
                   c: nat, k: seq<Byte>)
    requires Proper(e.f) && Keyed(c) && NameMerged(news, olds, es, was, c, k)
    requires Of(left, c, k) == if IsOf(e.f, c, k) then Dropped(Of(olds, c, k), 1) else Of(olds, c, k)
    ensures NameMerged(news + Added(e, OwnIn(olds, e.f)), left, es + [e], was, c, k)
  {
    NewsGrow(news, es, Of(was, c, k), e, OwnIn(olds, e.f), c, k);
    OwnShrinks(Of(was, c, k), Of(olds, c, k), Of(left, c, k), es, e, c, k);
  }

  lemma PilesOn(news: seq<Frame>, olds: seq<Frame>, es: seq<Entry>, was: seq<Frame>, e: Entry)
    requires Proper(e.f) && PilesUp(news, olds, es, was) && Lookable(olds)
    ensures PilesUp(news + Added(e, OwnIn(olds, e.f)), LeftBy(olds, e.f), es + [e], was)
  {
    CollectSnoc(es, e, PutIn);
    forall c: nat, k: seq<Byte> | !Keyed(c)
      ensures Of(news + Added(e, OwnIn(olds, e.f)), c, k) == Of(Collect(es + [e], PutIn), c, k)
      ensures Of(Live(LeftBy(olds, e.f)), c, k) == Of(Live(was), c, k)
    {
      LeftByKeepsUnkeyed(olds, e.f, c, k);
      OfConcat(news, Added(e, OwnIn(olds, e.f)), c, k);
      OfConcat(Collect(es, PutIn), PutIn(e), c, k);
      AddedOf(e, OwnIn(olds, e.f), c, k);
      OfOne(e.f, c, k);
      OfNone([], c, k);
      PutSays(e, OwnIn(olds, e.f));
    }
  }

  lemma MergingOn(news: seq<Frame>, olds: seq<Frame>, es: seq<Entry>, was: seq<Frame>, e: Entry)
    requires Proper(e.f) && Merging(news, olds, es, was)
    ensures Merging(news + Added(e, OwnIn(olds, e.f)), LeftBy(olds, e.f), es + [e], was)
  {
    LeftByKeeps(olds, e.f);
    PilesOn(news, olds, es, was, e);
    PutSays(e, OwnIn(olds, e.f));
    forall c: nat, k: seq<Byte> | Keyed(c)
      ensures NameMerged(news + Added(e, OwnIn(olds, e.f)), LeftBy(olds, e.f), es + [e], was, c, k)
    {
      assert NameMerged(news, olds, es, was, c, k);
      MergesName(news, olds, es, was, e, LeftBy(olds, e.f), c, k);
    }
  }

  lemma MergingStarts(inbox: seq<Frame>)
    requires Lookable(inbox)
    ensures Merging([], inbox, [], inbox)
  {
    forall c: nat, k: seq<Byte> ensures Of([], c, k) == [] && NameMerged([], inbox, [], inbox, c, k) {
      OfNone([], c, k);
    }
  }

  lemma {:induction false} MergeOfMerges(es: seq<Entry>, was: seq<Frame>)
    requires ProperEntries(es) && Lookable(was)
    ensures Merging(MergeOf(es, was).news, MergeOf(es, was).olds, es, was)
  {
    if es == [] {
      MergingStarts(was);
    } else {
      var front, e := es[..|es| - 1], es[|es| - 1];
      assert e in es && es == front + [e];
      MergeOfMerges(front, was);
      MergingOn(MergeOf(front, was).news, MergeOf(front, was).olds, front, was, e);
      MergeOfSnoc(front, e, was);
    }
  }

  /** The merged inbox: the new frames, then the old ones that are still live. */
  ghost function MergedInbox(es: seq<Entry>, was: seq<Frame>): seq<Frame>
    requires ProperEntries(es)
  {
    MergeOf(es, was).news + Live(MergeOf(es, was).olds)
  }

  /** What a merge makes of the inbox `was`, for the entries of any message. For a keyed name, the entries of that name
      come first, then what the inbox had of it, but for one old frame for each new one. Nothing of a command without a
      key goes. */
  ghost predicate MergedFrom(was: seq<Frame>, es: seq<Entry>, now: seq<Frame>) {
    && (forall c: nat, k: seq<Byte> :: Keyed(c) ==> NameNow(was, es, now, c, k))
    && (forall c: nat, k: seq<Byte> :: KeyFits(c, []) ==>
          Of(now, c, k) == Of(Collect(es, PutIn), c, k) + Of(Live(was), c, k))
  }

  ghost predicate NameNow(was: seq<Frame>, es: seq<Entry>, now: seq<Frame>, c: nat, k: seq<Byte>) {
    Of(now, c, k) == News(Named(es, c, k), Of(was, c, k)) + Dropped(Of(was, c, k), |Named(es, c, k)|)
  }

  lemma MergingEnds(es: seq<Entry>, was: seq<Frame>)
    requires ProperEntries(es) && Lookable(was)
    ensures Lookable(MergedInbox(es, was)) && MergedFrom(was, es, MergedInbox(es, was))
  {
    var news, olds := MergeOf(es, was).news, MergeOf(es, was).olds;
    MergeOfMerges(es, was);
    LiveIsPart(olds);
    forall c: nat, k: seq<Byte> | Keyed(c) ensures NameNow(was, es, news + Live(olds), c, k) {
      assert NameMerged(news, olds, es, was, c, k);
      OfConcat(news, Live(olds), c, k);
      LiveOfNumbered(olds, c, k);
    }
    forall c: nat, k: seq<Byte> | KeyFits(c, [])
      ensures Of(news + Live(olds), c, k) == Of(Collect(es, PutIn), c, k) + Of(Live(was), c, k)
    {
      OfConcat(news, Live(olds), c, k);
    }
  }

  lemma {:induction false} LiveIsPart(frames: seq<Frame>)
    ensures forall f :: f in Live(frames) ==> f in frames
  {
    if frames == [] {
      assert Live(frames) == [];
    } else {
      var front, f := frames[..|frames| - 1], frames[|frames| - 1];
      LiveIsPart(front);
      forall g | g in Live(frames) ensures g in frames {
        assert g in Live(front) || g in LiveOf(f);
        assert g in front ==> g in frames;
      }
    }
  }

  // ---------- the methods ----------

  /** The new subheader and key, the previous data, the current data; then both sizes are put right. */
  method JoinFrames(c: Frame, prev: Frame) returns (r: Frame)
    requires Joinable(c, prev)
    ensures r == Joined(c, prev)
  {
    var withoutPure := SUBHEADER_SIZE + HalfAt(c, PDATA_OFFSET0);
    r := c[..withoutPure];
    r := r + PureData(prev);
    r := r + c[withoutPure..];
    r := Overwritten(Overwritten(r, MEM_SIZE, Word(|r|)), FULL_MEM_SIZE, Word(|r|));
  }

  /** `_getSameCommandPointer` in the old inbox. */
  method FindSame(inbox: FrameBuffer, c: Frame) returns (found: bool, off: nat, ghost j: nat)
    requires inbox.Valid() && Lookable(inbox.frames) && FrameOk(c)
    ensures found <==> Keyed(CmdRaw(c)) && j < |inbox.frames|
    ensures Keyed(CmdRaw(c)) ==> j == FirstMatch(inbox.frames, CmdRaw(c), Key(c), 0)
    ensures found ==> off == inbox.start + Off(inbox.frames, j)
  {
    found, off, j := false, 0, 0;
    if Keyed(CmdRaw(c)) {
      LookableAreOk(inbox.frames);
      found, off, j := inbox.Find(CmdRaw(c), Key(c));
    }
  }

  lemma LookableAreOk(frames: seq<Frame>)
    requires Lookable(frames)
    ensures AllOk(frames)
  {
  }

  /** `_appendCommandToBufferAndTakeIntoAccountPreviouslyReceivedData`: what to append. */
  method ToAppend(inbox: FrameBuffer, c: Frame) returns (r: Frame)
    requires inbox.Valid() && Lookable(inbox.frames) && Proper(c) && RoomFor(inbox.frames, |c|)
    ensures r == Incoming(c, OwnIn(inbox.frames, c))
  {
    r := c;
    if CmdRaw(c) == READ_STRING_STREAM {
      var found, off;
      ghost var j;
      found, off, j := FindSame(inbox, c);
      FirstOfKeyed(inbox.frames, CmdRaw(c), Key(c), j);
      if found {
        assert inbox.frames[j] in inbox.frames;
        var size := inbox.SizeOf(off, j);
        var prev := inbox.Get(off, size, j);
        if size - (SUBHEADER_SIZE + KeySize(c)) != 0 {
          r := JoinFrames(c, prev);
        }
      }
    }
  }

  /** The command that `c` replaces is unmarked in the old inbox. */
  method Unmark(inbox: FrameBuffer, c: Frame)
    requires inbox.Valid() && Lookable(inbox.frames) && Proper(c)
    modifies inbox, inbox.buffer.data
    ensures inbox.Valid() && inbox.frames == LeftBy(old(inbox.frames), c)
  {
    var found, off;
    ghost var j;
    found, off, j := FindSame(inbox, c);
    if found {
      FirstOfKeyed(inbox.frames, CmdRaw(c), Key(c), j);
      inbox.Write(off, CMD, Word(0), j);
    }
  }

  /** One whole frame of the reply: appended to the new inbox unless it discontinues its command, and what it replaces
      unmarked in the old one. */
  method MergeFrame(temp: FrameBuffer, inbox: FrameBuffer, c: Frame)
    requires temp.Valid() && inbox.Valid() && Apart(temp, inbox) && Lookable(inbox.frames) && Proper(c) && RoomFor(inbox.frames, |c|)
    modifies temp, temp.buffer, temp.buffer.data, inbox, inbox.buffer.data
    ensures temp.Valid() && inbox.Valid() && (temp.buffer.data == old(temp.buffer.data) || fresh(temp.buffer.data))
    ensures temp.frames == old(temp.frames) + Added(Whole(c), OwnIn(old(inbox.frames), c))
    ensures inbox.frames == LeftBy(old(inbox.frames), c)
  {
    if HalfAt(c, CMD + 2) != DISCONTINUE {
      var r := ToAppend(inbox, c);
      temp.Append(r);
    }
    Unmark(inbox, c);
  }

  // ---------- a completed command ----------

  /** The byte `i` places behind the first command of a buffer. What lies in front of that is `before`, read backwards, as far
      as it is given. */
  function ByteAt(before: seq<Byte>, bytes: seq<Byte>, i: int): Byte {
    if 0 <= i < |bytes| then bytes[i] else if -|before| <= i < 0 then before[-1 - i] else 0
  }

  /** What is read as the command number of a frame of `size` bytes at the end of the new inbox. */
  function StrayCmd(before: seq<Byte>, bytes: seq<Byte>, size: nat): nat {
    HalfAt([ByteAt(before, bytes, |bytes| - size + CMD), ByteAt(before, bytes, |bytes| - size + CMD + 1)], 0)
  }

  /** A completed command of `size` bytes is looked at where it will be only after the append. There something is read as
      a string stream, and the old inbox has one. */
  ghost predicate Misread(before: seq<Byte>, m: Halves, size: nat) {
    StrayCmd(before, Flatten(m.news), size) == READ_STRING_STREAM && FirstMatch(m.olds, READ_STRING_STREAM, [], 0) < |m.olds|
  }

  method PeekAt(temp: FrameBuffer, before: seq<Byte>, i: int) returns (b: Byte)
    requires temp.Valid() && i < |Flatten(temp.frames)|
    ensures b == ByteAt(before, Flatten(temp.frames), i)
  {
    if i < 0 {
      return if -|before| <= i then before[-1 - i] else 0;
    }
    assert temp.buffer.Bytes()[temp.start..][i] == Flatten(temp.frames)[i];
    var bytes := temp.buffer.Slice(temp.start + i, temp.start + i + 1);
    b := bytes[0];
  }

  method IsMisread(temp: FrameBuffer, inbox: FrameBuffer, before: seq<Byte>, size: nat) returns (stray: bool)
    requires temp.Valid() && inbox.Valid() && Lookable(inbox.frames) && size >= SUBHEADER_SIZE
    ensures stray <==> Misread(before, Halves(temp.frames, inbox.frames), size)
  {
    LookableAreOk(inbox.frames);
    var found, off;
    ghost var j;
    found, off, j := inbox.Find(READ_STRING_STREAM, []);
    var place := temp.buffer.dataSize - temp.start - size + CMD;
    var low := PeekAt(temp, before, place);
    var high := PeekAt(temp, before, place + 1);
    stray := found && HalfAt([low, high], 0) == READ_STRING_STREAM;
  }

  /** A command completed by a chunk: appended as it is, whatever its mode, and what it replaces unmarked in the old
      inbox. */
  method MergeCompleted(temp: FrameBuffer, inbox: FrameBuffer, m: Frame, before: seq<Byte>) returns (ok: bool)
    requires temp.Valid() && inbox.Valid() && Apart(temp, inbox) && Lookable(inbox.frames) && Proper(m)
    modifies temp, temp.buffer, temp.buffer.data, inbox, inbox.buffer.data
    ensures temp.Valid() && inbox.Valid() && (temp.buffer.data == old(temp.buffer.data) || fresh(temp.buffer.data))
    ensures ok <==> !Misread(before, Halves(old(temp.frames), old(inbox.frames)), |m|)
    ensures ok ==> temp.frames == old(temp.frames) + Added(Completed(m), OwnIn(old(inbox.frames), m))
    ensures ok ==> inbox.frames == LeftBy(old(inbox.frames), m)
  {
    var stray := IsMisread(temp, inbox, before, |m|);
    ok := !stray;
    if ok {
      temp.Append(m);
      Unmark(inbox, m);
    }
  }

  // ---------- a reply ----------

  /** A reply of whole frames and chunks, with room for a stream to grow. */
  ghost predicate GoodReply(reply: seq<Frame>, inbox: seq<Frame>) {
    forall c :: c in reply ==> GoodFrame(c) && RoomFor(inbox, |c|)
  }

  predicate GoodFrame(c: Frame) {
    Proper(c) && (IsWhole(c) || ChunkOk(c))
  }

  ghost predicate AllApart(temp: FrameBuffer, inbox: FrameBuffer, parts: FrameBuffer, reply: FrameBuffer)
    reads temp, temp.buffer, inbox, inbox.buffer, parts, parts.buffer, reply, reply.buffer
  {
    && Apart(temp, inbox) && Apart(temp, parts) && Apart(temp, reply) && Apart(inbox, parts) && Apart(inbox, reply)
    && Apart(parts, reply)
  }

  /** At chunk `n` of a message a completed command is misread. */
  ghost predicate MisreadAt(before: seq<Byte>, message: seq<Frame>, outs: seq<seq<Frame>>, n: nat, was: seq<Frame>)
    requires n < |message| && n <= |outs|
  {
    var c, es := message[n], Entries(message, outs, n);
    !IsWhole(c) && ChunkOk(c) && Completes(c) && ProperEntries(es) && Misread(before, MergeOf(es, was), FullSize(c))
  }

  /** The first `n` frames are merged, and no command was misread. */
  ghost predicate MergedTo(before: seq<Byte>, message: seq<Frame>, tr: Trace, n: nat, was: seq<Frame>, m: Halves) {
    && TakenTo(message, tr, n) && ProperEntries(Entries(message, tr.outs, n)) && m == MergeOf(Entries(message, tr.outs, n), was)
    && forall i: nat :: i < n ==> !MisreadAt(before, message, tr.outs, i, was)
  }

  /** What the loop over the reply keeps: `off` is where frame `n` stands, what the frames before it bring is merged and
      the chunks are in the partial commands. */
  ghost predicate MergeLoop(temp: FrameBuffer, inbox: FrameBuffer, parts: FrameBuffer, reply: FrameBuffer, before: seq<Byte>,
                            message: seq<Frame>, n: nat, off: nat, was: seq<Frame>, tr: Trace)
    reads temp, temp.buffer, temp.buffer.data, inbox, inbox.buffer, inbox.buffer.data
    reads parts, parts.buffer, parts.buffer.data, reply, reply.buffer, reply.buffer.data
  {
    && temp.Valid() && inbox.Valid() && IsPartials(parts) && reply.Valid() && reply.frames == message && n <= |message|
    && Lookable(was) && GoodReply(message, inbox.frames)
    && MergedTo(before, message, tr, n, was, Halves(temp.frames, inbox.frames)) && tr.parts[n] == parts.frames
    && off == reply.start + Off(message, n) && (off < reply.buffer.dataSize <==> n < |message|)
  }

  lemma LoopStarts(temp: FrameBuffer, inbox: FrameBuffer, parts: FrameBuffer, reply: FrameBuffer, before: seq<Byte>)
    requires temp.Valid() && inbox.Valid() && IsPartials(parts) && reply.Valid() && temp.frames == []
    requires Lookable(inbox.frames) && GoodReply(reply.frames, inbox.frames)
    ensures MergeLoop(temp, inbox, parts, reply, before, reply.frames, 0, reply.start, inbox.frames, Trace([parts.frames], []))
  {
    assert reply.frames[..0] == [];
    GoodIsOk(reply.frames, inbox.frames);
    AtEnd(reply.buffer.Bytes(), reply.start, reply.frames, 0);
  }

  lemma GoodIsOk(reply: seq<Frame>, inbox: seq<Frame>)
    requires GoodReply(reply, inbox)
    ensures AllOk(reply)
  {
  }

  lemma CompletedIsProper(was: seq<Frame>, c: Frame, now: seq<Frame>, out: seq<Frame>, base: Frame)
    requires ChunkOk(c) && Received(was, c, now, out, base)
    ensures if Completes(c) then |out| == 1 && Proper(out[0]) && |out[0]| == FullSize(c) else out == []
  {
    MergedSays(base, c);
  }

  /** A chunk goes into the partial commands; what it completes comes out. */
  method TakeChunk(parts: FrameBuffer, c: Frame) returns (completed: seq<Frame>)
    requires IsPartials(parts) && ChunkOk(c)
    modifies parts, parts.buffer, parts.buffer.data
    ensures IsPartials(parts) && (parts.buffer.data == old(parts.buffer.data) || fresh(parts.buffer.data))
    ensures Taken(old(parts.frames), c, parts.frames, completed)
    ensures if Completes(c) then |completed| == 1 && Proper(completed[0]) && |completed[0]| == FullSize(c) else completed == []
  {
    ghost var base, was := [], parts.frames;
    completed, base := ReceiveChunk(parts, c);
    CompletedIsProper(was, c, parts.frames, completed, base);
  }

  lemma NothingMerged(es: seq<Entry>, out: seq<Entry>, was: seq<Frame>)
    requires ProperEntries(es) && out == []
    ensures es + out == es && ProperEntries(es + out) && MergeOf(es + out, was) == MergeOf(es, was)
  {
    assert es + out == es;
  }

  /** A command that a chunk completed, if it did: what comes out goes into the new inbox. */
  method MergeOut(temp: FrameBuffer, inbox: FrameBuffer, completed: seq<Frame>, before: seq<Byte>,
                  ghost c: Frame, ghost es: seq<Entry>, ghost was: seq<Frame>) returns (ok: bool)
    requires temp.Valid() && inbox.Valid() && Apart(temp, inbox) && Lookable(inbox.frames) && !IsWhole(c)
    requires completed == [] || (|completed| == 1 && Proper(completed[0]))
    requires ProperEntries(es) && MergeOf(es, was) == Halves(temp.frames, inbox.frames)
    modifies temp, temp.buffer, temp.buffer.data, inbox, inbox.buffer.data
    ensures temp.Valid() && inbox.Valid() && (temp.buffer.data == old(temp.buffer.data) || fresh(temp.buffer.data))
    ensures ok <==> completed == [] || !Misread(before, MergeOf(es, was), |completed[0]|)
    ensures ok ==> ProperEntries(es + EntryOf(c, completed))
    ensures ok ==> MergeOf(es + EntryOf(c, completed), was) == Halves(temp.frames, inbox.frames)
    ensures ok ==> forall n: nat :: RoomFor(old(inbox.frames), n) ==> RoomFor(inbox.frames, n)
  {
    if |completed| == 0 {
      NothingMerged(es, EntryOf(c, completed), was);
      return true;
    }
    LeftByKeeps(inbox.frames, completed[0]);
    MergeOfSnoc(es, Completed(completed[0]), was);
    ok := MergeCompleted(temp, inbox, completed[0], before);
  }

  /** A frame that came whole. */
  method MergeWhole(temp: FrameBuffer, inbox: FrameBuffer, c: Frame, ghost es: seq<Entry>, ghost was: seq<Frame>)
    requires temp.Valid() && inbox.Valid() && Apart(temp, inbox) && Lookable(inbox.frames) && Proper(c) && RoomFor(inbox.frames, |c|)
    requires ProperEntries(es) && MergeOf(es, was) == Halves(temp.frames, inbox.frames)
    modifies temp, temp.buffer, temp.buffer.data, inbox, inbox.buffer.data
    ensures temp.Valid() && inbox.Valid() && (temp.buffer.data == old(temp.buffer.data) || fresh(temp.buffer.data))
    ensures ProperEntries(es + [Whole(c)]) && MergeOf(es + [Whole(c)], was) == Halves(temp.frames, inbox.frames)
    ensures forall n: nat :: RoomFor(old(inbox.frames), n) ==> RoomFor(inbox.frames, n)
  {
    LeftByKeeps(inbox.frames, c);
    MergeOfSnoc(es, Whole(c), was);
    MergeFrame(temp, inbox, c);
  }

  /** A chunk. */
  method MergeChunk(temp: FrameBuffer, inbox: FrameBuffer, parts: FrameBuffer, c: Frame, before: seq<Byte>,
                    ghost es: seq<Entry>, ghost was: seq<Frame>) returns (ok: bool, ghost out: seq<Frame>)
    requires temp.Valid() && inbox.Valid() && IsPartials(parts) && Apart(temp, inbox) && Apart(temp, parts) && Apart(inbox, parts)
    requires ChunkOk(c) && Lookable(inbox.frames) && ProperEntries(es) && MergeOf(es, was) == Halves(temp.frames, inbox.frames)
    modifies temp, temp.buffer, temp.buffer.data, inbox, inbox.buffer.data, parts, parts.buffer, parts.buffer.data
    ensures temp.buffer.data == old(temp.buffer.data) || fresh(temp.buffer.data)
    ensures parts.buffer.data == old(parts.buffer.data) || fresh(parts.buffer.data)
    ensures temp.Valid() && inbox.Valid() && IsPartials(parts) && Apart(temp, parts)
    ensures ok <==> !Completes(c) || !Misread(before, MergeOf(es, was), FullSize(c))
    ensures Taken(old(parts.frames), c, parts.frames, out)
    ensures ok ==> ProperEntries(es + EntryOf(c, out)) && MergeOf(es + EntryOf(c, out), was) == Halves(temp.frames, inbox.frames)
    ensures ok ==> forall n: nat :: RoomFor(old(inbox.frames), n) ==> RoomFor(inbox.frames, n)
  {
    var completed := TakeChunk(parts, c);
    out := completed;
    assert Apart(temp, parts) && Apart(inbox, parts) && temp.Valid() && inbox.Valid();
    ok := MergeOut(temp, inbox, completed, before, c, es, was);
    assert Apart(temp, parts);
  }

  /** One frame of the reply, whole or a chunk. */
  method MergeOrTake(temp: FrameBuffer, inbox: FrameBuffer, parts: FrameBuffer, c: Frame, before: seq<Byte>,
                     ghost es: seq<Entry>, ghost was: seq<Frame>) returns (ok: bool, ghost out: seq<Frame>)
    requires temp.Valid() && inbox.Valid() && IsPartials(parts) && Apart(temp, inbox) && Apart(temp, parts) && Apart(inbox, parts)
    requires GoodFrame(c) && RoomFor(inbox.frames, |c|) && Lookable(inbox.frames)
    requires ProperEntries(es) && MergeOf(es, was) == Halves(temp.frames, inbox.frames)
    modifies temp, temp.buffer, temp.buffer.data, inbox, inbox.buffer.data, parts, parts.buffer, parts.buffer.data
    ensures temp.buffer.data == old(temp.buffer.data) || fresh(temp.buffer.data)
    ensures parts.buffer.data == old(parts.buffer.data) || fresh(parts.buffer.data)
    ensures temp.Valid() && inbox.Valid() && IsPartials(parts) && Apart(temp, parts)
    ensures ok <==> IsWhole(c) || !Completes(c) || !Misread(before, MergeOf(es, was), FullSize(c))
    ensures Taken(old(parts.frames), c, parts.frames, out)
    ensures ok ==> ProperEntries(es + EntryOf(c, out)) && MergeOf(es + EntryOf(c, out), was) == Halves(temp.frames, inbox.frames)
    ensures ok ==> forall n: nat :: RoomFor(old(inbox.frames), n) ==> RoomFor(inbox.frames, n)
  {
    if WordAt(c, MEM_SIZE) == WordAt(c, FULL_MEM_SIZE) {
      MergeWhole(temp, inbox, c, es, was);
      ok, out := true, [c];
    } else {
      ok, out := MergeChunk(temp, inbox, parts, c, before, es, was);
    }
  }

  lemma MisreadStays(before: seq<Byte>, message: seq<Frame>, outs: seq<seq<Frame>>, more: seq<seq<Frame>>, i: nat, was: seq<Frame>)
    requires i < |message| && i <= |outs| && outs <= more
    ensures MisreadAt(before, message, outs, i, was) <==> MisreadAt(before, message, more, i, was)
  {
    EntriesOfPrefix(message, outs, more, i);
  }

  lemma NoneMisreadOn(before: seq<Byte>, message: seq<Frame>, outs: seq<seq<Frame>>, out: seq<Frame>, n: nat, was: seq<Frame>)
    requires n < |message| && |outs| == n && !MisreadAt(before, message, outs, n, was)
    requires forall i: nat :: i < n ==> !MisreadAt(before, message, outs, i, was)
    ensures forall i: nat :: i < n + 1 ==> !MisreadAt(before, message, outs + [out], i, was)
  {
    forall i: nat | i < n + 1 ensures !MisreadAt(before, message, outs + [out], i, was) {
      MisreadStays(before, message, outs, outs + [out], i, was);
    }
  }

  lemma EntriesOn(message: seq<Frame>, outs: seq<seq<Frame>>, out: seq<Frame>, n: nat)
    requires n < |message| && |outs| == n
    ensures Entries(message, outs + [out], n + 1) == Entries(message, outs, n) + EntryOf(message[n], out)
  {
    EntriesOfPrefix(message, outs, outs + [out], n);
  }

  lemma MergedToOn(before: seq<Byte>, message: seq<Frame>, tr: Trace, n: nat, was: seq<Frame>, m: Halves, now: seq<Frame>,
                   out: seq<Frame>, next: Halves, grown: Trace)
    requires n < |message| && MergedTo(before, message, tr, n, was, m) && Taken(tr.parts[n], message[n], now, out)
    requires !MisreadAt(before, message, tr.outs, n, was)
    requires var es := Entries(message, tr.outs, n) + EntryOf(message[n], out); ProperEntries(es) && next == MergeOf(es, was)
    requires grown == Trace(tr.parts + [now], tr.outs + [out])
    ensures MergedTo(before, message, grown, n + 1, was, next)
  {
    TakenToOn(message, tr, n, now, out, grown);
    EntriesOn(message, tr.outs, out, n);
    NoneMisreadOn(before, message, tr.outs, out, n, was);
  }

  /** One turn of the loop over the reply. */
  method MergeTurn(temp: FrameBuffer, inbox: FrameBuffer, parts: FrameBuffer, reply: FrameBuffer, before: seq<Byte>, off: nat,
                   ghost message: seq<Frame>, ghost n: nat, ghost was: seq<Frame>, ghost tr: Trace)
    returns (ok: bool, next: nat, ghost grown: Trace)
    requires AllApart(temp, inbox, parts, reply) && MergeLoop(temp, inbox, parts, reply, before, message, n, off, was, tr)
    requires n < |message|
    modifies temp, temp.buffer, temp.buffer.data, inbox, inbox.buffer.data, parts, parts.buffer, parts.buffer.data
    ensures temp.buffer.data == old(temp.buffer.data) || fresh(temp.buffer.data)
    ensures parts.buffer.data == old(parts.buffer.data) || fresh(parts.buffer.data)
    ensures temp.Valid() && inbox.Valid() && IsPartials(parts) && AllApart(temp, inbox, parts, reply)
    ensures ok <==> !MisreadAt(before, message, tr.outs, n, was)
    ensures ok ==> MergeLoop(temp, inbox, parts, reply, before, message, n + 1, next, was, grown) && grown.parts[0] == tr.parts[0]
  {
    assert message[n] in message;
    GoodIsOk(message, inbox.frames);
    ghost var es, m := Entries(message, tr.outs, n), Halves(temp.frames, inbox.frames);
    MergeOfMerges(es, was);
    var size := reply.SizeOf(off, n);
    var c := reply.Get(off, size, n);
    ghost var out;
    ok, out := MergeOrTake(temp, inbox, parts, c, before, es, was);
    next := off + size;
    grown := Trace(tr.parts + [parts.frames], tr.outs + [out]);
    if ok {
      MergedToOn(before, message, tr, n, was, m, parts.frames, out, Halves(temp.frames, inbox.frames), grown);
      FlattenAt(message, n);
      AtEnd(reply.buffer.Bytes(), reply.start, message, n + 1);
    }
  }

  /** One old command: it goes behind the new ones if it is not unmarked. */
  method KeepOne(temp: FrameBuffer, inbox: FrameBuffer, off: nat, ghost n: nat) returns (next: nat)
    requires temp.Valid() && inbox.Valid() && Apart(temp, inbox) && AllOk(inbox.frames)
    requires n < |inbox.frames| && off == inbox.start + Off(inbox.frames, n)
    modifies temp, temp.buffer, temp.buffer.data
    ensures temp.Valid() && inbox.Valid() && (temp.buffer.data == old(temp.buffer.data) || fresh(temp.buffer.data))
    ensures temp.frames == old(temp.frames) + LiveOf(inbox.frames[n])
    ensures next == inbox.start + Off(inbox.frames, n + 1) && (next < inbox.buffer.dataSize <==> n + 1 < |inbox.frames|)
  {
    assert inbox.frames[n] in inbox.frames;
    var size := inbox.SizeOf(off, n);
    var f := inbox.Get(off, size, n);
    FlattenAt(inbox.frames, n);
    next := off + size;
    AtEnd(inbox.buffer.Bytes(), inbox.start, inbox.frames, n + 1);
    if WordAt(f, CMD) != 0 {
      temp.Append(f);
    }
  }

  /** The last part: the old commands that are not unmarked go behind the new ones. */
  method KeepLive(temp: FrameBuffer, inbox: FrameBuffer)
    requires temp.Valid() && inbox.Valid() && Apart(temp, inbox) && Lookable(inbox.frames)
    modifies temp, temp.buffer, temp.buffer.data
    ensures temp.Valid() && (temp.buffer.data == old(temp.buffer.data) || fresh(temp.buffer.data))
    ensures temp.frames == old(temp.frames) + Live(inbox.frames)
  {
    ghost var first, frames := temp.frames, inbox.frames;
    ghost var n: nat := 0;
    var off: nat := inbox.start;
    LookableAreOk(frames);
    AtEnd(inbox.buffer.Bytes(), inbox.start, frames, 0);
    assert frames[..0] == [];
    while off < inbox.buffer.dataSize
      invariant temp.Valid() && (temp.buffer.data == old(temp.buffer.data) || fresh(temp.buffer.data))
      invariant inbox.Valid() && inbox.frames == frames && n <= |frames| && off == inbox.start + Off(frames, n)
      invariant off < inbox.buffer.dataSize <==> n < |frames|
      invariant temp.frames == first + Live(frames[..n])
      decreases |frames| - n
    {
      off := KeepOne(temp, inbox, off, n);
      LiveOn(first, frames, n);
      n := n + 1;
    }
    WholePrefix(frames);
  }

  lemma LiveOn(first: seq<Frame>, frames: seq<Frame>, n: nat)
    requires n < |frames|
    ensures first + Live(frames[..n + 1]) == first + Live(frames[..n]) + LiveOf(frames[n])
  {
    PrefixSnoc(frames, n);
    CollectSnoc(frames[..n], frames[n], LiveOf);
  }

  /** The loop over the frames of a reply stopped at frame `n`, where a completed command is misread. */
  ghost predicate StopsAt(before: seq<Byte>, message: seq<Frame>, tr: Trace, was: seq<Frame>) {
    var n := |tr.outs|;
    n < |message| && TakenTo(message, tr, n) && MisreadAt(before, message, tr.outs, n, was)
    && forall i: nat :: i < n ==> !MisreadAt(before, message, tr.outs, i, was)
  }

  lemma LoopEnds(temp: FrameBuffer, inbox: FrameBuffer, parts: FrameBuffer, reply: FrameBuffer, before: seq<Byte>,
                 message: seq<Frame>, n: nat, off: nat, was: seq<Frame>, tr: Trace)
    requires MergeLoop(temp, inbox, parts, reply, before, message, n, off, was, tr) && off >= reply.buffer.dataSize
    ensures temp.Valid() && inbox.Valid() && IsPartials(parts) && n == |message| && tr.parts[n] == parts.frames
    ensures MergedTo(before, message, tr, |message|, was, Halves(temp.frames, inbox.frames))
  {
  }

  lemma LoopStops(temp: FrameBuffer, inbox: FrameBuffer, parts: FrameBuffer, reply: FrameBuffer, before: seq<Byte>,
                  message: seq<Frame>, n: nat, off: nat, was: seq<Frame>, tr: Trace)
    requires MergeLoop(temp, inbox, parts, reply, before, message, n, off, was, tr) && n < |message|
    ensures |tr.outs| == n
    ensures MisreadAt(before, message, tr.outs, n, was) ==> StopsAt(before, message, tr, was)
  {
  }

  /** The loop over the frames of a reply. */
  method MergeAll(temp: FrameBuffer, inbox: FrameBuffer, parts: FrameBuffer, reply: FrameBuffer, before: seq<Byte>)
    returns (ok: bool, ghost tr: Trace)
    requires temp.Valid() && inbox.Valid() && IsPartials(parts) && reply.Valid() && AllApart(temp, inbox, parts, reply)
    requires temp.frames == [] && Lookable(inbox.frames) && GoodReply(reply.frames, inbox.frames)
    modifies temp, temp.buffer, temp.buffer.data, inbox, inbox.buffer.data, parts, parts.buffer, parts.buffer.data
    ensures temp.Valid() && inbox.Valid() && (temp.buffer.data == old(temp.buffer.data) || fresh(temp.buffer.data))
    ensures IsPartials(parts) && (parts.buffer.data == old(parts.buffer.data) || fresh(parts.buffer.data))
    ensures Apart(temp, inbox) && Apart(temp, parts) && |tr.parts| > 0 && tr.parts[0] == old(parts.frames)
    ensures ok ==> MergedTo(before, reply.frames, tr, |reply.frames|, old(inbox.frames), Halves(temp.frames, inbox.frames))
    ensures ok ==> tr.parts[|reply.frames|] == parts.frames
    ensures !ok ==> StopsAt(before, reply.frames, tr, old(inbox.frames))
  {
    ghost var was, message := inbox.frames, reply.frames;
    ghost var n: nat := 0;
    var off: nat := reply.start;
    tr := Trace([parts.frames], []);
    LoopStarts(temp, inbox, parts, reply, before);
    ok := true;
    while off < reply.buffer.dataSize
      invariant temp.buffer.data == old(temp.buffer.data) || fresh(temp.buffer.data)
      invariant parts.buffer.data == old(parts.buffer.data) || fresh(parts.buffer.data)
      invariant AllApart(temp, inbox, parts, reply) && MergeLoop(temp, inbox, parts, reply, before, message, n, off, was, tr)
      invariant tr.parts[0] == old(parts.frames)
      decreases |message| - n
    {
      var next;
      ghost var grown;
      LoopStops(temp, inbox, parts, reply, before, message, n, off, was, tr);
      ok, next, grown := MergeTurn(temp, inbox, parts, reply, before, off, message, n, was, tr);
      if !ok {
        return;
      }
      off, tr, n := next, grown, n + 1;
    }
    LoopEnds(temp, inbox, parts, reply, before, message, n, off, was, tr);
  }

  /** What a reply makes of the inbox `was`, if none of the commands completed in it is misread. */
  ghost predicate Merges(before: seq<Byte>, was: seq<Frame>, message: seq<Frame>, tr: Trace, now: seq<Frame>) {
    && TakenAll(message, tr) && (forall i: nat :: i < |message| ==> !MisreadAt(before, message, tr.outs, i, was))
    && var es := Entries(message, tr.outs, |message|);
      ProperEntries(es) && MergedFrom(was, es, now)
  }

  method Finish(merged: FrameBuffer, inbox: FrameBuffer, ghost es: seq<Entry>, ghost was: seq<Frame>)
    requires merged.Valid() && inbox.Valid() && Apart(merged, inbox) && Lookable(was)
    requires ProperEntries(es) && MergeOf(es, was) == Halves(merged.frames, inbox.frames)
    modifies merged, merged.buffer, merged.buffer.data
    ensures merged.Valid() && (merged.buffer.data == old(merged.buffer.data) || fresh(merged.buffer.data))
    ensures merged.frames == MergedInbox(es, was) && Lookable(merged.frames) && MergedFrom(was, es, merged.frames)
  {
    MergeOfMerges(es, was);
    MergingEnds(es, was);
    KeepLive(merged, inbox);
  }

  /** A reply taken in: what came whole and what its last chunk completes is merged into the inbox, the other chunks go
      into the partial commands. `before` is what lies in memory in front of the first command of the new inbox. `ok` is
      false exactly if a completed command is misread: then the old inbox has a string stream, and where the completed
      command is looked for one is read too. */
  method MergeReply(inbox: FrameBuffer, parts: FrameBuffer, reply: FrameBuffer, before: seq<Byte>)
    returns (ok: bool, merged: FrameBuffer, ghost tr: Trace)
    requires inbox.Valid() && IsPartials(parts) && reply.Valid()
    requires Apart(inbox, parts) && Apart(inbox, reply) && Apart(parts, reply)
    requires Lookable(inbox.frames) && GoodReply(reply.frames, inbox.frames)
    modifies inbox, inbox.buffer.data, parts, parts.buffer, parts.buffer.data
    ensures fresh(merged) && fresh(merged.buffer) && fresh(merged.buffer.data) && merged.Valid() && merged.start == 18
    ensures IsPartials(parts) && (parts.buffer.data == old(parts.buffer.data) || fresh(parts.buffer.data))
    ensures |tr.parts| > 0 && tr.parts[0] == old(parts.frames)
    ensures !ok ==> StopsAt(before, reply.frames, tr, old(inbox.frames))
    ensures ok ==> Merges(before, old(inbox.frames), reply.frames, tr, merged.frames)
    ensures ok ==> merged.frames == MergedInbox(Entries(reply.frames, tr.outs, |reply.frames|), old(inbox.frames))
    ensures ok ==> tr.parts[|reply.frames|] == parts.frames && Lookable(merged.frames)
  {
    ghost var was := inbox.frames;
    merged := new FrameBuffer(inbox.buffer.data.Length, HEADER_SIZE);
    ok, tr := MergeAll(merged, inbox, parts, reply, before);
    if ok {
      Finish(merged, inbox, Entries(reply.frames, tr.outs, |reply.frames|), was);
    }
  }
}
