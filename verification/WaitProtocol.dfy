/** How a waiting caller and the communication thread of the remote API hand over to each other (extApi.c:315-334,
    378-418, 1706-1772, 1791-1906 and 2071-2080), as a state machine: one caller, the communication thread, two
    locks, and a server that replies to every message in turn. Nothing disconnects. */
module WaitProtocol {

  datatype Owner = Nobody | TheCaller | TheThread

  /** Where the caller stands. */
  datatype Caller =
    | Idle                                                                 // between calls
    | WantsQueue(key: int, append: bool, waits: bool)                      // a call: takes the resources
    | Queuing(key: int, append: bool, waits: bool)                         // puts the command into the outbox
    | WantsPoll(key: int)                                                  // wait loop: takes the resources
    | Polling(key: int)                                                    // copies the last received id
    | Polled(key: int, copy: int)                                          // enough, timeout, or once more
    | WantsFetch(key: int, asked: int, timedOut: bool)                     // takes the resources
    | Fetching(key: int, asked: int, timedOut: bool)                       // reads the inbox, waits no more

  /** Where the communication thread stands. */
  datatype Thread =
    | Check                              // takes the resources
    | Checking                           // copies the wait field
    | Test(copy: int)                    // is somebody waiting, and is there an inbox?
    | Spin                               // takes the resources
    | Spinning                           // copies the wait field
    | SpinTest(copy: int)                // not answered yet, or nobody waits any more?
    | WantsStart                         // takes the send-start lock
    | WantsSend                          // takes the resources
    | Sending                            // gives the send-start lock back
    | Packing                            // empties the outbox into the next message
    | Awaiting(id: int)                  // receives the reply
    | WantsMerge(id: int, named: bool)   // takes the resources
    | Merging(id: int, named: bool)      // merges the reply into the inbox

  /** A command put into the outbox when the next message was `id`, in the pause `pause` or (0) in none. */
  datatype Queued = Queued(key: int, id: int, pause: nat)

  /** A fetch: the message id waited for, or -1; whether the timeout flag was set; whether communication was paused;
      the messages whose non-empty reply the inbox it read had merged. */
  datatype Fetch = Fetch(key: int, asked: int, timedOut: bool, paused: bool, merged: set<int>)

  /** The fields of one client, then what happened so far: the messages sent, the commands queued, the number of
      pauses, the messages with a non-empty reply merged into the inbox, and the fetches. */
  datatype State = State(
    resources: Owner, start: Owner, depth: nat, outbox: seq<int>, nextId: int, lastReceived: int, wait: int,
    inboxFilled: bool, caller: Caller, thread: Thread,
    sent: seq<seq<int>>, queued: seq<Queued>, pause: nat, merged: set<int>, fetched: seq<Fetch>)

  /** As `simxStart` leaves it. */
  predicate Init(s: State) {
    && s.resources == s.start == Nobody && s.depth == 0 && s.outbox == [] && s.nextId == 0 && s.lastReceived == -1
    && s.wait == -1 && !s.inboxFilled && s.caller == Idle && s.thread == Check
    && s.sent == [] && s.queued == [] && s.pause == 0 && s.merged == {} && s.fetched == []
  }

  // ---------- the caller ----------

  function Takes(s: State, c: Caller): State {
    s.(resources := TheCaller, caller := c)
  }

  /** `simxPauseCommunication` with a pause: the send-start lock is recursive. */
  function Paused(s: State): State {
    s.(start := TheCaller, depth := s.depth + 1, pause := if s.depth == 0 then s.pause + 1 else s.pause)
  }

  function Resumed(s: State): State
    requires s.depth > 0
  {
    s.(depth := s.depth - 1, start := if s.depth == 1 then Nobody else TheCaller)
  }

  /** A command that is already in the outbox is put there again only if it must not be overwritten. */
  function Put(outbox: seq<int>, key: int, append: bool): seq<int> {
    if key !in outbox || append then outbox + [key] else outbox
  }

  function Enqueued(s: State, key: int, append: bool, waits: bool): State {
    var wait := if waits then s.nextId else s.wait;
    s.(resources := Nobody, outbox := Put(s.outbox, key, append), wait := wait,
    caller := if wait != -1 then WantsPoll(key) else WantsFetch(key, wait, false),
    queued := s.queued + [Queued(key, s.nextId, if s.depth > 0 then s.pause else 0)])
  }

  function FetchDone(s: State, key: int, asked: int, timedOut: bool): State {
    s.(resources := Nobody, wait := -1, caller := Idle,
    fetched := s.fetched + [Fetch(key, asked, timedOut, s.depth > 0, s.merged)])
  }

  predicate IdleStep(s: State, s': State) {
    || (s'.caller.WantsQueue? && s' == s.(caller := s'.caller))
    || (s'.caller.WantsFetch? && s' == s.(caller := WantsFetch(s'.caller.key, -1, false)))
    || (s.start != TheThread && s' == Paused(s))
    || (s.depth > 0 && s' == Resumed(s))
  }

  predicate CallerStep(s: State, s': State) {
    match s.caller
    case Idle => IdleStep(s, s')
    case WantsQueue(key, append, waits) => s.resources == Nobody && s' == Takes(s, Queuing(key, append, waits))
    case Queuing(key, append, waits) => s' == Enqueued(s, key, append, waits)
    case WantsPoll(key) => s.resources == Nobody && s' == Takes(s, Polling(key))
    case Polling(key) => s' == s.(resources := Nobody, caller := Polled(key, s.lastReceived))
    case Polled(key, copy) =>
      || (copy >= s.wait && s' == s.(caller := WantsFetch(key, s.wait, false)))
      || (copy < s.wait && s' == s.(caller := WantsFetch(key, s.wait, true)))
      || (copy < s.wait && s' == s.(caller := WantsPoll(key)))
    case WantsFetch(key, asked, timedOut) => s.resources == Nobody && s' == Takes(s, Fetching(key, asked, timedOut))
    case Fetching(key, asked, timedOut) => s' == FetchDone(s, key, asked, timedOut)
  }

  // ---------- the communication thread ----------

  function TakesFor(s: State, c: Thread): State {
    s.(resources := TheThread, thread := c)
  }

  function Sent(s: State): State {
    s.(resources := Nobody, thread := Awaiting(s.nextId), outbox := [], nextId := s.nextId + 1,
    sent := s.sent + [s.outbox])
  }

  function Merged(s: State, id: int, named: bool): State {
    s.(resources := Nobody, thread := Check, inboxFilled := true, merged := s.merged + {id},
    lastReceived := if named then id else s.lastReceived)
  }

  /** The reply to message `id` is empty, or it names `id`, or it names no message (-1). */
  predicate ThreadStep(s: State, s': State) {
    match s.thread
    case Check => s.resources == Nobody && s' == TakesFor(s, Checking)
    case Checking => s' == s.(resources := Nobody, thread := Test(s.wait))
    case Test(copy) => s' == s.(thread := if copy != -1 && s.inboxFilled then Spin else WantsStart)
    case Spin => s.resources == Nobody && s' == TakesFor(s, Spinning)
    case Spinning => s' == s.(resources := Nobody, thread := SpinTest(s.wait))
    case SpinTest(copy) => s' == s.(thread := if s.lastReceived < s.wait || copy == -1 then WantsStart else Spin)
    case WantsStart => s.start == Nobody && s' == s.(start := TheThread, thread := WantsSend)
    case WantsSend => s.resources == Nobody && s' == TakesFor(s, Sending)
    case Sending => s' == s.(start := Nobody, thread := Packing)
    case Packing => s' == Sent(s)
    case Awaiting(id) => s' == s.(thread := Check) || exists named :: s' == s.(thread := WantsMerge(id, named))
    case WantsMerge(id, named) => s.resources == Nobody && s' == TakesFor(s, Merging(id, named))
    case Merging(id, named) => s' == Merged(s, id, named)
  }

  predicate Step(s: State, s': State) {
    CallerStep(s, s') || ThreadStep(s, s')
  }

  /** Any interleaving of the two. */
  predicate Path(path: seq<State>) {
    |path| > 0 && forall i, j {:trigger path[i], path[j]} :: 0 <= i && j == i + 1 < |path| ==> Step(path[i], path[j])
  }

  /** From the start. */
  predicate Run(run: seq<State>) {
    Path(run) && Init(run[0])
  }

  // ---------- the invariant ----------

  predicate LocksOk(s: State) {
    && (s.resources == TheCaller <==> s.caller.Queuing? || s.caller.Polling? || s.caller.Fetching?)
    && (s.resources == TheThread <==>
        s.thread.Checking? || s.thread.Spinning? || s.thread.Sending? || s.thread.Packing? || s.thread.Merging?)
    && (s.start == TheCaller <==> s.depth > 0)
    && (s.start == TheThread <==> s.thread.WantsSend? || s.thread.Sending?)
    && (s.depth > 0 ==> s.pause > 0)
  }

  /** The thread is between the reply to the last message and the next check that lets it go on, having seen that
      somebody waits. */
  predicate HeldBack(s: State) {
    s.thread.Check? || s.thread.Checking? || s.thread == Test(s.wait)
    || s.thread.Spin? || s.thread.Spinning? || s.thread == SpinTest(s.wait)
  }

  predicate IdsOk(s: State) {
    && -1 <= s.lastReceived < s.nextId && -1 <= s.wait <= s.nextId == |s.sent|
    && (forall k :: k in s.merged ==> 0 <= k < s.nextId)
    && (s.lastReceived != -1 ==> s.inboxFilled && s.lastReceived in s.merged)
    && (s.thread.Awaiting? || s.thread.WantsMerge? || s.thread.Merging? ==> s.thread.id == s.nextId - 1 >= 0)
    && (s.wait != -1 && s.wait <= s.lastReceived ==> HeldBack(s))
  }

  predicate WaitOk(s: State) {
    match s.caller
    case Idle | WantsQueue(_, _, _) | Queuing(_, _, _) => s.wait == -1
    case WantsPoll(_) | Polling(_) => s.wait != -1
    case Polled(_, copy) => s.wait != -1 && copy <= s.lastReceived
    case WantsFetch(_, _, _) | Fetching(_, _, _) =>
      && s.wait == s.caller.asked
      && (s.wait != -1 && !s.caller.timedOut ==> s.wait <= s.lastReceived)
  }

  /** A queued command waits in the outbox for the message that was next, and then it is in that message. */
  predicate QueuedOk(s: State, q: Queued)
    requires s.nextId == |s.sent|
  {
    && 0 <= q.id <= s.nextId && q.pause <= s.pause
    && q.key in (if q.id < s.nextId then s.sent[q.id] else s.outbox)
    && (s.depth > 0 && q.pause == s.pause ==> q.id == s.nextId && !s.thread.Packing?)
  }

  predicate LogOk(s: State)
    requires s.nextId == |s.sent|
  {
    && (forall q :: q in s.queued ==> QueuedOk(s, q))
    && (forall q, r :: q in s.queued && r in s.queued && q.pause == r.pause > 0 ==> q.id == r.id)
    && (forall c :: c in s.outbox ==> exists q :: q in s.queued && q.key == c && q.id == s.nextId)
    && (forall k, c :: 0 <= k < s.nextId && c in s.sent[k] ==> exists q :: q in s.queued && q.key == c && q.id == k)
  }

  /** The call that waits has queued its command for the message it waits for, in the pause it is in. */
  predicate CallOk(s: State) {
    s.wait != -1 ==>
      && !s.caller.Idle? && Queued(s.caller.key, s.wait, if s.depth > 0 then s.pause else 0) in s.queued
  }

  predicate FetchOk(s: State, f: Fetch) {
    && (f.asked != -1 ==> exists q :: q in s.queued && q.key == f.key && q.id == f.asked)
    && (f.asked != -1 && !f.timedOut ==> f.asked < s.nextId && exists k :: k in f.merged && f.asked <= k < s.nextId)
    && (f.asked != -1 && f.paused ==> f.timedOut)
  }

  predicate Inv(s: State) {
    && LocksOk(s) && IdsOk(s) && WaitOk(s) && LogOk(s) && CallOk(s)
    && forall f :: f in s.fetched ==> FetchOk(s, f)
  }

  lemma CallerKeepsLocks(s: State, s': State)
    requires LocksOk(s) && CallerStep(s, s')
    ensures LocksOk(s')
  {
  }

  lemma CallerKeepsIds(s: State, s': State)
    requires IdsOk(s) && WaitOk(s) && CallerStep(s, s')
    ensures IdsOk(s')
  {
  }

  lemma CallerKeepsWait(s: State, s': State)
    requires IdsOk(s) && WaitOk(s) && CallerStep(s, s')
    ensures WaitOk(s')
  {
  }

  lemma SameLog(s: State, s': State)
    requires s.nextId == |s.sent| && LogOk(s)
    requires s'.sent == s.sent && s'.queued == s.queued && s'.outbox == s.outbox && s'.nextId == s.nextId
    requires s.pause <= s'.pause
    requires s'.depth > 0 && s'.pause == s.pause ==> s.depth > 0 && (s'.thread.Packing? ==> s.thread.Packing?)
    ensures LogOk(s')
  {
  }

  lemma EnqueuedKeepsLog(s: State, key: int, append: bool, waits: bool)
    requires LocksOk(s) && s.nextId == |s.sent| && LogOk(s) && s.caller.Queuing?
    ensures LogOk(Enqueued(s, key, append, waits))
  {
    var s' := Enqueued(s, key, append, waits);
    var q := s'.queued[|s.queued|];
    forall c | c in s'.outbox ensures exists q :: q in s'.queued && q.key == c && q.id == s'.nextId {
      if c == key {
        assert q in s'.queued;
      }
    }
  }

  lemma CallerKeepsLog(s: State, s': State)
    requires LocksOk(s) && IdsOk(s) && LogOk(s) && CallerStep(s, s')
    ensures s'.nextId == |s'.sent| && LogOk(s')
  {
    if s.caller.Queuing? {
      EnqueuedKeepsLog(s, s.caller.key, s.caller.append, s.caller.waits);
    } else {
      SameLog(s, s');
    }
  }

  lemma CallerKeepsCall(s: State, s': State)
    requires LocksOk(s) && WaitOk(s) && CallOk(s) && CallerStep(s, s')
    ensures CallOk(s')
  {
  }

  lemma CallerKeepsFetches(s: State, s': State)
    requires LocksOk(s) && IdsOk(s) && WaitOk(s) && LogOk(s) && CallOk(s) && CallerStep(s, s')
    requires forall f :: f in s.fetched ==> FetchOk(s, f)
    ensures forall f :: f in s'.fetched ==> FetchOk(s', f)
  {
  }

  lemma ThreadKeepsLocks(s: State, s': State)
    requires LocksOk(s) && ThreadStep(s, s')
    ensures LocksOk(s')
  {
  }

  lemma ThreadKeepsIds(s: State, s': State)
    requires IdsOk(s) && WaitOk(s) && ThreadStep(s, s')
    ensures IdsOk(s')
  {
  }

  lemma ThreadKeepsWait(s: State, s': State)
    requires IdsOk(s) && WaitOk(s) && ThreadStep(s, s')
    ensures WaitOk(s')
  {
  }

  lemma SentKeepsLog(s: State)
    requires LocksOk(s) && s.nextId == |s.sent| && LogOk(s) && s.thread.Packing?
    ensures LogOk(Sent(s))
  {
  }

  lemma ThreadKeepsLog(s: State, s': State)
    requires LocksOk(s) && IdsOk(s) && LogOk(s) && ThreadStep(s, s')
    ensures s'.nextId == |s'.sent| && LogOk(s')
  {
    if s.thread.Packing? {
      SentKeepsLog(s);
    } else {
      SameLog(s, s');
    }
  }

  lemma ThreadKeepsCall(s: State, s': State)
    requires LocksOk(s) && WaitOk(s) && CallOk(s) && ThreadStep(s, s')
    ensures CallOk(s')
  {
  }

  lemma ThreadKeepsFetches(s: State, s': State)
    requires LocksOk(s) && IdsOk(s) && WaitOk(s) && LogOk(s) && CallOk(s) && ThreadStep(s, s')
    requires forall f :: f in s.fetched ==> FetchOk(s, f)
    ensures forall f :: f in s'.fetched ==> FetchOk(s', f)
  {
  }


  lemma StepKeepsInv(s: State, s': State)
    requires Inv(s) && Step(s, s')
    ensures Inv(s')
  {
    if CallerStep(s, s') {
      CallerKeepsLocks(s, s');
      CallerKeepsIds(s, s');
      CallerKeepsWait(s, s');
      CallerKeepsLog(s, s');
      CallerKeepsCall(s, s');
      CallerKeepsFetches(s, s');
    } else {
      ThreadKeepsLocks(s, s');
      ThreadKeepsIds(s, s');
      ThreadKeepsWait(s, s');
      ThreadKeepsLog(s, s');
      ThreadKeepsCall(s, s');
      ThreadKeepsFetches(s, s');
    }
  }

  lemma {:induction false} RunKeepsInv(run: seq<State>, k: nat)
    requires Run(run) && k < |run|
    ensures Inv(run[k])
  {
    if k > 0 {
      var j := k - 1;
      RunKeepsInv(run, j);
      assert Step(run[j], run[k]);
      StepKeepsInv(run[j], run[k]);
    }
  }

  // ---------- a queued command goes out ----------

  lemma StepRemembers(s: State, s': State)
    requires Step(s, s')
    ensures s.queued <= s'.queued && s.fetched <= s'.fetched
  {
  }

  lemma {:induction false} RunRemembers(run: seq<State>, i: nat, k: nat)
    requires Run(run) && i <= k < |run|
    ensures run[i].queued <= run[k].queued && run[i].fetched <= run[k].fetched
  {
    if i < k {
      var j := k - 1;
      RunRemembers(run, i, j);
      assert Step(run[j], run[k]);
      StepRemembers(run[j], run[k]);
    }
  }

  /** A command queued while the next message is n goes out in message n: from then on it is in the outbox until
      message n is sent, and in message n ever after. */
  lemma QueuedGoesOut(run: seq<State>, i: nat, k: nat)
    requires Run(run) && i < k < |run| && run[i].caller.Queuing? && CallerStep(run[i], run[i + 1])
    ensures 0 <= run[i].nextId <= run[k].nextId == |run[k].sent|
    ensures run[k].nextId == run[i].nextId ==> run[i].caller.key in run[k].outbox
    ensures run[k].nextId > run[i].nextId ==> run[i].caller.key in run[k].sent[run[i].nextId]
  {
    var j := i + 1;
    RunKeepsInv(run, k);
    RunRemembers(run, j, k);
    var q := run[j].queued[|run[i].queued|];
    assert q in run[k].queued;
  }

  /** No message holds anything else. */
  lemma OnlyQueuedGoesOut(run: seq<State>, k: nat, n: nat, key: int)
    requires Run(run) && k < |run| && n < |run[k].sent| && key in run[k].sent[n]
    ensures exists q :: q in run[k].queued && q.key == key && q.id == n
  {
    RunKeepsInv(run, k);
  }

  /** All that is queued during one pause goes out in one message. */
  lemma OnePauseOneMessage(run: seq<State>, k: nat, q: Queued, r: Queued)
    requires Run(run) && k < |run| && q in run[k].queued && r in run[k].queued && q.pause == r.pause > 0
    ensures q.id == r.id
  {
    RunKeepsInv(run, k);
  }

  // ---------- a waiting call gets its answer ----------

  /** A call that waited and ended without the timeout flag read an inbox into which the reply to message n or to a
      later one had been merged, where message n carried the command; and while communication is paused no such call
      ends without the flag. */
  lemma WaitIsAnswered(run: seq<State>, k: nat, f: Fetch)
    requires Run(run) && k < |run| && f in run[k].fetched && f.asked != -1
    ensures !f.timedOut ==> 0 <= f.asked < |run[k].sent| && f.key in run[k].sent[f.asked]
    ensures !f.timedOut ==> exists id :: id in f.merged && f.asked <= id < |run[k].sent|
    ensures f.paused ==> f.timedOut
  {
    RunKeepsInv(run, k);
  }

  lemma HeldStaysHeld(s: State, s': State)
    requires Inv(s) && Step(s, s') && s.wait != -1 && s.wait <= s.lastReceived && |s'.fetched| == |s.fetched|
    ensures s'.sent == s.sent && s'.wait == s.wait && s'.lastReceived == s.lastReceived
  {
  }

  /** Once a reply to the message that is waited for has arrived, nothing is sent and nothing is merged until the
      caller has fetched. */
  lemma {:induction false} NoSendBeforeFetch(run: seq<State>, i: nat, k: nat)
    requires Run(run) && i <= k < |run| && run[i].wait != -1 && run[i].wait <= run[i].lastReceived
    requires |run[k].fetched| == |run[i].fetched|
    ensures run[k].sent == run[i].sent && run[k].wait == run[i].wait && run[k].lastReceived == run[i].lastReceived
  {
    if i < k {
      var j := k - 1;
      assert Step(run[j], run[k]);
      StepRemembers(run[j], run[k]);
      RunRemembers(run, i, j);
      NoSendBeforeFetch(run, i, j);
      RunKeepsInv(run, j);
      HeldStaysHeld(run[j], run[k]);
    }
  }

  // ---------- the two never wait for each other ----------

  predicate InWaitLoop(s: State) {
    s.caller.WantsPoll? || s.caller.Polling? || s.caller.Polled?
  }

  /** What happens if the caller lets go of the resources and then the thread goes on, with a reply that names its
      message. */
  function Onward(s: State): State {
    if s.caller.Polling? then s.(resources := Nobody, caller := Polled(s.caller.key, s.lastReceived))
    else match s.thread
    case Check => TakesFor(s, Checking)
    case Checking => s.(resources := Nobody, thread := Test(s.wait))
    case Test(copy) => s.(thread := if copy != -1 && s.inboxFilled then Spin else WantsStart)
    case Spin => TakesFor(s, Spinning)
    case Spinning => s.(resources := Nobody, thread := SpinTest(s.wait))
    case SpinTest(copy) => s.(thread := if s.lastReceived < s.wait || copy == -1 then WantsStart else Spin)
    case WantsStart => s.(start := TheThread, thread := WantsSend)
    case WantsSend => TakesFor(s, Sending)
    case Sending => s.(start := Nobody, thread := Packing)
    case Packing => Sent(s)
    case Awaiting(id) => s.(thread := WantsMerge(id, true))
    case WantsMerge(id, named) => TakesFor(s, Merging(id, named))
    case Merging(id, named) => Merged(s, id, named)
  }

  /** An upper bound on the steps to the answer. */
  function Rank(s: State): nat {
    var early := match s.thread
      case Awaiting(id) => id < s.wait
      case WantsMerge(id, named) => id < s.wait || !named
      case Merging(id, named) => id < s.wait || !named
      case _ => false;
    var place := match s.thread
      case Check => 13 case Checking => 12 case Test(_) => 11 case Spin => 10 case Spinning => 9 case SpinTest(_) => 8
      case WantsStart => 7 case WantsSend => 6 case Sending => 5 case Packing => 4
      case Awaiting(_) => 3 case WantsMerge(_, _) => 2 case Merging(_, _) => 1;
    2 * (if early then place + 20 else place) + (if s.caller.Polling? then 1 else 0)
  }

  lemma OnwardSteps(s: State)
    requires Inv(s) && InWaitLoop(s) && s.depth == 0 && s.lastReceived < s.wait
    ensures Step(s, Onward(s))
  {
  }

  lemma OnwardNearer(s: State)
    requires Inv(s) && InWaitLoop(s) && s.depth == 0 && s.lastReceived < s.wait
    ensures InWaitLoop(Onward(s)) && Onward(s).depth == 0 && Onward(s).wait == s.wait
    ensures Onward(s).lastReceived >= s.wait || Rank(Onward(s)) < Rank(s)
  {
  }

  lemma {:induction false} AnswerFrom(s: State) returns (path: seq<State>)
    requires Inv(s) && InWaitLoop(s) && s.depth == 0
    ensures Path(path) && path[0] == s
    ensures var last := path[|path| - 1]; InWaitLoop(last) && last.wait == s.wait <= last.lastReceived
    decreases Rank(s)
  {
    if s.wait <= s.lastReceived {
      path := [s];
    } else {
      OnwardSteps(s);
      OnwardNearer(s);
      StepKeepsInv(s, Onward(s));
      if Onward(s).lastReceived >= s.wait {
        path := [s, Onward(s)];
      } else {
        var rest := AnswerFrom(Onward(s));
        path := [s] + rest;
      }
    }
  }

  /** From every state in which a call waits and communication is not paused, the answer can still arrive before any
      timeout: caller and thread never wait for each other. */
  lemma AnswerCanArrive(run: seq<State>, k: nat) returns (path: seq<State>)
    requires Run(run) && k < |run| && InWaitLoop(run[k]) && run[k].depth == 0
    ensures Path(path) && path[0] == run[k]
    ensures var last := path[|path| - 1]; InWaitLoop(last) && last.wait == run[k].wait <= last.lastReceived
  {
    RunKeepsInv(run, k);
    path := AnswerFrom(run[k]);
  }

  // ---------- a call comes to its end ----------

  /** The caller with the answer there: it reads the id, leaves the wait loop and fetches. */
  function Onto(s: State): State {
    match s.caller
    case WantsPoll(key) => Takes(s, Polling(key))
    case Polling(key) => s.(resources := Nobody, caller := Polled(key, s.lastReceived))
    case Polled(key, copy) => s.(caller := if copy >= s.wait then WantsFetch(key, s.wait, false) else WantsPoll(key))
    case WantsFetch(key, asked, timedOut) => Takes(s, Fetching(key, asked, timedOut))
    case Fetching(key, asked, timedOut) => FetchDone(s, key, asked, timedOut)
    case _ => s
  }

  /** The call waits for an answer that is there, or is about to fetch it. */
  predicate IsAnswered(s: State, key: int, asked: int) {
    && s.depth == 0 && asked == s.wait != -1 && s.wait <= s.lastReceived
    && match s.caller
       case WantsPoll(k) => k == key
       case Polling(k) => k == key
       case Polled(k, _) => k == key
       case WantsFetch(k, a, timedOut) => k == key && a == asked && !timedOut
       case Fetching(k, a, timedOut) => k == key && a == asked && !timedOut
       case _ => false
  }

  /** How far the call is from its end. */
  function CallRank(s: State): nat {
    var hold := match s.thread case Sending => 2 case Checking | Spinning | Packing | Merging(_, _) => 1 case _ => 0;
    hold + 3 * match s.caller
      case Polled(_, copy) => if copy >= s.wait then 3 else 6
      case WantsPoll(_) => 5
      case Polling(_) => 4
      case WantsFetch(_, _, _) => 2
      case Fetching(_, _, _) => 1
      case _ => 0
  }

  /** The thread gives the resources back, or else the caller goes on. */
  function Closer(s: State): State {
    if s.resources == TheThread then Onward(s.(caller := Idle)).(caller := s.caller) else Onto(s)
  }

  lemma CloserSteps(s: State, key: int, asked: int)
    requires Inv(s) && IsAnswered(s, key, asked)
    ensures Step(s, Closer(s))
    ensures if s.caller.Fetching? && s.resources != TheThread
            then Closer(s).fetched == s.fetched + [Fetch(key, asked, false, false, s.merged)] && Closer(s).caller == Idle
            else Closer(s).fetched == s.fetched && IsAnswered(Closer(s), key, asked) && CallRank(Closer(s)) < CallRank(s)
  {
  }

  lemma {:induction false} CallEndsFrom(s: State, key: int, asked: int) returns (path: seq<State>)
    requires Inv(s) && IsAnswered(s, key, asked)
    ensures Path(path) && path[0] == s
    ensures var last := path[|path| - 1]; last.caller == Idle && exists merged :: last.fetched == s.fetched + [Fetch(key, asked, false, false, merged)]
    decreases CallRank(s)
  {
    CloserSteps(s, key, asked);
    if s.caller.Fetching? && s.resources != TheThread {
      path := [s, Closer(s)];
    } else {
      StepKeepsInv(s, Closer(s));
      var rest := CallEndsFrom(Closer(s), key, asked);
      path := [s] + rest;
    }
  }

  /** And once it has arrived, also if just the message waited for was answered, the call can end with it, before any
      timeout. */
  lemma AnsweredCallCanEnd(run: seq<State>, k: nat) returns (path: seq<State>)
    requires Run(run) && k < |run| && InWaitLoop(run[k]) && run[k].depth == 0 && run[k].wait <= run[k].lastReceived
    ensures Path(path) && path[0] == run[k]
    ensures var last := path[|path| - 1];
      last.caller == Idle && exists merged :: last.fetched == run[k].fetched + [Fetch(run[k].caller.key, run[k].wait, false, false, merged)]
  {
    RunKeepsInv(run, k);
    path := CallEndsFrom(run[k], run[k].caller.key, run[k].wait);
  }

  // ---------- the thread goes on ----------

  /** How far the thread is from its next message. */
  function SendRank(s: State): nat {
    match s.thread
    case Awaiting(_) => 14 case WantsMerge(_, _) => 13 case Merging(_, _) => 12
    case Check => 11 case Checking => 10
    case Test(copy) => if copy != -1 && s.inboxFilled then 9 else 5
    case Spin => 8 case Spinning => 7 case SpinTest(copy) => if copy == -1 then 6 else 9
    case WantsStart => 4 case WantsSend => 3 case Sending => 2 case Packing => 1
  }

  lemma {:induction false} SendsFrom(s: State) returns (path: seq<State>)
    requires Inv(s) && s.caller == Idle && s.depth == 0
    ensures Path(path) && path[0] == s
    ensures var last := path[|path| - 1]; last.caller == Idle && last.sent == s.sent + [s.outbox] && last.outbox == []
    decreases SendRank(s)
  {
    var s' := Onward(s);
    assert ThreadStep(s, s');
    if s.thread.Packing? {
      path := [s, s'];
    } else {
      StepKeepsInv(s, s');
      var rest := SendsFrom(s');
      path := [s] + rest;
    }
  }

  /** Between calls, outside a pause, the thread can send its next message without the caller, and that message takes
      all of the outbox: also a thread that was waiting for the caller to fetch its answer notices that nobody waits any
      more. */
  lemma ThreadGoesOn(run: seq<State>, k: nat) returns (path: seq<State>)
    requires Run(run) && k < |run| && run[k].caller == Idle && run[k].depth == 0
    ensures Path(path) && path[0] == run[k]
    ensures var last := path[|path| - 1];
      last.caller == Idle && last.sent == run[k].sent + [run[k].outbox] && last.outbox == []
  {
    RunKeepsInv(run, k);
    path := SendsFrom(run[k]);
  }

  /** A pause inside a pause or outside one, once ended, leaves everything as it was but for the number of pauses. */
  lemma PauseCanEnd(run: seq<State>, k: nat) returns (path: seq<State>)
    requires Run(run) && k < |run| && run[k].caller == Idle && run[k].start != TheThread
    ensures Path(path) && |path| == 3 && path[0] == run[k]
    ensures path[1].start == TheCaller && path[1].depth == run[k].depth + 1
    ensures path[1].pause == if run[k].depth == 0 then run[k].pause + 1 else run[k].pause
    ensures path[2] == run[k].(pause := path[1].pause)
  {
    RunKeepsInv(run, k);
    var s := run[k];
    path := [s, Paused(s), Resumed(Paused(s))];
  }

  /** Whoever pauses can also end the pause. */
  lemma PauseEnds(run: seq<State>, k: nat) returns (s': State)
    requires Run(run) && k < |run| && run[k].caller == Idle && run[k].depth > 0
    ensures Step(run[k], s') && s'.depth == run[k].depth - 1
    ensures s' == run[k].(depth := s'.depth, start := s'.start) && (s'.start == Nobody <==> s'.depth == 0)
  {
    s' := Resumed(run[k]);
  }
}
