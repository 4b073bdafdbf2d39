/** The recursive lock built out of two plain mutexes (extApiPlatform.c): `extApi_lockResources` with
    `extApi_unlockResources`, and in the same way `extApi_lockSendStart` with `extApi_unlockSendStart`.
    Any number of threads run the two functions, one mutex or memory operation at a time. */
module RecursiveLocks {

  datatype Mutex = Free | Held(thread: nat)

  /** Where a thread stands: what its next operation is. */
  datatype Counter =
    | Outside          // not in a call
    | LockAux          // lock: take the auxiliary mutex
    | Test             // is the lock mine already?
    | Deepen           // yes: level++
    | ReleaseDeepened  //      give back the auxiliary mutex and return
    | Yield            // no: give back the auxiliary mutex
    | LockMain         //     take the main mutex
    | LockAuxAgain     //     take the auxiliary mutex
    | SetOwner         //     owner = me
    | SetLevel         //     level = 1
    | ReleaseFirst     //     give back the auxiliary mutex and return
    | UnlockAux        // unlock: take the auxiliary mutex
    | Lessen           // level--
    | TestLast         // was it the last level?
    | ReleaseLast      // yes: give back the auxiliary mutex
    | UnlockMain       //      give back the main mutex and return
    | ReleaseInner     // no: give back the auxiliary mutex and return

  /** `depth` counts, for every thread, the lock calls it has returned from less the unlock calls. */
  datatype State = State(aux: Mutex, main: Mutex, owner: nat, level: int, at: seq<Counter>, depth: seq<nat>)

  /** Both mutexes free, the level zero, nobody in a call. The owner field holds anything. */
  predicate Init(s: State) {
    && s.aux == s.main == Free && s.level == 0 && |s.at| == |s.depth|
    && forall t :: 0 <= t < |s.at| ==> s.at[t] == Outside && s.depth[t] == 0
  }

  function Goes(s: State, t: nat, c: Counter): State
    requires t < |s.at|
  {
    s.(at := s.at[t := c])
  }

  function Returns(s: State, t: nat, depth: nat): State
    requires t < |s.at| == |s.depth|
  {
    s.(at := s.at[t := Outside], depth := s.depth[t := depth])
  }

  /** One operation of thread `t`. A thread outside starts either call, but unlocks only what it has locked.
      `CanStepSteps` shows that the conditions on the depth never hold a returning thread up. */
  predicate Step(s: State, t: nat, s': State)
    requires |s.at| == |s.depth|
  {
    t < |s.at| && match s.at[t]
    case Outside => s' == Goes(s, t, LockAux) || (s.depth[t] > 0 && s' == Goes(s, t, UnlockAux))
    case LockAux => s.aux == Free && s' == Goes(s, t, Test).(aux := Held(t))
    case Test => s' == Goes(s, t, if s.owner == t && s.level > 0 then Deepen else Yield)
    case Deepen => s' == Goes(s, t, ReleaseDeepened).(level := s.level + 1)
    case ReleaseDeepened => s' == Returns(s, t, s.depth[t] + 1).(aux := Free)
    case Yield => s' == Goes(s, t, LockMain).(aux := Free)
    case LockMain => s.main == Free && s' == Goes(s, t, LockAuxAgain).(main := Held(t))
    case LockAuxAgain => s.aux == Free && s' == Goes(s, t, SetOwner).(aux := Held(t))
    case SetOwner => s' == Goes(s, t, SetLevel).(owner := t)
    case SetLevel => s' == Goes(s, t, ReleaseFirst).(level := 1)
    case ReleaseFirst => s' == Returns(s, t, s.depth[t] + 1).(aux := Free)
    case UnlockAux => s.aux == Free && s' == Goes(s, t, Lessen).(aux := Held(t))
    case Lessen => s' == Goes(s, t, TestLast).(level := s.level - 1)
    case TestLast => s' == Goes(s, t, if s.level == 0 then ReleaseLast else ReleaseInner)
    case ReleaseLast => s' == Goes(s, t, UnlockMain).(aux := Free)
    case UnlockMain => s.depth[t] > 0 && s' == Returns(s, t, s.depth[t] - 1).(main := Free)
    case ReleaseInner => s.depth[t] > 0 && s' == Returns(s, t, s.depth[t] - 1).(aux := Free)
  }

  // ---------- the invariant ----------

  predicate HoldsAux(c: Counter) {
    c.Test? || c.Deepen? || c.ReleaseDeepened? || c.Yield? || c.SetOwner? || c.SetLevel? || c.ReleaseFirst?
    || c.Lessen? || c.TestLast? || c.ReleaseLast? || c.ReleaseInner?
  }

  predicate Entering(c: Counter) {
    c.LockAuxAgain? || c.SetOwner? || c.SetLevel? || c.ReleaseFirst?
  }

  predicate Leaving(c: Counter) {
    c.UnlockAux? || c.Lessen? || c.TestLast? || c.ReleaseLast? || c.UnlockMain? || c.ReleaseInner?
  }

  /** How far the level is ahead of the depth of the thread inside. */
  function Ahead(c: Counter): int {
    match c
    case ReleaseDeepened | ReleaseFirst => 1
    case TestLast | ReleaseLast | UnlockMain | ReleaseInner => -1
    case _ => 0
  }

  /** What holds of one thread. */
  predicate ThreadOk(s: State, t: nat)
    requires t < |s.at| == |s.depth|
  {
    && (s.aux == Held(t) <==> HoldsAux(s.at[t]))
    && (s.main == Held(t) <==> s.depth[t] > 0 || Entering(s.at[t]))
    && (Entering(s.at[t]) || s.at[t].Yield? || s.at[t].LockMain? ==> s.depth[t] == 0)
    && (Leaving(s.at[t]) || s.at[t].Deepen? || s.at[t].ReleaseDeepened? ==> s.depth[t] > 0)
    && (s.main == Held(t) ==> s.level == s.depth[t] + Ahead(s.at[t]))
    && (s.main == Held(t) && (s.level > 0 || s.at[t].SetLevel?) ==> s.owner == t)
    && (s.at[t].ReleaseLast? || s.at[t].UnlockMain? ==> s.level == 0)
    && (s.at[t].ReleaseInner? ==> s.level > 0)
  }

  predicate Inv(s: State) {
    && |s.at| == |s.depth|
    && (forall t :: 0 <= t < |s.at| ==> ThreadOk(s, t))
    && (s.main == Free ==> s.level == 0)
    && (s.main.Held? ==> s.main.thread < |s.at|) && (s.aux.Held? ==> s.aux.thread < |s.at|)
  }

  lemma InitIsOk(s: State)
    requires Init(s)
    ensures Inv(s)
  {
  }

  /** A step of one thread keeps what holds of every other thread. */
  lemma OthersKeep(s: State, t: nat, s': State, u: nat)
    requires Inv(s) && Step(s, t, s') && u < |s.at| && u != t
    ensures |s'.at| == |s'.depth| == |s.at| && ThreadOk(s', u)
  {
    assert ThreadOk(s, t) && ThreadOk(s, u);
  }

  /** The level is positive and the owner is `t` exactly if `t` is the thread inside. */
  lemma TestTellsInside(s: State, t: nat)
    requires Inv(s) && t < |s.at| && s.at[t].Test?
    ensures s.owner == t && s.level > 0 <==> s.depth[t] > 0
  {
    assert ThreadOk(s, t);
    if s.main.Held? {
      assert ThreadOk(s, s.main.thread);
    }
  }

  lemma SelfKeepsLeaving(s: State, t: nat, s': State)
    requires Inv(s) && Step(s, t, s') && (Leaving(s.at[t]) || s.at[t].Outside?)
    ensures |s'.at| == |s'.depth| == |s.at| && ThreadOk(s', t)
  {
    assert ThreadOk(s, t);
  }

  lemma SelfKeepsEntering(s: State, t: nat, s': State)
    requires Inv(s) && Step(s, t, s') && (Entering(s.at[t]) || s.at[t].LockMain?)
    ensures |s'.at| == |s'.depth| == |s.at| && ThreadOk(s', t)
  {
    assert ThreadOk(s, t);
  }

  lemma SelfKeeps(s: State, t: nat, s': State)
    requires Inv(s) && Step(s, t, s')
    ensures |s'.at| == |s'.depth| == |s.at| && ThreadOk(s', t)
  {
    if Leaving(s.at[t]) || s.at[t].Outside? {
      SelfKeepsLeaving(s, t, s');
    } else if Entering(s.at[t]) || s.at[t].LockMain? {
      SelfKeepsEntering(s, t, s');
    } else {
      assert ThreadOk(s, t);
      if s.at[t].Test? {
        TestTellsInside(s, t);
      }
    }
  }

  lemma MutexesKeep(s: State, t: nat, s': State)
    requires Inv(s) && Step(s, t, s')
    ensures s'.main == Free ==> s'.level == 0
    ensures (s'.main.Held? ==> s'.main.thread < |s'.at|) && (s'.aux.Held? ==> s'.aux.thread < |s'.at|)
  {
    assert ThreadOk(s, t);
  }

  lemma StepKeepsInv(s: State, t: nat, s': State)
    requires Inv(s) && Step(s, t, s')
    ensures Inv(s')
  {
    SelfKeeps(s, t, s');
    MutexesKeep(s, t, s');
    forall u | 0 <= u < |s'.at| ensures ThreadOk(s', u) {
      if u != t {
        OthersKeep(s, t, s', u);
      }
    }
  }

  // ---------- whole runs ----------

  /** Any interleaving of the threads' operations, from the start. `who` made each step. */
  predicate Run(run: seq<State>, who: seq<nat>) {
    && |run| == |who| + 1 && Init(run[0])
    && (forall i :: 0 <= i < |run| ==> |run[i].at| == |run[i].depth|)
    && forall i :: 0 <= i < |who| ==> who[i] < |run[i].at| && Step(run[i], who[i], run[i + 1])
  }

  lemma {:induction false} RunsKeepInv(run: seq<State>, who: seq<nat>, i: nat)
    requires Run(run, who) && i < |run|
    ensures Inv(run[i])
  {
    if i == 0 {
      InitIsOk(run[0]);
    } else {
      RunsKeepInv(run, who, i - 1);
      StepKeepsInv(run[i - 1], who[i - 1], run[i]);
    }
  }

  /** At any time at most one thread is inside. The level is its nesting depth whenever it is not in a call,
      and the main mutex is then its own. */
  lemma MutualExclusion(run: seq<State>, who: seq<nat>, i: nat, t: nat)
    requires Run(run, who) && i < |run| && t < |run[i].at| && run[i].depth[t] > 0
    ensures forall u :: 0 <= u < |run[i].at| && u != t ==> run[i].depth[u] == 0
    ensures run[i].main == Held(t) && (run[i].at[t] == Outside ==> run[i].level == run[i].depth[t] && run[i].owner == t)
  {
    RunsKeepInv(run, who, i);
    assert ThreadOk(run[i], t);
    forall u | 0 <= u < |run[i].at| && u != t ensures run[i].depth[u] == 0 {
      assert ThreadOk(run[i], u);
    }
  }

  /** The main mutex is free exactly when nobody is inside and nobody is on the way in; so it is free again
      exactly when the call that releases the last level returns. */
  lemma MainIsFree(run: seq<State>, who: seq<nat>, i: nat)
    requires Run(run, who) && i < |run|
    ensures run[i].main == Free <==> forall t :: 0 <= t < |run[i].at| ==> run[i].depth[t] == 0 && !Entering(run[i].at[t])
    ensures i < |who| ==> (run[i].main != Free && run[i + 1].main == Free <==> run[i].at[who[i]] == UnlockMain)
    ensures i < |who| && run[i].at[who[i]] == UnlockMain ==> run[i].depth[who[i]] == 1
  {
    RunsKeepInv(run, who, i);
    var s := run[i];
    if s.main.Held? {
      assert ThreadOk(s, s.main.thread) && s.main == Held(s.main.thread);
      assert s.depth[s.main.thread] > 0 || Entering(s.at[s.main.thread]);
    } else {
      forall t | 0 <= t < |s.at| ensures s.depth[t] == 0 && !Entering(s.at[t]) {
        assert ThreadOk(s, t);
      }
    }
    if i < |who| {
      assert ThreadOk(s, who[i]) && Step(s, who[i], run[i + 1]);
    }
  }

  /** The holder of the lock never waits for the main mutex when it locks again. */
  lemma ReentryDoesNotWait(run: seq<State>, who: seq<nat>, i: nat, t: nat)
    requires Run(run, who) && i < |run| && t < |run[i].at| && run[i].depth[t] > 0
    ensures run[i].at[t] != Yield && run[i].at[t] != LockMain
    ensures i < |who| && who[i] == t && run[i].at[t] == Test ==> run[i + 1].at[t] == Deepen
  {
    RunsKeepInv(run, who, i);
    assert ThreadOk(run[i], t);
  }

  predicate CanStep(s: State, t: nat)
    requires t < |s.at|
  {
    match s.at[t]
    case LockAux | LockAuxAgain | UnlockAux => s.aux == Free
    case LockMain => s.main == Free
    case _ => true
  }

  lemma CanStepSteps(s: State, t: nat) returns (s': State)
    requires Inv(s) && t < |s.at| && CanStep(s, t)
    ensures Step(s, t, s')
  {
    assert ThreadOk(s, t);
    var d := s.depth[t];
    s' := match s.at[t]
      case Outside => Goes(s, t, LockAux)
      case LockAux => Goes(s, t, Test).(aux := Held(t))
      case Test => Goes(s, t, if s.owner == t && s.level > 0 then Deepen else Yield)
      case Deepen => Goes(s, t, ReleaseDeepened).(level := s.level + 1)
      case ReleaseDeepened => Returns(s, t, d + 1).(aux := Free)
      case Yield => Goes(s, t, LockMain).(aux := Free)
      case LockMain => Goes(s, t, LockAuxAgain).(main := Held(t))
      case LockAuxAgain => Goes(s, t, SetOwner).(aux := Held(t))
      case SetOwner => Goes(s, t, SetLevel).(owner := t)
      case SetLevel => Goes(s, t, ReleaseFirst).(level := 1)
      case ReleaseFirst => Returns(s, t, d + 1).(aux := Free)
      case UnlockAux => Goes(s, t, Lessen).(aux := Held(t))
      case Lessen => Goes(s, t, TestLast).(level := s.level - 1)
      case TestLast => Goes(s, t, if s.level == 0 then ReleaseLast else ReleaseInner)
      case ReleaseLast => Goes(s, t, UnlockMain).(aux := Free)
      case UnlockMain => Returns(s, t, d - 1).(main := Free)
      case ReleaseInner => Returns(s, t, d - 1).(aux := Free);
  }

  /** The two mutexes never block each other: whoever holds the auxiliary one can go on, and while it is free
      the threads in a call can go on too, but for those waiting for a main mutex that somebody has. */
  lemma NoDeadlock(run: seq<State>, who: seq<nat>, i: nat, t: nat)
    requires Run(run, who) && i < |run| && t < |run[i].at|
    ensures run[i].aux.Held? ==> run[i].aux.thread < |run[i].at| && CanStep(run[i], run[i].aux.thread)
    ensures run[i].aux == Free && !CanStep(run[i], t) ==>
      run[i].at[t] == LockMain && run[i].main.Held? && run[i].main.thread < |run[i].at| && run[i].main.thread != t && CanStep(run[i], run[i].main.thread)
  {
    RunsKeepInv(run, who, i);
    assert ThreadOk(run[i], t);
    if run[i].aux.Held? {
      assert ThreadOk(run[i], run[i].aux.thread);
    }
    if run[i].main.Held? {
      assert ThreadOk(run[i], run[i].main.thread);
    }
  }

  /** The abstract recursive lock: a thread goes one level deeper only while no other thread is inside. */
  predicate AbstractStep(d: seq<nat>, t: nat, d': seq<nat>) {
    || d' == d
    || (t < |d| && (forall u :: 0 <= u < |d| && u != t ==> d[u] == 0) && d' == d[t := d[t] + 1])
    || (t < |d| && d[t] > 0 && d' == d[t := d[t] - 1])
  }

  /** Every step of the two-mutex lock is a step of the abstract one, or changes nothing there. */
  lemma RefinesAbstractLock(run: seq<State>, who: seq<nat>, i: nat)
    requires Run(run, who) && i < |who|
    ensures AbstractStep(run[i].depth, who[i], run[i + 1].depth)
  {
    RunsKeepInv(run, who, i);
    var s, t := run[i], who[i];
    assert ThreadOk(s, t);
    forall u | 0 <= u < |s.at| && u != t && (s.depth[t] > 0 || Entering(s.at[t])) ensures s.depth[u] == 0 {
      assert ThreadOk(s, u);
    }
    assert s.at[t].ReleaseDeepened? || s.at[t].ReleaseFirst? ==> s.depth[t] > 0 || Entering(s.at[t]);
  }

  // ---------- what one call does ----------

  /** Thread `t` makes these steps and nobody else comes in between. */
  predicate Alone(path: seq<State>, t: nat) {
    && |path| > 0 && (forall s :: s in path ==> |s.at| == |s.depth|)
    && forall i, j {:trigger path[i], path[j]} :: 0 <= i && j == i + 1 < |path| ==> Step(path[i], t, path[j])
  }

  lemma OneStepOn(path: seq<State>, t: nat, next: State)
    requires Alone(path, t) && |next.at| == |next.depth| && Step(path[|path| - 1], t, next)
    ensures Alone(path + [next], t)
  {
  }

  /** `next` is `s` with thread `t` outside again at another depth, and nothing left behind. */
  predicate Came(s: State, t: nat, next: State, depth: int)
    requires t < |s.at| == |s.depth|
  {
    && next.at == s.at && depth >= 0 && next.depth == s.depth[t := depth] && next.aux == Free
    && next.main == (if depth == 0 then Free else Held(t)) && next.level == depth && (depth > 0 ==> next.owner == t)
  }

  /** An unlock call of the thread that is inside gives back one level, and the lock with the last. */
  lemma Unlocks(s: State, t: nat) returns (path: seq<State>)
    requires Inv(s) && t < |s.at| && s.at[t] == Outside && s.depth[t] > 0 && s.aux == Free
    ensures Alone(path, t) && path[0] == s && Came(s, t, path[|path| - 1], s.depth[t] - 1)
  {
    assert ThreadOk(s, t);
    var a := Goes(s, t, UnlockAux);
    var b := Goes(a, t, Lessen).(aux := Held(t));
    var c := Goes(b, t, TestLast).(level := b.level - 1);
    path := [s];
    OneStepOn(path, t, a);
    OneStepOn(path + [a], t, b);
    OneStepOn(path + [a] + [b], t, c);
    path := path + [a] + [b] + [c];
    if c.level == 0 {
      var d := Goes(c, t, ReleaseLast);
      var e := Goes(d, t, UnlockMain).(aux := Free);
      var f := Returns(e, t, e.depth[t] - 1).(main := Free);
      OneStepOn(path, t, d);
      OneStepOn(path + [d], t, e);
      OneStepOn(path + [d] + [e], t, f);
      path := path + [d] + [e] + [f];
    } else {
      var d := Goes(c, t, ReleaseInner);
      var e := Returns(d, t, d.depth[t] - 1).(aux := Free);
      OneStepOn(path, t, d);
      OneStepOn(path + [d], t, e);
      path := path + [d] + [e];
    }
    assert path[|path| - 1].at == s.at;
  }

  /** A lock call takes the thread one level deeper, if it is inside already or nobody has the lock. */
  lemma Locks(s: State, t: nat) returns (path: seq<State>)
    requires Inv(s) && t < |s.at| && s.at[t] == Outside && s.aux == Free && (s.depth[t] > 0 || s.main == Free)
    ensures Alone(path, t) && path[0] == s && Came(s, t, path[|path| - 1], s.depth[t] + 1)
  {
    assert ThreadOk(s, t);
    var a := Goes(s, t, LockAux);
    var b := Goes(a, t, Test).(aux := Held(t));
    path := [s];
    OneStepOn(path, t, a);
    OneStepOn(path + [a], t, b);
    path := path + [a] + [b];
    if s.depth[t] > 0 {
      var c := Goes(b, t, Deepen);
      var d := Goes(c, t, ReleaseDeepened).(level := c.level + 1);
      var e := Returns(d, t, d.depth[t] + 1).(aux := Free);
      OneStepOn(path, t, c);
      OneStepOn(path + [c], t, d);
      OneStepOn(path + [c] + [d], t, e);
      path := path + [c] + [d] + [e];
    } else {
      var c := Goes(b, t, Yield);
      var d := Goes(c, t, LockMain).(aux := Free);
      var e := Goes(d, t, LockAuxAgain).(main := Held(t));
      var f := Goes(e, t, SetOwner).(aux := Held(t));
      OneStepOn(path, t, c);
      OneStepOn(path + [c], t, d);
      OneStepOn(path + [c] + [d], t, e);
      OneStepOn(path + [c] + [d] + [e], t, f);
      path := path + [c] + [d] + [e] + [f];
      var g := Goes(f, t, SetLevel).(owner := t);
      var h := Goes(g, t, ReleaseFirst).(level := 1);
      var i := Returns(h, t, h.depth[t] + 1).(aux := Free);
      OneStepOn(path, t, g);
      OneStepOn(path + [g], t, h);
      OneStepOn(path + [g] + [h], t, i);
      path := path + [g] + [h] + [i];
    }
    assert path[|path| - 1].at == s.at;
  }
}
