/**
 * The cache-fill protocol of one topic handle, with many tasks: each task
 * calls `get_for_update` on a key, waits while another task holds it,
 * retries when woken, and ends by `write` or by dropping its
 * `KeyUpdater`. The registry transitions are those of LockRegistry; the
 * suspension of a waiting task is its phase.
 */
module LockProtocol {
  import opened LockRegistry

  type Task = Waiter

  datatype Phase =
    | Idle                  // not in get_for_update, or returned from it
    | Waiting(key: string)  // suspended on its receiver
    | Woken(key: string)    // its sender was dropped; about to retry
    | Holding(key: string)  // owns a KeyUpdater for key

  datatype State = State(reg: Registry, phase: map<Task, Phase>)

  datatype Event =
    | Attempt(t: Task, key: string, readOk: bool)  // one pass of the acquisition loop; readOk: the `get` after acquiring succeeds
    | Finish(t: Task)                              // `write` or dropping the KeyUpdater: both release

  function Init(tasks: set<Task>): State
  {
    State(map[], map t | t in tasks :: Idle)
  }

  predicate CanAttempt(s: State, t: Task, key: string)
  {
    t in s.phase && (s.phase[t] == Idle || s.phase[t] == Woken(key))
  }

  /** Every waiter in `woken` is marked as woken for `key`. */
  function Wake(phase: map<Task, Phase>, woken: seq<Waiter>, key: string): (p: map<Task, Phase>)
    ensures p.Keys == phase.Keys
  {
    map t | t in phase :: if t in woken then Woken(key) else phase[t]
  }

  function ReleaseBy(reg: Registry, phase: map<Task, Phase>, t: Task, key: string): State
    requires key in reg
  {
    var rel := Unlock(reg, key);
    State(rel.reg, Wake(phase[t := Idle], rel.woken, key))
  }

  /** The event is a first attempt on a free key whose read after locking fails. */
  predicate FailedReadOnFreeKey(s: State, e: Event)
  {
    e.Attempt? && CanAttempt(s, e.t, e.key) && e.key !in s.reg && !e.readOk
  }

  /**
   * One step of the protocol with the lock released when the read after
   * acquiring fails (the key updater exists before the read). The set of
   * tasks never changes; an attempt on a locked key queues the caller
   * behind the earlier waiters; one on a free key locks it for the caller
   * or, when the read fails, leaves registry and caller as they were
   * before; a holder's release unlocks its key.
   */
  function Step(s: State, e: Event): (r: State)
    ensures r.phase.Keys == s.phase.Keys
    ensures e.Attempt? && !CanAttempt(s, e.t, e.key) ==> r == s
    ensures e.Attempt? && CanAttempt(s, e.t, e.key) && e.key in s.reg ==>
      r.phase[e.t] == Waiting(e.key) && e.key in r.reg && r.reg[e.key] == s.reg[e.key] + [e.t]
    ensures e.Attempt? && CanAttempt(s, e.t, e.key) && e.key !in s.reg && e.readOk ==>
      r.phase[e.t] == Holding(e.key) && e.key in r.reg && r.reg[e.key] == []
    ensures FailedReadOnFreeKey(s, e) ==> r.reg == s.reg && r.phase == s.phase[e.t := Idle]
    ensures e.Attempt? && CanAttempt(s, e.t, e.key) ==>
      && (forall k :: k in s.reg && k != e.key ==> k in r.reg && r.reg[k] == s.reg[k])
      && (forall k :: k in r.reg ==> k in s.reg || k == e.key)
      && (forall u :: u in s.phase && u != e.t ==> r.phase[u] == s.phase[u])
    ensures e.Finish? && e.t in s.phase && s.phase[e.t].Holding? && s.phase[e.t].key in s.reg ==>
      var key := s.phase[e.t].key;
      && r.reg == s.reg - {key}
      && forall u :: u in s.phase ==>
           r.phase[u] == if u in s.reg[key] then Woken(key) else if u == e.t then Idle else s.phase[u]
    ensures e.Finish? && !(e.t in s.phase && s.phase[e.t].Holding? && s.phase[e.t].key in s.reg) ==> r == s
  {
    match e
    case Attempt(t, key, readOk) =>
      if !CanAttempt(s, t, key) then s
      else
        var a := Acquire(s.reg, key, t);
        if !a.granted then State(a.reg, s.phase[t := Waiting(key)])
        else if readOk then State(a.reg, s.phase[t := Holding(key)])
        else
          assert Wake(s.phase[t := Idle], [], key) == s.phase[t := Idle];
          assert a.reg - {key} == s.reg;
          ReleaseBy(a.reg, s.phase, t, key)
    case Finish(t) =>
      if t in s.phase && s.phase[t].Holding? && s.phase[t].key in s.reg
      then ReleaseBy(s.reg, s.phase, t, s.phase[t].key)
      else s
  }

  /**
   * One step as `get_for_update` is written: when the read after acquiring
   * fails, the error returns before any `KeyUpdater` exists, so nothing
   * ever removes the entry. It differs from `Step` only there, and only by
   * that entry: the tasks' phases are the same.
   */
  function StepAsWritten(s: State, e: Event): (r: State)
    ensures r.phase == Step(s, e).phase
    ensures FailedReadOnFreeKey(s, e) ==> r.reg == Step(s, e).reg[e.key := []]
    ensures !FailedReadOnFreeKey(s, e) ==> r == Step(s, e)
  {
    match e
    case Attempt(t, key, readOk) =>
      if CanAttempt(s, t, key) && !readOk && key !in s.reg
      then State(Acquire(s.reg, key, t).reg, s.phase[t := Idle])
      else Step(s, e)
    case Finish(_) => Step(s, e)
  }

  function Run(s: State, events: seq<Event>): State
    decreases |events|
  {
    if events == [] then s else Run(Step(s, events[0]), events[1..])
  }

  function RunAsWritten(s: State, events: seq<Event>): State
    decreases |events|
  {
    if events == [] then s else RunAsWritten(StepAsWritten(s, events[0]), events[1..])
  }

  predicate HoldersLocked(s: State)
  {
    forall t :: t in s.phase && s.phase[t].Holding? ==> s.phase[t].key in s.reg
  }

  /** At most one task holds each key. */
  predicate MutualExclusion(s: State)
  {
    forall t1, t2 :: t1 in s.phase && t2 in s.phase && s.phase[t1].Holding? && s.phase[t1] == s.phase[t2] ==> t1 == t2
  }

  /** Every locked key has a holder, who alone can release it. */
  predicate LocksHeld(s: State)
  {
    forall key :: key in s.reg ==> exists t :: t in s.phase && s.phase[t] == Holding(key)
  }

  /** The registry lists only tasks waiting on that very key. */
  predicate WaitersWaiting(s: State)
  {
    forall key, i :: key in s.reg && 0 <= i < |s.reg[key]| ==>
      s.reg[key][i] in s.phase && s.phase[s.reg[key][i]] == Waiting(key)
  }

  /** No lost wake-up: every waiting task is listed under the key it waits on. */
  predicate WaitersListed(s: State)
  {
    forall t :: t in s.phase && s.phase[t].Waiting? ==> s.phase[t].key in s.reg && t in s.reg[s.phase[t].key]
  }

  /** The waiters a release wakes were all waiting on the released key. */
  lemma WokenWereWaiting(s: State, key: string, u: Task)
    requires WaitersWaiting(s) && key in s.reg && u in s.reg[key]
    ensures u in s.phase && s.phase[u] == Waiting(key)
  {
  }

  /**
   * Every held key is locked, at most one task holds each key, and the
   * registry lists exactly the waiting tasks under the keys they wait on.
   * The protocol keeps this as written as well as corrected.
   */
  predicate Safety(s: State)
  {
    HoldersLocked(s) && MutualExclusion(s) && WaitersWaiting(s) && WaitersListed(s)
  }

  lemma QueueKeepsSafety(s: State, t: Task, key: string)
    requires Safety(s) && CanAttempt(s, t, key) && key in s.reg
    ensures Safety(State(Acquire(s.reg, key, t).reg, s.phase[t := Waiting(key)]))
  {
    var a := Acquire(s.reg, key, t);
    var s' := State(a.reg, s.phase[t := Waiting(key)]);
    assert WaitersWaiting(s') by {
      forall k, i | k in s'.reg && 0 <= i < |s'.reg[k]|
        ensures s'.reg[k][i] in s'.phase && s'.phase[s'.reg[k][i]] == Waiting(k)
      {
        if k == key && i == |s.reg[key]| {
        } else {
          assert s'.reg[k][i] == s.reg[k][i];
        }
      }
    }
  }

  lemma GrantKeepsSafety(s: State, t: Task, key: string)
    requires Safety(s) && CanAttempt(s, t, key) && key !in s.reg
    ensures Safety(State(Acquire(s.reg, key, t).reg, s.phase[t := Holding(key)]))
  {
  }

  /** As written, a failed read leaves the new, empty entry behind and the caller idle. */
  lemma LeakKeepsSafety(s: State, t: Task, key: string)
    requires Safety(s) && CanAttempt(s, t, key) && key !in s.reg
    ensures Safety(State(Acquire(s.reg, key, t).reg, s.phase[t := Idle]))
  {
  }

  lemma ReleaseKeepsSafety(s: State, t: Task, key: string)
    requires Safety(s) && t in s.phase && s.phase[t] == Holding(key) && key in s.reg
    ensures Safety(ReleaseBy(s.reg, s.phase, t, key))
  {
    var s' := ReleaseBy(s.reg, s.phase, t, key);
    forall u | u in s'.phase && s'.phase[u].Holding?
      ensures u != t && u !in s.reg[key] && s'.phase[u] == s.phase[u] && s.phase[u].key != key
    {
      if u in s.reg[key] {
        WokenWereWaiting(s, key, u);
      }
    }
  }

  /** The invariant of the corrected protocol: safety, and a holder for every locked key. */
  predicate Inv(s: State)
  {
    Safety(s) && LocksHeld(s)
  }

  lemma InitInv(tasks: set<Task>)
    ensures Inv(Init(tasks))
  {
  }

  lemma ReleaseKeepsLocksHeld(s: State, t: Task, key: string)
    requires Inv(s) && t in s.phase && s.phase[t] == Holding(key) && key in s.reg
    ensures LocksHeld(ReleaseBy(s.reg, s.phase, t, key))
  {
    var s' := ReleaseBy(s.reg, s.phase, t, key);
    forall k | k in s'.reg
      ensures exists h :: h in s'.phase && s'.phase[h] == Holding(k)
    {
      var h :| h in s.phase && s.phase[h] == Holding(k);
      if h in s.reg[key] {
        WokenWereWaiting(s, key, h);
      }
      assert s'.phase[h] == Holding(k);
    }
  }

  lemma ReleasePreservesInv(s: State, t: Task, key: string)
    requires Inv(s) && t in s.phase && s.phase[t] == Holding(key) && key in s.reg
    ensures Inv(ReleaseBy(s.reg, s.phase, t, key))
  {
    ReleaseKeepsSafety(s, t, key);
    ReleaseKeepsLocksHeld(s, t, key);
  }

  lemma QueuePreservesInv(s: State, t: Task, key: string)
    requires Inv(s) && CanAttempt(s, t, key) && key in s.reg
    ensures Inv(State(Acquire(s.reg, key, t).reg, s.phase[t := Waiting(key)]))
  {
    var a := Acquire(s.reg, key, t);
    var s' := State(a.reg, s.phase[t := Waiting(key)]);
    QueueKeepsSafety(s, t, key);
    assert LocksHeld(s') by {
      forall k | k in s'.reg ensures exists h :: h in s'.phase && s'.phase[h] == Holding(k) {
        var h :| h in s.phase && s.phase[h] == Holding(k);
        assert s'.phase[h] == Holding(k);
      }
    }
  }

  lemma GrantPreservesInv(s: State, t: Task, key: string)
    requires Inv(s) && CanAttempt(s, t, key) && key !in s.reg
    ensures Inv(State(Acquire(s.reg, key, t).reg, s.phase[t := Holding(key)]))
  {
    var a := Acquire(s.reg, key, t);
    var held := State(a.reg, s.phase[t := Holding(key)]);
    GrantKeepsSafety(s, t, key);
    assert LocksHeld(held) by {
      forall k | k in held.reg ensures exists h :: h in held.phase && held.phase[h] == Holding(k) {
        if k == key {
          assert held.phase[t] == Holding(k);
        } else {
          var h :| h in s.phase && s.phase[h] == Holding(k);
          assert held.phase[h] == Holding(k);
        }
      }
    }
  }

  lemma {:induction false} StepPreservesInv(s: State, e: Event)
    requires Inv(s)
    ensures Inv(Step(s, e))
  {
    match e
    case Attempt(t, key, readOk) =>
      if CanAttempt(s, t, key) {
        if key in s.reg {
          QueuePreservesInv(s, t, key);
        } else {
          GrantPreservesInv(s, t, key);
          if !readOk {
            var held := State(Acquire(s.reg, key, t).reg, s.phase[t := Holding(key)]);
            ReleasePreservesInv(held, t, key);
            assert held.phase[t := Idle] == s.phase[t := Idle];
          }
        }
      }
    case Finish(t) =>
      if t in s.phase && s.phase[t].Holding? && s.phase[t].key in s.reg {
        ReleasePreservesInv(s, t, s.phase[t].key);
      }
  }

  lemma {:induction false} RunPreservesInv(s: State, events: seq<Event>)
    requires Inv(s)
    ensures Inv(Run(s, events))
    decreases |events|
  {
    if events != [] {
      StepPreservesInv(s, events[0]);
      RunPreservesInv(Step(s, events[0]), events[1..]);
    }
  }

  /**
   * In every state the protocol can reach, each key has at most one
   * holder, each locked key has a holder, and each waiting task is listed
   * under a locked key, so that its holder's release wakes it.
   */
  lemma ReachableStatesSafe(tasks: set<Task>, events: seq<Event>)
    ensures var s := Run(Init(tasks), events);
      MutualExclusion(s) && LocksHeld(s) && WaitersListed(s)
  {
    InitInv(tasks);
    RunPreservesInv(Init(tasks), events);
  }

  /** A key that is locked with no holder stays so whatever happens next. */
  predicate Stranded(s: State, key: string)
  {
    key in s.reg && forall t :: t in s.phase ==> s.phase[t] != Holding(key)
  }

  lemma {:induction false} StrandedForever(s: State, key: string, events: seq<Event>)
    requires Stranded(s, key)
    ensures Stranded(RunAsWritten(s, events), key)
    decreases |events|
  {
    if events != [] {
      var s' := StepAsWritten(s, events[0]);
      assert Stranded(s', key) by {
        match events[0]
        case Attempt(t, k, readOk) =>
        case Finish(t) =>
          if t in s.phase && s.phase[t].Holding? && s.phase[t].key in s.reg {
            assert s.phase[t].key != key;
          }
      }
      StrandedForever(s', key, events[1..]);
    }
  }

  /**
   * As written, one failed read after acquiring "k" locks "k" for good:
   * a second task that asks for it waits, and no sequence of later events
   * ever lets any task hold "k" again.
   */
  lemma FailedReadLeaksLock(events: seq<Event>)
    ensures var s1 := StepAsWritten(Init({0, 1}), Attempt(0, "k", false));
      var s2 := StepAsWritten(s1, Attempt(1, "k", true));
      && s2.phase[1] == Waiting("k")
      && forall t :: t in RunAsWritten(s2, events).phase ==> RunAsWritten(s2, events).phase[t] != Holding("k")
  {
    var s1 := StepAsWritten(Init({0, 1}), Attempt(0, "k", false));
    var s2 := StepAsWritten(s1, Attempt(1, "k", true));
    assert Stranded(s2, "k");
    StrandedForever(s2, "k", events);
  }

  /** With the lock released on a failed read, the next task to ask for "k" gets it. */
  lemma FailedReadReleasesLock()
    ensures var s1 := Step(Init({0, 1}), Attempt(0, "k", false));
      var s2 := Step(s1, Attempt(1, "k", true));
      "k" !in s1.reg && s1.phase[0] == Idle && s2.phase[1] == Holding("k")
  {
  }

  lemma {:induction false} StepAsWrittenKeepsSafety(s: State, e: Event)
    requires Safety(s)
    ensures Safety(StepAsWritten(s, e))
  {
    match e
    case Attempt(t, key, readOk) =>
      if CanAttempt(s, t, key) {
        if key in s.reg {
          QueueKeepsSafety(s, t, key);
        } else if readOk {
          GrantKeepsSafety(s, t, key);
        } else {
          LeakKeepsSafety(s, t, key);
        }
      }
    case Finish(t) =>
      if t in s.phase && s.phase[t].Holding? && s.phase[t].key in s.reg {
        ReleaseKeepsSafety(s, t, s.phase[t].key);
      }
  }

  lemma {:induction false} RunAsWrittenKeepsSafety(s: State, events: seq<Event>)
    requires Safety(s)
    ensures Safety(RunAsWritten(s, events))
    decreases |events|
  {
    if events != [] {
      StepAsWrittenKeepsSafety(s, events[0]);
      RunAsWrittenKeepsSafety(StepAsWritten(s, events[0]), events[1..]);
    }
  }

  /**
   * The protocol as written keeps mutual exclusion: in every state it can
   * reach, each key has at most one holder, every held key is locked, and
   * each waiting task is listed under the key it waits on. What it loses
   * is a holder for every locked key (`FailedReadLeaksLock`).
   */
  lemma AsWrittenMutualExclusion(tasks: set<Task>, events: seq<Event>)
    ensures var s := RunAsWritten(Init(tasks), events);
      MutualExclusion(s) && HoldersLocked(s) && WaitersListed(s)
  {
    InitInv(tasks);
    RunAsWrittenKeepsSafety(Init(tasks), events);
  }
}
