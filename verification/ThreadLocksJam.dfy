/** When the numbered locks stop: thread_lock_lock is held by a thread that cannot take a step exactly in a jam. */
module ThreadLocksJam {
  import opened Option
  import opened Larray
  import opened ThreadLocks
  import opened ThreadLocksRuns

  ghost predicate CanStep(s: State, t: Tid) {
    exists s' :: Step(s, s', t)
  }

  lemma {:induction false} CanSteps(s: State, t: Tid, c: Choice)
    requires Can(s, t, c)
    ensures CanStep(s, t)
  {
    AfterIsStep(s, t, c);
    hide Step; hide After;
  }

  lemma {:induction false} UnusedMutex(used: set<Mutex>) returns (m: Mutex)
    ensures forall x :: x in used ==> x < m
    decreases used
  {
    if used == {} {
      m := 0;
    } else {
      var y :| y in used;
      var n := UnusedMutex(used - {y});
      m := if n > y then n else y + 1;
      assert used == (used - {y}) + {y};
    }
  }

  /** There is a table with one more id; where larray_set would put it does not matter here. */
  lemma OneMoreId(arr: seq<Slot<Mutex>>, pos: map<Key, nat>, id: Key, m: Mutex)
    requires Located(arr, pos) && id !in pos
    ensures Located(arr + [Used(id, m)], pos[id := |arr|])
    ensures Mapping(arr + [Used(id, m)], pos[id := |arr|]) == Mapping(arr, pos)[id := m]
  {
    var arr', pos' := arr + [Used(id, m)], pos[id := |arr|];
    forall p: nat | p < |arr'| && arr'[p].Used?
      ensures arr'[p].idx in pos' && pos'[arr'[p].idx] == p
    {
      assert p < |arr| ==> arr'[p] == arr[p];
    }
    assert Mapping(arr', pos') == Mapping(arr, pos)[id := m];
  }

  /** A thread that has thread_lock_lock can go on unless it waits for thread_priority_lock. */
  lemma {:induction false} HolderGoesOn(s: State, a: Tid)
    requires Inv(s) && s.lockLock == Some(a) && !(s.pc[a].at == LockPrio && s.priority.Some?)
    ensures CanStep(s, a)
  {
    assert s.pc[a].HasLockLock() && ThreadInv(s, a);
    var c := Go;
    if Creates(s, a) {
      var m := UnusedMutex(s.holder.Keys);
      OneMoreId(s.arr, s.pos, s.pc[a].id, m);
      c := Make(m, s.arr + [Used(s.pc[a].id, m)], s.pos[s.pc[a].id := |s.arr|]);
    }
    hide Mapping; hide Undisturbed; hide GlobalLocks;
    CanSteps(s, a, c);
  }

  lemma {:induction false} JamBlocks(s: State, a: Tid, b: Tid)
    requires Jammed(s, a, b)
    ensures !CanStep(s, a)
  {
    hide Finds; hide CreateStep; hide HolderStep; hide TableStep; hide InsideStep;
    assert forall s' :: !Step(s, s', a);
  }

  /** thread_lock_lock is held by a thread that cannot step exactly when there is a jam. */
  lemma {:induction false} BlockedExactlyInJams(s: State)
    requires Inv(s)
    ensures (s.lockLock.Some? && !CanStep(s, s.lockLock.value)) <==> exists a, b :: Jammed(s, a, b)
  {
    if s.lockLock.Some? && !CanStep(s, s.lockLock.value) {
      var a := s.lockLock.value;
      HolderGoesOnOrJam(s, a);
    } else if a, b :| Jammed(s, a, b) {
      JamBlocks(s, a, b);
    }
  }

  lemma {:induction false} HolderGoesOnOrJam(s: State, a: Tid)
    requires Inv(s) && s.lockLock == Some(a) && !CanStep(s, a)
    ensures s.priority.Some? && Jammed(s, a, s.priority.value)
  {
    if !(s.pc[a].at == LockPrio && s.priority.Some?) {
      HolderGoesOn(s, a);
    }
    hide CanStep; hide MutexTable; hide Undisturbed; hide ThreadInv;
    var b := s.priority.value;
    assert s.pc[b].HasPriority();
  }

  /** The same in every undisturbed run. */
  lemma {:induction false} RunsBlockedExactlyInJams(r: seq<State>, ts: seq<Tid>, j: nat)
    requires IsRun(r, ts) && j < |r| && forall i :: 0 <= i <= j ==> Undisturbed(r[i])
    ensures (r[j].lockLock.Some? && !CanStep(r[j], r[j].lockLock.value)) <==> exists a, b :: Jammed(r[j], a, b)
  {
    RunKeepsInv(r, ts, j);
    hide Step; hide Inv; hide Undisturbed; hide Init; hide CanStep; hide Jammed;
    BlockedExactlyInJams(r[j]);
  }

  /** How many steps of its own the holder of thread_lock_lock is away from giving it back. */
  function Left(at: Place): nat {
    match at
    case LockLook => 4
    case LockPrio => 3
    case LockRelease => 2
    case LockUnprio => 3
    case LockWrite => 2
    case LockEnd => 1
    case UnlockLook => 4
    case UnlockRelease => 3
    case UnlockWrite => 2
    case UnlockEnd => 1
    case _ => 0
  }

  /** Outside jams thread_lock_lock comes free: each step of its holder gives it back or comes nearer to that, and no
      step of another thread interferes. */
  lemma {:induction false} HolderLetsGo(s: State, s': State, t: Tid, a: Tid)
    requires Inv(s) && Step(s, s', t) && s.lockLock == Some(a)
    ensures t == a ==> s'.lockLock == None || (s'.lockLock == Some(a) && Left(s'.pc[a].at) < Left(s.pc[a].at))
    ensures t != a ==> s'.lockLock == Some(a) && s'.pc[a] == s.pc[a]
  {
    hide Finds; hide CreateStep; hide HolderStep; hide TableStep; hide MutexTable; hide Undisturbed; hide ThreadInv;
    assert s.pc[t].HasLockLock() <==> s.lockLock == Some(t);
  }

  // ---- Runs into a jam ----

  /** Two threads are enough. Thread 2 waited for id 5 and has got its mutex; before it gets thread_lock_lock again,
      thread 3 asks for 5. No thread is inside an id, and thread 1 is not in a call. */
  lemma {:induction false} JamReachable() returns (run: Run, s: State)
    ensures EndsIn(run, s) && Jammed(s, 3, 2) && s.pc[2].at == LockRelock
    ensures s.pc.Keys == {1, 2, 3} && s.pc[1].at == Idle && forall t :: t in s.inside ==> s.inside[t] == {}
    ensures forall c :: !Stuck(s, 3, 2, c)
  {
    run, s := TwoWaited();
    hide EndsIn; hide Located; hide Mapping;
    run, s := Unlocks(run, s, 1, 5);
    run, s := Then(run, s, 2, Go);
    run, s := LooksUp(run, s, 3, 5);
  }

  /** Thread 1 is inside id 5 and thread 2 waits for it. */
  lemma {:induction false} TwoWaited() returns (run: Run, s: State)
    ensures EndsIn(run, s)
    ensures s == State(None, Some(2), map[0 := Some(1)], ArrA, PosA,
                       map[1 := Thread(Idle, 5, 0, 0), 2 := Thread(LockWait, 5, 1, 0), 3 := Thread(Idle, 0, 0, 0)],
                       map[1 := {5}, 2 := {}, 3 := {}])
  {
    hide EndsIn;
    TableA();
    hide Located; hide Mapping;
    run := Begins();
    s := Begin();
    run, s := LocksNew(run, s, 1, 5, Make(0, ArrA, PosA));
    run, s := Waits(run, s, 2, 5);
    assert s.holder == map[0 := Some(1)];
    assert s.pc == map[1 := Thread(Idle, 5, 0, 0), 2 := Thread(LockWait, 5, 1, 0), 3 := Thread(Idle, 0, 0, 0)];
    assert s.inside[1] == {5} && s.inside == map[1 := {5}, 2 := {}, 3 := {}];
  }

  /** Thread 1 is inside id 5 and threads 2 and 3 ask for it: now thread 1 cannot unlock it any more. */
  lemma {:induction false} DeadlockReachable() returns (run: Run, s: State)
    ensures EndsIn(run, s) && Stuck(s, 3, 2, 1) && s.pc[1].at == UnlockStart
  {
    run, s := TwoWaited();
    hide EndsIn; hide Located; hide Mapping;
    run, s := LooksUp(run, s, 3, 5);
    run, s := Then(run, s, 1, Unlock(5));
  }
}
