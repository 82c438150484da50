/** Runs of the numbered locks, step by step, and one in which the table grows while a thread waits, so that its
    write-back gives the mutex of one id to another. */
module ThreadLocksRuns {
  import opened Option
  import opened Larray
  import opened ThreadLocks

  /** What a step is free to choose: the call an idle thread makes, and the new mutex and table when a lock is
      created. */
  datatype Choice = Go | Lock(id: Key) | Unlock(id: Key) | Make(m: Mutex, arr: seq<Slot<Mutex>>, pos: map<Key, nat>)

  ghost predicate Can(s: State, t: Tid, c: Choice) {
    t in s.pc && t in s.inside &&
    var p := s.pc[t];
    match p.at
    case Idle => c.Lock? || (c.Unlock? && c.id in s.inside[t])
    case LockLook =>
      if p.id in s.pos then s.pos[p.id] < |s.arr| && s.arr[s.pos[p.id]].Used?
      else
        && c.Make? && c.m !in s.holder && Located(s.arr, s.pos) && Located(c.arr, c.pos)
        && Mapping(c.arr, c.pos) == Mapping(s.arr, s.pos)[p.id := c.m]
    case UnlockLook => p.id in s.pos && s.pos[p.id] < |s.arr| && s.arr[s.pos[p.id]].Used?
    case LockPrio => s.priority == None
    case LockWait => p.m in s.holder && s.holder[p.m] == None
    case LockStart => s.lockLock == None
    case LockRelock => s.lockLock == None
    case UnlockStart => s.lockLock == None
    case _ => true
  }

  function Moved(s: State, p: Thread, c: Choice): Thread
    requires (p.at.LockLook? || p.at.UnlockLook?) && p.id in s.pos ==> s.pos[p.id] < |s.arr| && s.arr[s.pos[p.id]].Used?
  {
    match p.at
    case Idle =>
      if c.Lock? then Thread(LockStart, c.id, 0, 0) else if c.Unlock? then Thread(UnlockStart, c.id, 0, 0) else p
    case LockStart => p.(at := LockLook)
    case LockLook =>
      if p.id in s.pos then Thread(LockPrio, p.id, s.pos[p.id], s.arr[s.pos[p.id]].value) else p.(at := LockEnd)
    case LockPrio => p.(at := LockRelease)
    case LockRelease => p.(at := LockWait)
    case LockWait => p.(at := LockRelock)
    case LockRelock => p.(at := LockUnprio)
    case LockUnprio => p.(at := LockWrite)
    case LockWrite => p.(at := LockEnd)
    case UnlockStart => p.(at := UnlockLook)
    case UnlockLook =>
      if p.id in s.pos then Thread(UnlockRelease, p.id, s.pos[p.id], s.arr[s.pos[p.id]].value)
      else p.(at := UnlockEnd)
    case UnlockRelease => p.(at := UnlockWrite)
    case UnlockWrite => p.(at := UnlockEnd)
    case _ => p.(at := Idle)
  }

  function Locked(takes: bool, frees: bool, t: Tid, lock: Option<Tid>): Option<Tid> {
    if takes then Some(t) else if frees then None else lock
  }

  ghost function After(s: State, t: Tid, c: Choice): State
    requires Can(s, t, c)
  {
    var p := s.pc[t];
    var p' := Moved(s, p, c);
    var creates := p.at.LockLook? && p.id !in s.pos;
    State(
      Locked(p.at.LockStart? || p.at.LockRelock? || p.at.UnlockStart?,
             p.at.LockRelease? || p.at.LockEnd? || p.at.UnlockEnd?, t, s.lockLock),
      Locked(p.at.LockPrio?, p.at.LockUnprio?, t, s.priority),
      if creates then s.holder[c.m := Some(t)]
      else if p.at.LockWait? then s.holder[p.m := Some(t)]
      else if p.at.UnlockRelease? then s.holder[p.m := None]
      else s.holder,
      if creates then c.arr else if p.at.LockWrite? || p.at.UnlockWrite? then WriteBack(s.arr, p.slot, p.m) else s.arr,
      if creates then c.pos else s.pos,
      s.pc[t := p'],
      s.inside[t := if p.at.LockEnd? then s.inside[t] + {p.id}
                    else if p'.at.UnlockStart? then s.inside[t] - {p'.id}
                    else s.inside[t]])
  }

  lemma {:induction false} AfterIsStep(s: State, t: Tid, c: Choice)
    requires Can(s, t, c)
    ensures Step(s, After(s, t, c), t)
  {
    hide WriteBack; hide Located; hide Mapping;
  }

  datatype Run = Run(r: seq<State>, ts: seq<Tid>)

  ghost predicate EndsIn(run: Run, s: State) {
    run.r != [] && IsRun(run.r, run.ts) && run.r[|run.r| - 1] == s
  }

  lemma {:induction false} Then(run: Run, s: State, t: Tid, c: Choice) returns (run': Run, s': State)
    requires EndsIn(run, s) && Can(s, t, c)
    ensures EndsIn(run', s') && s' == After(s, t, c) && run.r <= run'.r
  {
    AfterIsStep(s, t, c);
    s' := After(s, t, c);
    hide Step; hide After; hide Can;
    run' := Run(run.r + [s'], run.ts + [t]);
    forall i | 0 <= i < |run'.ts|
      ensures Step(run'.r[i], run'.r[i + 1], run'.ts[i])
    {
      if i < |run.ts| {
        assert run'.r[i] == run.r[i] && run'.r[i + 1] == run.r[i + 1] && run'.ts[i] == run.ts[i];
      }
    }
  }

  // ---- Calls that are not interrupted ----

  /** Thread t locks an id nobody has locked before. */
  lemma {:induction false} LocksNew(run: Run, s: State, t: Tid, id: Key, c: Choice) returns (run': Run, s': State)
    requires EndsIn(run, s) && t in s.pc && t in s.inside && s.pc[t].at == Idle && s.lockLock == None
    requires id !in s.pos && c.Make? && c.m !in s.holder && Located(s.arr, s.pos) && Located(c.arr, c.pos)
    requires Mapping(c.arr, c.pos) == Mapping(s.arr, s.pos)[id := c.m]
    ensures EndsIn(run', s') && run.r <= run'.r
    ensures s' == s.(holder := s.holder[c.m := Some(t)], arr := c.arr, pos := c.pos,
                     pc := s.pc[t := Thread(Idle, id, 0, 0)], inside := s.inside[t := s.inside[t] + {id}])
  {
    hide EndsIn; hide Located; hide Mapping;
    run', s' := Then(run, s, t, Lock(id));
    run', s' := Then(run', s', t, Go);
    run', s' := Then(run', s', t, c);
    run', s' := Then(run', s', t, Go);
  }

  /** Thread t calls l_tlock on an id that is in the table, up to the wait for its mutex. */
  lemma {:induction false} Waits(run: Run, s: State, t: Tid, id: Key) returns (run': Run, s': State)
    requires EndsIn(run, s) && t in s.pc && t in s.inside && s.pc[t].at == Idle && s.lockLock == None &&
             s.priority == None
    requires id in s.pos && s.pos[id] < |s.arr| && s.arr[s.pos[id]].Used?
    ensures EndsIn(run', s') && run.r <= run'.r
    ensures s' == s.(priority := Some(t), pc := s.pc[t := Thread(LockWait, id, s.pos[id], s.arr[s.pos[id]].value)])
  {
    hide EndsIn; hide Located; hide Mapping;
    run', s' := LooksUp(run, s, t, id);
    run', s' := Then(run', s', t, Go);
    run', s' := Then(run', s', t, Go);
  }

  lemma {:induction false} LooksUp(run: Run, s: State, t: Tid, id: Key) returns (run': Run, s': State)
    requires EndsIn(run, s) && t in s.pc && t in s.inside && s.pc[t].at == Idle && s.lockLock == None
    requires id in s.pos && s.pos[id] < |s.arr| && s.arr[s.pos[id]].Used?
    ensures EndsIn(run', s') && run.r <= run'.r
    ensures s' == s.(lockLock := Some(t), pc := s.pc[t := Thread(LockPrio, id, s.pos[id], s.arr[s.pos[id]].value)])
  {
    hide EndsIn; hide Located; hide Mapping;
    run', s' := Then(run, s, t, Lock(id));
    run', s' := Then(run', s', t, Go);
    run', s' := Then(run', s', t, Go);
  }

  /** Thread t calls l_tunlock, up to the unlocking of the mutex. */
  lemma {:induction false} Frees(run: Run, s: State, t: Tid, id: Key) returns (run': Run, s': State)
    requires EndsIn(run, s) && t in s.pc && t in s.inside && s.pc[t].at == Idle && s.lockLock == None &&
             id in s.inside[t]
    requires id in s.pos && s.pos[id] < |s.arr| && s.arr[s.pos[id]].Used? && s.arr[s.pos[id]].idx == id
    ensures EndsIn(run', s') && run.r <= run'.r
    ensures var i, m := s.pos[id], s.arr[s.pos[id]].value;
            s' == s.(lockLock := Some(t), holder := s.holder[m := None], pc := s.pc[t := Thread(UnlockWrite, id, i, m)],
                     inside := s.inside[t := s.inside[t] - {id}])
  {
    hide EndsIn; hide Located; hide Mapping; hide WriteBack;
    run', s' := Then(run, s, t, Unlock(id));
    run', s' := Then(run', s', t, Go);
    run', s' := Then(run', s', t, Go);
    run', s' := Then(run', s', t, Go);
  }

  /** Thread t unlocks an id it is inside of. */
  lemma {:induction false} Unlocks(run: Run, s: State, t: Tid, id: Key) returns (run': Run, s': State)
    requires EndsIn(run, s) && t in s.pc && t in s.inside && s.pc[t].at == Idle && s.lockLock == None &&
             id in s.inside[t]
    requires id in s.pos && s.pos[id] < |s.arr| && s.arr[s.pos[id]].Used? && s.arr[s.pos[id]].idx == id
    ensures EndsIn(run', s') && run.r <= run'.r
    ensures var i, m := s.pos[id], s.arr[s.pos[id]].value;
            s' == s.(holder := s.holder[m := None], pc := s.pc[t := Thread(Idle, id, i, m)],
                     inside := s.inside[t := s.inside[t] - {id}])
  {
    hide EndsIn; hide Located; hide Mapping;
    run', s' := Frees(run, s, t, id);
    run', s' := Then(run', s', t, Go);
    run', s' := Then(run', s', t, Go);
  }

  /** Thread t gets the mutex it waits for, and goes on up to the write-back. */
  lemma {:induction false} Wakes(run: Run, s: State, t: Tid) returns (run': Run, s': State)
    requires EndsIn(run, s) && t in s.pc && t in s.inside && s.pc[t].at == LockWait && s.lockLock == None
    requires s.pc[t].m in s.holder && s.holder[s.pc[t].m] == None
    ensures EndsIn(run', s') && run.r <= run'.r
    ensures s'.arr == WriteBack(s.arr, s.pc[t].slot, s.pc[t].m) && s'.pos == s.pos
  {
    hide EndsIn; hide Located; hide Mapping; hide WriteBack;
    run', s' := Then(run, s, t, Go);
    run', s' := Then(run', s', t, Go);
    run', s' := Then(run', s', t, Go);
    run', s' := Then(run', s', t, Go);
  }

  // ---- The run ----

  const Empty: seq<Slot<Mutex>> := [Free, Free, Free, Free]

  function Begin(): State {
    State(None, None, map[], Empty, map[],
          map[1 := Thread(Idle, 0, 0, 0), 2 := Thread(Idle, 0, 0, 0), 3 := Thread(Idle, 0, 0, 0)],
          map[1 := {}, 2 := {}, 3 := {}])
  }

  lemma Begins() returns (run: Run)
    ensures EndsIn(run, Begin())
  {
    run := Run([Begin()], []);
  }

  // Ids 5, 2 and 3 fill the first table, in the slots larray_set gives them.
  const ArrA: seq<Slot<Mutex>> := [Free, Used(5, 0), Free, Free]
  const ArrB: seq<Slot<Mutex>> := [Free, Used(5, 0), Used(2, 1), Free]
  const ArrC: seq<Slot<Mutex>> := [Free, Used(5, 0), Used(2, 1), Used(3, 2)]
  const PosA: map<Key, nat> := map[5 := 1]
  const PosB: map<Key, nat> := map[5 := 1, 2 := 2]
  const PosC: map<Key, nat> := map[5 := 1, 2 := 2, 3 := 3]

  // Id 1 makes the table grow: every id moves to its home slot, and slot 1 is that of id 1.
  const ArrD: seq<Slot<Mutex>> :=
    [Free, Used(1, 3), Used(2, 1), Used(3, 2), Free, Used(5, 0), Free, Free,
     Free, Free, Free, Free, Free, Free, Free, Free]
  const PosD: map<Key, nat> := map[5 := 5, 2 := 2, 3 := 3, 1 := 1]

  lemma TableA()
    ensures Located(Empty, map[]) && Mapping(Empty, map[]) == map[]
    ensures Located(ArrA, PosA) && Mapping(ArrA, PosA) == map[5 := 0]
  {
  }

  lemma TableB()
    ensures Located(ArrB, PosB) && Mapping(ArrB, PosB) == map[5 := 0, 2 := 1]
  {
  }

  lemma TableC()
    ensures Located(ArrC, PosC) && Mapping(ArrC, PosC) == map[5 := 0, 2 := 1, 3 := 2]
  {
  }

  /** The grown table, with mutex m under id 1. */
  lemma GrownTable(m: Mutex)
    ensures Located(ArrD[1 := Used(1, m)], PosD)
    ensures Mapping(ArrD[1 := Used(1, m)], PosD) == map[5 := 0, 2 := 1, 3 := 2, 1 := m]
    ensures ArrD[1 := Used(1, 3)] == ArrD
  {
    var g := ArrD[1 := Used(1, m)];
    assert g[1] == Used(1, m) && g[2] == Used(2, 1) && g[3] == Used(3, 2) && g[5] == Used(5, 0);
    forall p: nat | p < |g| && g[p].Used?
      ensures g[p].idx in PosD && PosD[g[p].idx] == p
    {
      assert p == 1 || p == 2 || p == 3 || p == 5;
    }
  }

  /** Thread 1 is inside id 5 and thread 3 inside 2 and 3; thread 2 waits for 5, found in slot 1. */
  lemma {:induction false} ThreeLocked() returns (run: Run, s: State)
    ensures EndsIn(run, s) && s.lockLock == None && s.priority == Some(2) && s.arr == ArrC && s.pos == PosC
    ensures s.holder == map[0 := Some(1), 1 := Some(3), 2 := Some(3)]
    ensures s.pc.Keys == {1, 2, 3} && s.pc[1].at == Idle && s.pc[2] == Thread(LockWait, 5, 1, 0) && s.pc[3].at == Idle
    ensures s.inside.Keys == {1, 2, 3} && 5 in s.inside[1]
  {
    hide EndsIn;
    TableA();
    TableB();
    TableC();
    hide Located; hide Mapping;
    run := Begins();
    s := Begin();
    run, s := LocksNew(run, s, 1, 5, Make(0, ArrA, PosA));
    run, s := LocksNew(run, s, 3, 2, Make(1, ArrB, PosB));
    run, s := LocksNew(run, s, 3, 3, Make(2, ArrC, PosC));
    run, s := Waits(run, s, 2, 5);
  }

  /** Then thread 3 locks id 1, which makes the table grow. */
  lemma {:induction false} Grows() returns (run: Run, s: State)
    ensures EndsIn(run, s) && s.lockLock == None && s.priority == Some(2) && s.arr == ArrD && s.pos == PosD
    ensures s.holder == map[0 := Some(1), 1 := Some(3), 2 := Some(3), 3 := Some(3)]
    ensures s.pc.Keys == {1, 2, 3} && s.pc[1].at == Idle && s.pc[2] == Thread(LockWait, 5, 1, 0)
    ensures s.inside.Keys == {1, 2, 3} && 5 in s.inside[1]
  {
    hide EndsIn;
    run, s := ThreeLocked();
    TableC();
    GrownTable(3);
    hide Located; hide Mapping;
    run, s := LocksNew(run, s, 3, 1, Make(3, ArrD, PosD));
  }

  /** When thread 1 unlocks 5, thread 2 writes the mutex of 5 into slot 1, which is id 1's now: two ids share a mutex,
      and id 1 has lost its own. */
  lemma {:induction false} GrowthInWait() returns (run: Run, before: State, s: State)
    ensures EndsIn(run, s) && before in run.r
    ensures Located(before.arr, before.pos) && before.Mutexes() == map[5 := 0, 2 := 1, 3 := 2, 1 := 3]
    ensures Located(s.arr, s.pos) && s.Mutexes() == map[5 := 0, 2 := 1, 3 := 2, 1 := 0]
  {
    run, before := Grows();
    assert before in run.r;
    hide EndsIn;
    GrownTable(3);
    GrownTable(0);
    hide Located; hide Mapping;
    run, s := Unlocks(run, before, 1, 5);
    run, s := Wakes(run, s, 2);
  }
}
