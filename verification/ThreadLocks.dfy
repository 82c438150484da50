/** The numbered locks of src/thread.c, l_tlock and l_tunlock, as interleaved steps of any number of threads.
    Each step is one mutex operation or one table access. */
module ThreadLocks {
  import opened Option
  import opened Larray

  type Tid = nat
  type Mutex = nat

  /** The places of a thread: what it does next. */
  datatype Place =
    | Idle
    | LockStart      // line 43: lock thread_lock_lock
    | LockLook       // line 49: look the id up
    | LockPrio       // line 57: lock thread_priority_lock
    | LockRelease    // line 59: unlock thread_lock_lock
    | LockWait       // line 60: lock the mutex of the id
    | LockRelock     // line 61: lock thread_lock_lock
    | LockUnprio     // line 63: unlock thread_priority_lock
    | LockWrite      // line 64: write the mutex back through the slot found on line 49
    | LockEnd        // line 68: unlock thread_lock_lock and return
    | UnlockStart    // line 75: lock thread_lock_lock
    | UnlockLook     // line 77: look the id up
    | UnlockRelease  // line 80: unlock the mutex of the id
    | UnlockWrite    // line 81
    | UnlockEnd      // line 84: unlock thread_lock_lock and return

  /** Where a thread is, with the arguments and locals of its call: the id, and the slot and mutex it found. */
  datatype Thread = Thread(at: Place, id: Key, slot: nat, m: Mutex) {
    predicate HasLockLock() {
      || at.LockLook? || at.LockPrio? || at.LockRelease? || at.LockUnprio? || at.LockWrite? || at.LockEnd?
      || at.UnlockLook? || at.UnlockRelease? || at.UnlockWrite? || at.UnlockEnd?
    }

    predicate HasPriority() {
      at.LockRelease? || at.LockWait? || at.LockRelock? || at.LockUnprio?
    }

    /** Remembers a slot found earlier. */
    predicate HasSlot() {
      || at.LockPrio? || at.LockRelease? || at.LockWait? || at.LockRelock? || at.LockUnprio? || at.LockWrite?
      || at.UnlockRelease? || at.UnlockWrite?
    }

    /** Has locked the mutex of its id and not unlocked it yet. */
    predicate HasMutex() {
      || at.LockRelock? || at.LockUnprio? || at.LockWrite? || at.LockEnd?
      || at.UnlockStart? || at.UnlockLook? || at.UnlockRelease?
    }

    predicate Unlocking() {
      at.UnlockStart? || at.UnlockLook? || at.UnlockRelease? || at.UnlockWrite? || at.UnlockEnd?
    }
  }

  /** holder says which thread, if any, has locked a mutex; inside, which ids a thread has locked by calls that have
      returned and not begun to unlock. */
  datatype State = State(lockLock: Option<Tid>, priority: Option<Tid>, holder: map<Mutex, Option<Tid>>,
                         arr: seq<Slot<Mutex>>, pos: map<Key, nat>, pc: map<Tid, Thread>, inside: map<Tid, set<Key>>)
  {
    /** The mutex of each id. */
    ghost function Mutexes(): map<Key, Mutex>
      requires Located(arr, pos)
    {
      Mapping(arr, pos)
    }
  }

  /** thread_locks->arr[i].value = m */
  function WriteBack(arr: seq<Slot<Mutex>>, i: nat, m: Mutex): seq<Slot<Mutex>> {
    if i < |arr| && arr[i].Used? then arr[i := Used(arr[i].idx, m)] else arr
  }

  // ---- One step of thread t ----

  ghost predicate Creates(s: State, t: Tid)
    requires t in s.pc
  {
    s.pc[t].at == LockLook && s.pc[t].id !in s.pos
  }

  /** Where the thread goes. A thread unlocks only an id it is inside of. */
  ghost predicate Goes(s: State, p: Thread, p': Thread, ids: set<Key>) {
    match p.at
    case Idle => p'.at == LockStart || (p'.at == UnlockStart && p'.id in ids)
    case LockStart => p' == p.(at := LockLook)
    case LockLook =>
      if p.id in s.pos then Finds(s, p, p') && p'.at == LockPrio else p' == p.(at := LockEnd)
    case LockPrio => p' == p.(at := LockRelease)
    case LockRelease => p' == p.(at := LockWait)
    case LockWait => p' == p.(at := LockRelock)
    case LockRelock => p' == p.(at := LockUnprio)
    case LockUnprio => p' == p.(at := LockWrite)
    case LockWrite => p' == p.(at := LockEnd)
    case LockEnd => p' == p.(at := Idle)
    case UnlockStart => p' == p.(at := UnlockLook)
    case UnlockLook =>
      if p.id in s.pos then Finds(s, p, p') && p'.at == UnlockRelease else p' == p.(at := UnlockEnd)
    case UnlockRelease => p' == p.(at := UnlockWrite)
    case UnlockWrite => p' == p.(at := UnlockEnd)
    case UnlockEnd => p' == p.(at := Idle)
  }

  ghost predicate Finds(s: State, p: Thread, p': Thread)
    requires p.id in s.pos
  {
    p'.id == p.id && p'.slot == s.pos[p.id] < |s.arr| && s.arr[p'.slot].Used? && p'.m == s.arr[p'.slot].value
  }

  /** A mutex operation: `takes` waits until the mutex is free. */
  ghost predicate Locking(takes: bool, frees: bool, t: Tid, lock: Option<Tid>, lock': Option<Tid>) {
    if takes then lock == None && lock' == Some(t) else if frees then lock' == None else lock' == lock
  }

  ghost predicate HolderStep(s: State, s': State, t: Tid, p: Thread) {
    if p.at == LockWait then
      p.m in s.holder && s.holder[p.m] == None && s'.holder == s.holder[p.m := Some(t)]
    else if p.at == UnlockRelease then s'.holder == s.holder[p.m := None]
    else s'.holder == s.holder
  }

  ghost predicate TableStep(s: State, s': State, p: Thread) {
    s'.pos == s.pos &&
    s'.arr == if p.at == LockWrite || p.at == UnlockWrite then WriteBack(s.arr, p.slot, p.m) else s.arr
  }

  /** Lines 50-54: a new mutex, locked at once, is stored under id. By its contract larray_set adds id to the mapping;
      where it puts the ids, and whether the table grows, is open. */
  ghost predicate CreateStep(s: State, s': State, t: Tid, id: Key) {
    && Located(s.arr, s.pos) && Located(s'.arr, s'.pos)
    && exists m: Mutex ::
         m !in s.holder && s'.holder == s.holder[m := Some(t)] && s'.Mutexes() == s.Mutexes()[id := m]
  }

  ghost predicate InsideStep(ids: set<Key>, ids': set<Key>, p: Thread, p': Thread) {
    ids' == if p.at == LockEnd then ids + {p.id} else if p'.at == UnlockStart then ids - {p'.id} else ids
  }

  ghost predicate Step(s: State, s': State, t: Tid) {
    && t in s.pc && t in s.inside && t in s'.pc && t in s'.inside
    && s'.pc == s.pc[t := s'.pc[t]] && s'.inside == s.inside[t := s'.inside[t]]
    && var p, p' := s.pc[t], s'.pc[t];
       && Goes(s, p, p', s.inside[t])
       && InsideStep(s.inside[t], s'.inside[t], p, p')
       && Locking(p.at.LockStart? || p.at.LockRelock? || p.at.UnlockStart?,
                  p.at.LockRelease? || p.at.LockEnd? || p.at.UnlockEnd?, t, s.lockLock, s'.lockLock)
       && Locking(p.at == LockPrio, p.at == LockUnprio, t, s.priority, s'.priority)
       && if Creates(s, t) then CreateStep(s, s', t, p.id) else HolderStep(s, s', t, p) && TableStep(s, s', p)
  }

  // ---- The invariant ----

  /** The slot a thread remembers has not been given to another id. */
  ghost predicate SlotKept(s: State, p: Thread) {
    p.HasSlot() && p.slot < |s.arr| && s.arr[p.slot].Used? ==> s.arr[p.slot].idx == p.id
  }

  /** No waiting thread has lost its slot. Without it the write-back of line 64 hits another id. */
  ghost predicate Undisturbed(s: State) {
    forall t :: t in s.pc ==> SlotKept(s, s.pc[t])
  }

  ghost predicate GlobalLocks(s: State) {
    && (s.lockLock.Some? ==> s.lockLock.value in s.pc)
    && (s.priority.Some? ==> s.priority.value in s.pc)
    && forall t :: t in s.pc ==>
         && (s.pc[t].HasLockLock() <==> s.lockLock == Some(t))
         && (s.pc[t].HasPriority() <==> s.priority == Some(t))
  }

  ghost predicate MutexTable(s: State) {
    && Located(s.arr, s.pos)
    && (forall k :: k in s.pos ==> s.Mutexes()[k] in s.holder)
    && (forall j, k :: j in s.pos && k in s.pos && s.Mutexes()[j] == s.Mutexes()[k] ==> j == k)
  }

  /** Thread t has locked the mutex of id. */
  ghost predicate Owns(s: State, t: Tid, id: Key)
    requires Located(s.arr, s.pos)
  {
    id in s.pos && s.Mutexes()[id] in s.holder && s.holder[s.Mutexes()[id]] == Some(t)
  }

  ghost predicate ThreadInv(s: State, t: Tid)
    requires t in s.pc && t in s.inside && Located(s.arr, s.pos)
  {
    var p := s.pc[t];
    && (p.HasSlot() ==> p.id in s.pos && s.Mutexes()[p.id] == p.m)
    && (p.HasMutex() ==> Owns(s, t, p.id))
    && (forall id :: id in s.inside[t] ==> Owns(s, t, id))
    && (p.Unlocking() ==> p.id !in s.inside[t])
  }

  ghost predicate Inv(s: State) {
    && s.pc.Keys == s.inside.Keys
    && GlobalLocks(s) && MutexTable(s) && Undisturbed(s)
    && forall t :: t in s.pc ==> ThreadInv(s, t)
  }

  // ---- Every step keeps it ----

  lemma {:induction false} GlobalLocksKept(s: State, s': State, t: Tid)
    requires GlobalLocks(s) && Step(s, s', t)
    ensures GlobalLocks(s')
  {
    hide CreateStep; hide HolderStep; hide TableStep; hide Finds;
    var p := s.pc[t];
    assert p.HasLockLock() <==> s.lockLock == Some(t);
    assert p.HasPriority() <==> s.priority == Some(t);
  }

  /** A thread's part of the invariant depends on its own state and on who owns what. */
  lemma OthersKept(s: State, s': State, u: Tid)
    requires u in s.pc && u in s.inside && u in s'.pc && u in s'.inside
    requires Located(s.arr, s.pos) && Located(s'.arr, s'.pos) && ThreadInv(s, u)
    requires s'.pc[u] == s.pc[u] && s'.inside[u] == s.inside[u]
    requires forall k :: k in s.pos ==> k in s'.pos && s'.Mutexes()[k] == s.Mutexes()[k]
    requires forall k :: k in s.pos && Owns(s, u, k) ==> Owns(s', u, k)
    ensures ThreadInv(s', u)
  {
    hide Located; hide Mapping;
  }

  lemma TableSame(s: State, s': State)
    requires Located(s.arr, s.pos) && s'.arr == s.arr && s'.pos == s.pos
    ensures Located(s'.arr, s'.pos) && s'.Mutexes() == s.Mutexes()
  {
  }

  /** The write-back changes nothing as long as the slot still belongs to the id. */
  lemma WriteBackKept(s: State, p: Thread)
    requires Located(s.arr, s.pos) && SlotKept(s, p) && p.HasSlot() && p.id in s.pos && s.Mutexes()[p.id] == p.m
    ensures WriteBack(s.arr, p.slot, p.m) == s.arr
  {
    if p.slot < |s.arr| && s.arr[p.slot].Used? {
      assert s.pos[p.id] == p.slot;
    }
  }

  lemma {:induction false} TableKept(s: State, s': State, t: Tid)
    requires Inv(s) && Step(s, s', t) && !Creates(s, t)
    ensures s'.arr == s.arr && s'.pos == s.pos
  {
    hide Located; hide Mapping; hide WriteBack; hide GlobalLocks; hide HolderStep; hide Finds;
    var p := s.pc[t];
    assert ThreadInv(s, t) && SlotKept(s, p);
    if p.at == LockWrite || p.at == UnlockWrite {
      WriteBackKept(s, p);
    }
  }

  /** A step takes no id from anyone but the thread that unlocks it. */
  lemma {:induction false} OwnersKept(s: State, s': State, t: Tid, u: Tid, id: Key)
    requires Inv(s) && Step(s, s', t) && !Creates(s, t)
    requires Located(s'.arr, s'.pos) && s'.Mutexes() == s.Mutexes() && s'.pos == s.pos
    requires Owns(s, u, id) && !(u == t && s.pc[t].at == UnlockRelease && s.pc[t].id == id)
    ensures Owns(s', u, id)
  {
    hide Located; hide Mapping; hide GlobalLocks; hide Goes; hide InsideStep; hide TableStep; hide Locking;
    assert ThreadInv(s, t);
  }

  lemma {:induction false} OwnPlaceKept(s: State, s': State, t: Tid)
    requires Inv(s) && Step(s, s', t) && !Creates(s, t)
    requires s'.arr == s.arr && s'.pos == s.pos && Located(s'.arr, s'.pos) && s'.Mutexes() == s.Mutexes()
    ensures var p, p' := s.pc[t], s'.pc[t];
            && (p'.HasSlot() ==> p'.id in s'.pos && s'.Mutexes()[p'.id] == p'.m)
            && (p'.HasMutex() ==> (p.at == LockWait && p'.id == p.id) || (p.at == Idle && p'.id in s.inside[t])
                                  || (p.at != UnlockRelease && p.HasMutex() && p'.id == p.id))
            && (p'.Unlocking() ==> p'.id !in s'.inside[t])
            && s'.inside[t] <= s.inside[t] + (if p.at == LockEnd then {p.id} else {})
  {
    assert ThreadInv(s, t);
    hide Undisturbed; hide GlobalLocks; hide Locking; hide HolderStep; hide TableStep; hide Owns;
  }

  lemma {:induction false} OwnThreadKept(s: State, s': State, t: Tid)
    requires Inv(s) && Step(s, s', t) && !Creates(s, t)
    requires s'.arr == s.arr && s'.pos == s.pos && Located(s'.arr, s'.pos) && s'.Mutexes() == s.Mutexes()
    ensures ThreadInv(s', t)
  {
    OwnPlaceKept(s, s', t);
    hide Undisturbed, GlobalLocks, Locking, TableStep, Located, Mapping, Goes, InsideStep;
    var p, p' := s.pc[t], s'.pc[t];
    assert ThreadInv(s, t);
    forall id | Owns(s, t, id) && !(p.at == UnlockRelease && p.id == id)
      ensures Owns(s', t, id)
    {
      OwnersKept(s, s', t, t, id);
    }
    assert p.at == LockWait ==> Owns(s', t, p.id);
    hide HolderStep; hide Owns; hide MutexTable;
  }

  /** Every step but the creation of a lock keeps the table, and the invariant. */
  lemma {:induction false} StepOnOldLocks(s: State, s': State, t: Tid)
    requires Inv(s) && Step(s, s', t) && Undisturbed(s') && !Creates(s, t)
    ensures Inv(s') && s'.Mutexes() == s.Mutexes()
  {
    TableKept(s, s', t);
    TableSame(s, s');
    GlobalLocksKept(s, s', t);
    OwnThreadKept(s, s', t);
    hide Located; hide Mapping; hide GlobalLocks; hide Goes; hide InsideStep; hide TableStep; hide Locking;
    forall u | u in s'.pc && u != t
      ensures ThreadInv(s', u)
    {
      assert ThreadInv(s, u);
      forall id | Owns(s, u, id)
        ensures Owns(s', u, id)
      {
        OwnersKept(s, s', t, u, id);
      }
      OthersKept(s, s', u);
    }
  }

  lemma {:induction false} CreateKeepsTable(s: State, s': State, t: Tid)
    requires Inv(s) && t in s.pc && Creates(s, t) && CreateStep(s, s', t, s.pc[t].id)
    ensures MutexTable(s') && Extends(s.Mutexes(), s'.Mutexes()) && Owns(s', t, s.pc[t].id)
    ensures s'.pos.Keys == s.pos.Keys + {s.pc[t].id}
    ensures forall u, id :: Owns(s, u, id) ==> Owns(s', u, id)
  {
    assert s.Mutexes().Keys == s.pos.Keys && s'.Mutexes().Keys == s'.pos.Keys;
    assert MutexTable(s);
    hide Located; hide Mapping; hide Inv;
    CreateKeepsOwners(s, s', t, s.pc[t].id);
  }

  lemma {:induction false} CreateKeepsOwners(s: State, s': State, t: Tid, id: Key)
    requires MutexTable(s) && CreateStep(s, s', t, id) && id !in s.pos
    requires s.Mutexes().Keys == s.pos.Keys && s'.Mutexes().Keys == s'.pos.Keys
    ensures MutexTable(s') && Extends(s.Mutexes(), s'.Mutexes()) && Owns(s', t, id)
    ensures forall u, k :: Owns(s, u, k) ==> Owns(s', u, k)
  {
    hide Located; hide Mapping;
  }

  lemma {:induction false} StepThatCreates(s: State, s': State, t: Tid)
    requires Inv(s) && Step(s, s', t) && Undisturbed(s') && Creates(s, t)
    ensures Inv(s') && Extends(s.Mutexes(), s'.Mutexes())
  {
    GlobalLocksKept(s, s', t);
    CreateKeepsTable(s, s', t);
    hide Located; hide Mapping; hide GlobalLocks; hide CreateStep; hide Locking; hide Owns;
    assert ThreadInv(s, t);
    forall u | u in s'.pc && u != t
      ensures ThreadInv(s', u)
    {
      assert ThreadInv(s, u);
      OthersKept(s, s', u);
    }
    assert ThreadInv(s', t);
  }

  ghost predicate Extends(m: map<Key, Mutex>, m': map<Key, Mutex>) {
    forall k :: k in m ==> k in m' && m'[k] == m[k]
  }

  lemma {:induction false} StepKeepsInv(s: State, s': State, t: Tid)
    requires Inv(s) && Step(s, s', t) && Undisturbed(s')
    ensures Inv(s') && Extends(s.Mutexes(), s'.Mutexes())
  {
    hide Goes; hide InsideStep; hide Locking; hide CreateStep; hide HolderStep; hide TableStep;
    hide Undisturbed; hide GlobalLocks; hide ThreadInv; hide Located; hide Mapping;
    if Creates(s, t) {
      StepThatCreates(s, s', t);
    } else {
      StepOnOldLocks(s, s', t);
    }
  }

  // ---- Whole runs ----

  /** No thread has called anything yet, and the table is empty (thread_locks == NULL reads the same). */
  ghost predicate Init(s: State) {
    && s.lockLock == None && s.priority == None && s.holder == map[]
    && (forall p :: 0 <= p < |s.arr| ==> s.arr[p].Free?) && s.pos == map[]
    && s.pc.Keys == s.inside.Keys
    && forall t :: t in s.pc ==> s.pc[t].at == Idle && s.inside[t] == {}
  }

  /** Step i of the run takes r[i] to r[i + 1] and is made by thread ts[i]. */
  ghost predicate IsRun(r: seq<State>, ts: seq<Tid>) {
    |r| == |ts| + 1 && Init(r[0]) && forall i :: 0 <= i < |ts| ==> Step(r[i], r[i + 1], ts[i])
  }

  lemma {:induction false} RunKeepsInv(r: seq<State>, ts: seq<Tid>, j: nat)
    requires IsRun(r, ts) && j < |r| && forall i :: 0 <= i <= j ==> Undisturbed(r[i])
    ensures Inv(r[j])
    decreases j
  {
    if j > 0 {
      RunKeepsInv(r, ts, j - 1);
      hide Inv; hide Undisturbed;
      StepKeepsInv(r[j - 1], r[j], ts[j - 1]);
    }
  }

  /** At most one thread is inside an id, and at most one waits for the mutex of any id. */
  lemma {:induction false} MutualExclusion(r: seq<State>, ts: seq<Tid>, j: nat, t: Tid, u: Tid)
    requires IsRun(r, ts) && j < |r| && forall i :: 0 <= i <= j ==> Undisturbed(r[i])
    requires t in r[j].pc && u in r[j].pc && t != u
    ensures t in r[j].inside && u in r[j].inside && r[j].inside[t] !! r[j].inside[u]
    ensures !(r[j].pc[t].at == LockWait && r[j].pc[u].at == LockWait)
  {
    RunKeepsInv(r, ts, j);
    var s := r[j];
    assert ThreadInv(s, t) && ThreadInv(s, u);
    hide Located; hide Mapping; hide Step;
    assert forall id :: id in s.inside[t] ==> Owns(s, t, id);
    assert forall id :: id in s.inside[u] ==> Owns(s, u, id);
  }

  /** An id keeps the same mutex for ever. */
  lemma {:induction false} MutexForever(r: seq<State>, ts: seq<Tid>, i: nat, j: nat)
    requires IsRun(r, ts) && i <= j < |r| && forall k :: 0 <= k <= j ==> Undisturbed(r[k])
    ensures Located(r[i].arr, r[i].pos) && Located(r[j].arr, r[j].pos) && Extends(r[i].Mutexes(), r[j].Mutexes())
    decreases j - i
  {
    hide Step; hide Inv; hide Undisturbed; hide Init; hide Located; hide Mapping;
    RunKeepsInv(r, ts, i);
    InvLocated(r[i]);
    if i < j {
      MutexForever(r, ts, i + 1, j);
      StepKeepsInv(r[i], r[i + 1], ts[i]);
      ExtendsTransitive(r[i].Mutexes(), r[i + 1].Mutexes(), r[j].Mutexes());
    }
  }

  lemma InvLocated(s: State)
    requires Inv(s)
    ensures Located(s.arr, s.pos)
  {
  }

  lemma ExtendsTransitive(a: map<Key, Mutex>, b: map<Key, Mutex>, c: map<Key, Mutex>)
    requires Extends(a, b) && Extends(b, c)
    ensures Extends(a, c)
  {
  }

  // ---- When the write-back is safe ----

  /** The write-back of line 64 (and 81) leaves every id its mutex exactly when the slot has not been given to another
      id. */
  lemma WriteBackExact(s: State, p: Thread)
    requires MutexTable(s) && p.HasSlot() && p.id in s.pos && s.Mutexes()[p.id] == p.m
    ensures WriteBack(s.arr, p.slot, p.m) == s.arr <==> SlotKept(s, p)
  {
    if p.slot < |s.arr| && s.arr[p.slot].Used? {
      var k := s.arr[p.slot].idx;
      assert s.pos[k] == p.slot && s.Mutexes()[k] == s.arr[p.slot].value;
      assert WriteBack(s.arr, p.slot, p.m)[p.slot].value == p.m;
    }
  }

  /** Every slot a thread remembers still holds its id. */
  ghost predicate SlotsHeld(s: State) {
    forall t :: t in s.pc && s.pc[t].HasSlot() ==>
      s.pc[t].slot < |s.arr| && s.arr[s.pc[t].slot].Used? && s.arr[s.pc[t].slot].idx == s.pc[t].id
  }

  /** A new id goes to a free slot, or the table is rearranged while no thread remembers a slot. */
  ghost predicate NoGrowthInWait(s: State, s': State) {
    || (forall p :: 0 <= p < |s.arr| && s.arr[p].Used? ==>
          p < |s'.arr| && s'.arr[p].Used? && s'.arr[p].idx == s.arr[p].idx)
    || (forall t :: t in s.pc ==> !s.pc[t].HasSlot())
  }

  /** Runs in which the table does not grow while a thread waits are undisturbed. */
  lemma {:induction false} NoGrowthUndisturbed(r: seq<State>, ts: seq<Tid>, j: nat)
    requires IsRun(r, ts) && j < |r| && forall i :: 0 <= i < j ==> NoGrowthInWait(r[i], r[i + 1])
    ensures Undisturbed(r[j]) && Inv(r[j]) && SlotsHeld(r[j])
    decreases j
  {
    if j > 0 {
      NoGrowthUndisturbed(r, ts, j - 1);
      NoGrowthStep(r[j - 1], r[j], ts[j - 1]);
      hide Inv; hide Undisturbed; hide SlotsHeld;
      StepKeepsInv(r[j - 1], r[j], ts[j - 1]);
    }
  }

  lemma {:induction false} NoGrowthStep(s: State, s': State, t: Tid)
    requires Inv(s) && SlotsHeld(s) && Step(s, s', t) && NoGrowthInWait(s, s')
    ensures SlotsHeld(s') && Undisturbed(s')
  {
    assert MutexTable(s);
    if !Creates(s, t) {
      TableKept(s, s', t);
    }
    hide Locking; hide HolderStep; hide TableStep; hide InsideStep; hide CreateStep; hide MutexTable;
    hide GlobalLocks; hide ThreadInv; hide Mapping; hide Undisturbed;
    forall u | u in s'.pc && s'.pc[u].HasSlot()
      ensures s'.pc[u].slot < |s'.arr| && s'.arr[s'.pc[u].slot].Used? && s'.arr[s'.pc[u].slot].idx == s'.pc[u].id
    {
      if u != t || s.pc[t].HasSlot() {
        assert s.pc[u].HasSlot() && s.arr[s.pc[u].slot].Used?;
      }
    }
    HeldUndisturbed(s');
  }

  lemma HeldUndisturbed(s: State)
    requires SlotsHeld(s)
    ensures Undisturbed(s)
  {
  }

  // ---- What is not guaranteed ----

  /** Thread a waits for thread_priority_lock with thread_lock_lock in hand, and b has thread_priority_lock, which it
      gives back only after it has had thread_lock_lock again. */
  ghost predicate Jammed(s: State, a: Tid, b: Tid) {
    && a in s.pc && b in s.pc && a != b
    && s.pc[a].at == LockPrio && s.lockLock == Some(a) && s.priority == Some(b)
  }

  /** A jam is never left. From there on no call gets past its first line, and none returns: the only steps are to begin
      a call, and for b to get the mutex it may be waiting for. */
  lemma {:induction false} JammedForever(s: State, s': State, t: Tid, a: Tid, b: Tid)
    requires GlobalLocks(s) && Step(s, s', t) && Jammed(s, a, b)
    ensures Jammed(s', a, b) && t != a
    ensures s.pc[t].at == Idle || (t == b && s.pc[t].at == LockWait)
    ensures s'.arr == s.arr && s'.pos == s.pos
  {
    hide Finds; hide CreateStep; hide WriteBack;
    assert s.pc[t].HasLockLock() <==> s.lockLock == Some(t);
    assert s.pc[t].HasPriority() <==> s.priority == Some(t);
  }

  /** In all of a run after a jam there is the jam. */
  lemma {:induction false} JammedRun(r: seq<State>, ts: seq<Tid>, i: nat, j: nat, a: Tid, b: Tid)
    requires IsRun(r, ts) && i <= j < |r| && GlobalLocks(r[i]) && Jammed(r[i], a, b)
    ensures Jammed(r[j], a, b) && r[j].lockLock == r[i].lockLock && r[j].priority == r[i].priority
    decreases j - i
  {
    if i < j {
      GlobalLocksKept(r[i], r[i + 1], ts[i]);
      JammedForever(r[i], r[i + 1], ts[i], a, b);
      hide Step; hide GlobalLocks;
      JammedRun(r, ts, i + 1, j, a, b);
    }
  }

  /** A step jams the locks exactly when it looks up an id that is in the table (line 49) while some thread has
      thread_priority_lock. */
  lemma {:induction false} JamBegins(s: State, s': State, t: Tid)
    requires GlobalLocks(s) && Step(s, s', t) && !exists a, b :: Jammed(s, a, b)
    ensures (exists a, b :: Jammed(s', a, b)) <==>
            s.pc[t].at == LockLook && s.pc[t].id in s.pos && s.priority.Some?
  {
    GlobalLocksKept(s, s', t);
    if s.pc[t].at == LockLook && s.pc[t].id in s.pos && s.priority.Some? {
      EntersJam(s, s', t, s.priority.value);
    } else if a, b :| Jammed(s', a, b) {
      NoOtherWayIn(s, s', t, a, b);
    }
  }

  lemma {:induction false} EntersJam(s: State, s': State, t: Tid, b: Tid)
    requires GlobalLocks(s) && Step(s, s', t) && s.pc[t].at == LockLook && s.pc[t].id in s.pos && s.priority == Some(b)
    ensures Jammed(s', t, b)
  {
    hide Finds; hide CreateStep; hide HolderStep; hide TableStep;
    assert s.pc[t].HasLockLock() <==> s.lockLock == Some(t);
    assert s.pc[t].HasPriority() <==> s.priority == Some(t);
  }

  lemma {:induction false} NoOtherWayIn(s: State, s': State, t: Tid, a: Tid, b: Tid)
    requires GlobalLocks(s) && Step(s, s', t) && Jammed(s', a, b) && !exists a, b :: Jammed(s, a, b)
    ensures s.pc[t].at == LockLook && s.pc[t].id in s.pos && s.priority.Some?
  {
    hide Finds; hide CreateStep; hide HolderStep; hide TableStep;
    assert s.pc[t].HasLockLock() <==> s.lockLock == Some(t);
    assert a in s.pc && (s.pc[a].HasLockLock() <==> s.lockLock == Some(a));
    assert s.pc[a].HasPriority() <==> s.priority == Some(a);
    assert !Jammed(s, a, b);
  }

  /** Three threads in a jam: b waits for a mutex, and c, whose mutex that is, waits for thread_lock_lock. */
  ghost predicate Stuck(s: State, a: Tid, b: Tid, c: Tid) {
    && Jammed(s, a, b) && c in s.pc && b != c && a != c
    && s.pc[b].at == LockWait && s.pc[b].m in s.holder && s.holder[s.pc[b].m] == Some(c)
    && (s.pc[c].at == LockStart || s.pc[c].at == UnlockStart)
  }

  /** Then no thread gets a mutex any more either. */
  lemma {:induction false} StuckForever(s: State, s': State, t: Tid, a: Tid, b: Tid, c: Tid)
    requires GlobalLocks(s) && Step(s, s', t) && Stuck(s, a, b, c)
    ensures Stuck(s', a, b, c) && t != a && t != b && t != c
    ensures s.pc[t].at == Idle && s'.holder == s.holder && s'.arr == s.arr
  {
    JammedForever(s, s', t, a, b);
    hide Finds; hide CreateStep; hide WriteBack;
    assert s.pc[t].HasLockLock() <==> s.lockLock == Some(t);
  }
}
