/** The reader-writer lock: a ticket lock for writers and a counter of readers, as a step system. */
module RwLock {
  import L = TicketLock

  datatype Role =
    | Out
    | FirstCheck    // try_acquire_read runs is_locked
    | Announcing    // it was free: about to count itself
    | SecondCheck   // counted, runs is_locked again
    | Retracting    // it was locked: about to take itself off the count
    | Reading
    | Locking       // acquire_write runs lock
    | Draining      // it owns the lock and waits for the count to reach 0
    | Writing
    | Unlocking     // release_write, or a failed try_acquire_write, runs unlock
    | TryLocking    // try_acquire_write runs try_lock
    | TryDraining   // it owns the lock and looks at the count once

  // every thread has a role here and a place in the writers' lock
  datatype State = State(lock: L.State, readers: int, role: map<nat, Role>)

  datatype Step =
    | Inner(e: L.Step)
    | BeginRead(t: nat)
    | AddReader(t: nat)
    | UndoReader(t: nat)
    | EndRead(t: nat)
    | BeginWrite(t: nat)
    | SeeDrained(t: nat)
    | EndWrite(t: nat)
    | BeginTryWrite(t: nat)
    | TestDrained(t: nat)

  // the steps of the writers' lock that a role makes
  predicate Makes(r: Role, e: L.Step)
  {
    match r
    case FirstCheck => e.CheckLoad? || e.CheckTest?
    case SecondCheck => e.CheckLoad? || e.CheckTest?
    case Locking => e.Take? || e.Enter?
    case TryLocking => e.TryLoad? || e.TryTest? || e.Enter? || e.Take?
    case Unlocking => e.UnlockLoad? || e.UnlockTest? || e.UnlockRead? || e.UnlockStore?
    case _ => false
  }

  predicate Enabled(s: State, m: Step)
  {
    match m
    case Inner(e) => e.t in s.role && Makes(s.role[e.t], e) && L.Enabled(s.lock, e) && (e.Take? && s.role[e.t].TryLocking? ==> s.lock.pc[e.t].Taking?)
    case BeginRead(t) => t in s.role && s.role[t].Out?
    case AddReader(t) => t in s.role && s.role[t].Announcing?
    case UndoReader(t) => t in s.role && s.role[t].Retracting?
    case EndRead(t) => t in s.role && s.role[t].Reading?
    case BeginWrite(t) => t in s.role && s.role[t].Out?
    case SeeDrained(t) => t in s.role && s.role[t].Draining? && s.readers == 0
    case EndWrite(t) => t in s.role && s.role[t].Writing?
    case BeginTryWrite(t) => t in s.role && s.role[t].Out?
    case TestDrained(t) => t in s.role && s.role[t].TryDraining?
  }

  // the role after a step of the writers' lock
  function RoleAfter(r: Role, s: L.State, e: L.Step): Role
    requires L.Enabled(s, e)
  {
    match e
    case CheckTest(_) =>
      if r.FirstCheck? then (if L.SaysLocked(s, e) then Out else Announcing)
      else if L.SaysLocked(s, e) then Retracting else Reading
    case Enter(_) => if r.Locking? then Draining else TryDraining
    case TryTest(_) => if L.SaysLocked(s, e) then Out else r
    case UnlockTest(_) => if L.SaysLocked(s, e) then r else Out
    case UnlockStore(_) => Out
    case _ => r
  }

  function Next(s: State, m: Step): State
    requires Enabled(s, m)
  {
    match m
    case Inner(e) => s.(lock := L.Next(s.lock, e), role := s.role[e.t := RoleAfter(s.role[e.t], s.lock, e)])
    case BeginRead(t) => s.(role := s.role[t := FirstCheck])
    case AddReader(t) => s.(readers := s.readers + 1, role := s.role[t := SecondCheck])
    case UndoReader(t) => s.(readers := s.readers - 1, role := s.role[t := Out])
    case EndRead(t) => s.(readers := s.readers - 1, role := s.role[t := Out])
    case BeginWrite(t) => s.(role := s.role[t := Locking])
    case SeeDrained(t) => s.(role := s.role[t := Writing])
    case EndWrite(t) => s.(role := s.role[t := Unlocking])
    case BeginTryWrite(t) => s.(role := s.role[t := TryLocking])
    case TestDrained(t) => s.(role := s.role[t := if s.readers == 0 then Writing else Unlocking])
  }

  predicate Counts(r: Role)
  {
    r.SecondCheck? || r.Retracting? || r.Reading?
  }

  ghost function Counted(role: map<nat, Role>): set<nat>
  {
    set t | t in role && Counts(role[t])
  }

  lemma CountedUpdate(role: map<nat, Role>, t: nat, r: Role)
    requires t in role
    ensures Counted(role[t := r]) == if Counts(r) then Counted(role) + {t} else Counted(role) - {t}
    ensures |Counted(role[t := r])| == |Counted(role)| + (if Counts(r) then 1 else 0) - (if Counts(role[t]) then 1 else 0)
  {
    var c, c' := Counted(role), Counted(role[t := r]);
    assert c' == if Counts(r) then c + {t} else c - {t};
  }

  // where a thread in this role can be in the writers' lock
  ghost predicate Fits(r: Role, p: L.Pc)
  {
    match r
    case FirstCheck => p.Idle? || p.CheckLoaded?
    case SecondCheck => p.Idle? || p.CheckLoaded?
    case Locking => p.Idle? || p.Waiting?
    case TryLocking => p.Idle? || p.TryLoaded? || p.Taking? || p.Waiting?
    case Draining => p.Holding?
    case TryDraining => p.Holding?
    case Writing => p.Holding?
    case Unlocking => L.Owns(p)
    case _ => p.Idle?
  }

  ghost predicate RoleOk(s: State, t: nat)
    requires t in s.role
  {
    t in s.lock.pc && Fits(s.role[t], s.lock.pc[t])
  }

  // no thread writes while another reads
  ghost predicate Apart(s: State, t: nat, u: nat)
  {
    t in s.role && u in s.role ==> !(s.role[t].Writing? && s.role[u].Reading?)
  }

  ghost predicate Inv(s: State)
  {
    && L.Inv(s.lock) && s.readers == |Counted(s.role)|
    && (forall t {:trigger RoleOk(s, t)} :: t in s.role ==> RoleOk(s, t))
    && (forall t, u {:trigger Apart(s, t, u)} :: Apart(s, t, u))
  }

  ghost predicate Init(s: State)
  {
    && L.Init(s.lock) && s.readers == 0 && s.role.Keys == s.lock.pc.Keys
    && forall t {:trigger s.role[t]} :: t in s.role ==> s.role[t] == Out
  }

  lemma InitInv(s: State)
    requires Init(s)
    ensures Inv(s)
  {
    L.InitInv(s.lock);
    assert Counted(s.role) == {};
    forall t | t in s.role ensures RoleOk(s, t) {
      assert t in s.lock.pc && s.lock.pc[t] == L.Idle;
    }
  }

  function Actor(m: Step): nat
  {
    if m.Inner? then m.e.t else m.t
  }

  // the readers' count moves with the actor's place among the counted
  lemma CountMoves(s: State, m: Step)
    requires Inv(s) && Enabled(s, m)
    ensures var a, s' := Actor(m), Next(s, m);
      && s'.role == s.role[a := s'.role[a]]
      && s'.readers - s.readers == (if Counts(s'.role[a]) then 1 else 0) - (if Counts(s.role[a]) then 1 else 0)
  {
  }

  lemma CountKept(s: State, m: Step)
    requires Inv(s) && Enabled(s, m)
    ensures Next(s, m).readers == |Counted(Next(s, m).role)|
  {
    var a := Actor(m);
    CountMoves(s, m);
    CountedUpdate(s.role, a, Next(s, m).role[a]);
  }

  lemma ActorFits(s: State, m: Step)
    requires Inv(s) && Enabled(s, m)
    ensures L.Inv(Next(s, m).lock) && RoleOk(Next(s, m), Actor(m))
  {
    var a := Actor(m);
    assert RoleOk(s, a);
    if m.Inner? {
      L.StepInv(s.lock, m.e);
      if L.Owns(s.lock.pc[a]) { L.OwnedNotFree(s.lock, a); }
    }
  }

  lemma RolesKept(s: State, m: Step, t: nat)
    requires Inv(s) && Enabled(s, m) && t in s.role
    ensures RoleOk(Next(s, m), t)
  {
    assert RoleOk(s, t);
    ActorFits(s, m);
  }

  // a thread starts to read only while the writers' lock is free, so no thread writes then
  lemma StartReading(s: State, e: L.Step, t: nat)
    requires Inv(s) && Enabled(s, Inner(e)) && Next(s, Inner(e)).role[e.t].Reading? && t in s.role
    ensures !s.role[t].Writing?
  {
    assert RoleOk(s, e.t) && RoleOk(s, t);
    L.SaysFreeIsFree(s.lock, e);
    assert !L.HasTicket(s.lock.pc[t]);
  }

  // a thread starts to write only while the count is 0, so no thread reads then
  lemma Drained(s: State, u: nat)
    requires Inv(s) && s.readers == 0 && u in s.role
    ensures !s.role[u].Reading?
  {
    assert s.role[u].Reading? ==> u in Counted(s.role);
  }

  lemma StepInv(s: State, m: Step)
    requires Inv(s) && Enabled(s, m)
    ensures Inv(Next(s, m))
  {
    var s' := Next(s, m);
    var a := Actor(m);
    CountKept(s, m);
    ActorFits(s, m);
    forall t | t in s'.role ensures RoleOk(s', t) {
      RolesKept(s, m, t);
    }
    forall t, u ensures Apart(s', t, u) {
      assert Apart(s, t, u);
      if t in s.role && u in s.role && s'.role[t].Writing? && s'.role[u].Reading? {
        if u == a && m.Inner? { StartReading(s, m.e, t); }
        if t == a && s.readers == 0 { Drained(s, u); }
      }
    }
  }

  // ---------- runs ----------

  ghost predicate IsRun(states: seq<State>, steps: seq<Step>)
  {
    && |states| == |steps| + 1 && Init(states[0])
    && forall i {:trigger steps[i]} :: 0 <= i < |steps| ==> Enabled(states[i], steps[i]) && states[i + 1] == Next(states[i], steps[i])
  }

  lemma {:induction false} RunInv(states: seq<State>, steps: seq<Step>, i: nat)
    requires IsRun(states, steps) && i < |states|
    ensures Inv(states[i])
  {
    if i > 0 {
      RunInv(states, steps, i - 1);
      StepInv(states[i - 1], steps[i - 1]);
    } else {
      InitInv(states[0]);
    }
  }

  // never a writer together with a reader or with another writer, and the count is that of the threads that announced themselves
  lemma WritersAlone(states: seq<State>, steps: seq<Step>, i: nat, t: nat, u: nat)
    requires IsRun(states, steps) && i < |states| && t in states[i].role && u in states[i].role && states[i].role[t].Writing?
    ensures !states[i].role[u].Reading? && (states[i].role[u].Writing? ==> t == u)
    ensures states[i].readers == |Counted(states[i].role)|
  {
    RunInv(states, steps, i);
    var s := states[i];
    assert Apart(s, t, u) && RoleOk(s, t) && RoleOk(s, u);
    if s.role[u].Writing? {
      L.Exclusive(s.lock, t, u);
    }
  }

  // ---------- what try_acquire_read and try_acquire_write answer ----------

  // the steps i and j are the two loads of one is_locked call
  ghost predicate OneCall(steps: seq<Step>, i: nat, j: nat)
  {
    && i < j < |steps| && steps[i].Inner? && L.Loads(steps[i].e) && steps[j].Inner? && L.Tests(steps[j].e)
    && Actor(steps[i]) == Actor(steps[j]) && forall m {:trigger steps[m]} :: i < m < j ==> Actor(steps[m]) != Actor(steps[i])
  }

  // no writer draws a ticket between the steps i and j
  ghost predicate Untouched(steps: seq<Step>, i: nat, j: nat)
  {
    forall m {:trigger steps[m]} :: i < m < j && m < |steps| ==> !(steps[m].Inner? && steps[m].e.Take?)
  }

  // what a step of another thread leaves
  lemma OthersStep(s: State, m: Step, t: nat)
    requires Enabled(s, m) && t in s.role && t in s.lock.pc && Actor(m) != t
    ensures var s' := Next(s, m);
      && t in s'.role && s'.role[t] == s.role[t] && t in s'.lock.pc && s'.lock.pc[t] == s.lock.pc[t]
      && s'.lock.next == if m.Inner? && m.e.Take? then s.lock.next + 1 else s.lock.next
  {
    if m.Inner? {
      L.OthersStep(s.lock, m.e, t);
    }
  }

  lemma FirstLoad(s: State, m: Step)
    requires Enabled(s, m) && m.Inner? && L.Loads(m.e)
    ensures var a, s' := Actor(m), Next(s, m);
      a in s'.lock.pc && a in s.role && a in s'.role && s'.role[a] == s.role[a] && s'.lock.next == s.lock.next
  {
  }

  lemma {:induction false} BetweenLoads(states: seq<State>, steps: seq<Step>, i: nat, j: nat, n: nat)
    requires IsRun(states, steps) && OneCall(steps, i, j) && i < n <= j
    ensures var a := Actor(steps[i]);
      && a in states[n].lock.pc && states[n].lock.pc[a] == states[i + 1].lock.pc[a]
      && a in states[n].role && states[n].role[a] == states[i].role[a]
    ensures states[i].lock.next <= states[n].lock.next
    ensures states[i].lock.next == states[n].lock.next <==> Untouched(steps, i, n)
    decreases n
  {
    if i + 1 < n {
      BetweenLoads(states, steps, i, j, n - 1);
      OthersStep(states[n - 1], steps[n - 1], Actor(steps[i]));
      assert Untouched(steps, i, n) <==> Untouched(steps, i, n - 1) && !(steps[n - 1].Inner? && steps[n - 1].e.Take?);
    } else {
      FirstLoad(states[i], steps[i]);
    }
  }

  // a reader goes on, at either check, exactly if the writers' lock was free at the first load and no writer drew a
  // ticket before the second; so does a writer that tries
  lemma GrantedExact(states: seq<State>, steps: seq<Step>, i: nat, j: nat)
    requires IsRun(states, steps) && OneCall(steps, i, j)
    ensures var a, granted := Actor(steps[i]), L.Free(states[i].lock) && Untouched(steps, i, j);
      && a in states[j].role
      && (states[j].role[a].FirstCheck? ==> states[j + 1].role[a] == if granted then Announcing else Out)
      && (states[j].role[a].SecondCheck? ==> states[j + 1].role[a] == if granted then Reading else Retracting)
      && (states[j].role[a].TryLocking? ==> states[j + 1].role[a] == if granted then TryLocking else Out)
  {
    RunInv(states, steps, i);
    BetweenLoads(states, steps, i, j, j);
    assert RoleOk(states[i], Actor(steps[i]));
  }
}
