/**
 The ticket spin lock as a step system: any number of threads, one atomic access per step,
 sequentially consistent interleavings and tickets that do not wrap.  Only the holder unlocks.
 */
module TicketLock {
  datatype Pc =
    | Idle
    | Taking                          // try_lock saw the lock free and goes on to lock
    | Waiting(ticket: nat)            // lock has drawn its ticket and spins
    | Holding(ticket: nat)
    | Testing(ticket: nat, curr: nat) // unlock runs is_locked and has loaded serving
    | Passing(ticket: nat)            // is_locked answered true
    | Storing(ticket: nat, curr: nat) // unlock has loaded serving again
    | TryLoaded(curr: nat)            // try_lock runs is_locked and has loaded serving
    | CheckLoaded(curr: nat)          // the same in a plain call of is_locked

  // takers[k] is the thread that drew ticket k: history, read by no step
  datatype State = State(next: nat, serving: nat, pc: map<nat, Pc>, takers: seq<nat>)

  datatype Step =
    | Take(t: nat)
    | Enter(t: nat)
    | TryLoad(t: nat)
    | TryTest(t: nat)
    | CheckLoad(t: nat)
    | CheckTest(t: nat)
    | UnlockLoad(t: nat)
    | UnlockTest(t: nat)
    | UnlockRead(t: nat)
    | UnlockStore(t: nat)

  predicate Enabled(s: State, e: Step)
  {
    && e.t in s.pc
    && match e
       case Take(t) => s.pc[t].Idle? || s.pc[t].Taking?
       case Enter(t) => s.pc[t].Waiting? && s.serving == s.pc[t].ticket
       case TryLoad(t) => s.pc[t].Idle?
       case TryTest(t) => s.pc[t].TryLoaded?
       case CheckLoad(t) => s.pc[t].Idle?
       case CheckTest(t) => s.pc[t].CheckLoaded?
       case UnlockLoad(t) => s.pc[t].Holding?
       case UnlockTest(t) => s.pc[t].Testing?
       case UnlockRead(t) => s.pc[t].Passing?
       case UnlockStore(t) => s.pc[t].Storing?
  }

  function Next(s: State, e: Step): State
    requires Enabled(s, e)
  {
    var p := s.pc[e.t];
    match e
    case Take(t) => State(s.next + 1, s.serving, s.pc[t := Waiting(s.next)], s.takers + [t])
    case Enter(t) => s.(pc := s.pc[t := Holding(p.ticket)])
    case TryLoad(t) => s.(pc := s.pc[t := TryLoaded(s.serving)])
    case TryTest(t) => s.(pc := s.pc[t := if p.curr != s.next then Idle else Taking])
    case CheckLoad(t) => s.(pc := s.pc[t := CheckLoaded(s.serving)])
    case CheckTest(t) => s.(pc := s.pc[t := Idle])
    case UnlockLoad(t) => s.(pc := s.pc[t := Testing(p.ticket, s.serving)])
    case UnlockTest(t) => s.(pc := s.pc[t := if p.curr != s.next then Passing(p.ticket) else Idle])
    case UnlockRead(t) => s.(pc := s.pc[t := Storing(p.ticket, s.serving)])
    case UnlockStore(t) => s.(serving := p.curr + 1, pc := s.pc[t := Idle])
  }

  // what the is_locked call that ends with this step returns
  predicate SaysLocked(s: State, e: Step)
    requires Enabled(s, e) && (e.TryTest? || e.CheckTest? || e.UnlockTest?)
  {
    s.pc[e.t].curr != s.next
  }

  predicate Owns(p: Pc)
  {
    p.Holding? || p.Testing? || p.Passing? || p.Storing?
  }

  predicate HasTicket(p: Pc)
  {
    p.Waiting? || Owns(p)
  }

  predicate Free(s: State)
  {
    s.serving == s.next
  }

  ghost predicate PcOk(s: State, t: nat)
    requires t in s.pc
  {
    var p := s.pc[t];
    && (HasTicket(p) ==> s.serving <= p.ticket < |s.takers| && s.takers[p.ticket] == t)
    && (Owns(p) ==> p.ticket == s.serving)
    && (p.Testing? || p.Storing? ==> p.curr == s.serving)
    && (p.TryLoaded? || p.CheckLoaded? ==> p.curr <= s.serving)
  }

  ghost predicate TicketOk(s: State, k: int)
    requires 0 <= k < |s.takers|
  {
    var t := s.takers[k];
    t in s.pc && HasTicket(s.pc[t]) && s.pc[t].ticket == k
  }

  ghost predicate Inv(s: State)
  {
    && s.next == |s.takers| && s.serving <= s.next
    && (forall t {:trigger PcOk(s, t)} :: t in s.pc ==> PcOk(s, t))
    && (forall k {:trigger TicketOk(s, k)} :: s.serving <= k < s.next ==> TicketOk(s, k))
  }

  ghost predicate Init(s: State)
  {
    s.next == 0 && s.serving == 0 && s.takers == [] && forall t {:trigger s.pc[t]} :: t in s.pc ==> s.pc[t] == Idle
  }

  lemma InitInv(s: State)
    requires Init(s)
    ensures Inv(s)
  {
  }

  lemma StepInv(s: State, e: Step)
    requires Inv(s) && Enabled(s, e)
    ensures Inv(Next(s, e))
  {
    var s' := Next(s, e);
    assert PcOk(s, e.t);
    forall t | t in s'.pc ensures PcOk(s', t) {
      assert PcOk(s, t);
    }
    forall k | s'.serving <= k < s'.next ensures TicketOk(s', k) {
      if k < s.next { assert TicketOk(s, k); }
    }
  }

  // ---------- runs ----------

  ghost predicate IsRun(states: seq<State>, steps: seq<Step>)
  {
    && |states| == |steps| + 1 && Init(states[0])
    && forall i {:trigger steps[i]} :: 0 <= i < |steps| ==> Enabled(states[i], steps[i]) && states[i + 1] == Next(states[i], steps[i])
  }

  lemma {:induction false} RunInv(states: seq<State>, steps: seq<Step>, i: nat)
    requires IsRun(states, steps) && i < |states|
    ensures Inv(states[i])
  {
    if i > 0 {
      RunInv(states, steps, i - 1);
      StepInv(states[i - 1], steps[i - 1]);
    } else {
      InitInv(states[0]);
    }
  }

  // at most one thread has the lock
  lemma Exclusive(s: State, t: nat, u: nat)
    requires Inv(s) && t in s.pc && u in s.pc && Owns(s.pc[t]) && Owns(s.pc[u])
    ensures t == u
  {
    assert PcOk(s, t) && PcOk(s, u);
  }

  lemma MutualExclusion(states: seq<State>, steps: seq<Step>, i: nat, t: nat, u: nat)
    requires IsRun(states, steps) && i < |states|
    requires t in states[i].pc && u in states[i].pc && Owns(states[i].pc[t]) && Owns(states[i].pc[u])
    ensures t == u
  {
    RunInv(states, steps, i);
    Exclusive(states[i], t, u);
  }

  // an owner's lock is not free, so its unlock always finds it locked
  lemma OwnedNotFree(s: State, t: nat)
    requires Inv(s) && t in s.pc && Owns(s.pc[t])
    ensures !Free(s) && (s.pc[t].Testing? ==> SaysLocked(s, UnlockTest(t)))
  {
    assert PcOk(s, t);
  }

  // is_locked answers false only if the lock is free at its second load
  lemma SaysFreeIsFree(s: State, e: Step)
    requires Inv(s) && Enabled(s, e) && (e.TryTest? || e.CheckTest? || e.UnlockTest?) && !SaysLocked(s, e)
    ensures Free(s) && forall u {:trigger s.pc[u]} :: u in s.pc ==> !HasTicket(s.pc[u])
  {
    assert PcOk(s, e.t);
    forall u | u in s.pc ensures !HasTicket(s.pc[u]) {
      assert PcOk(s, u);
    }
  }

  // a lock that is not free has an owner, or the thread whose turn it is can enter at once
  lemma Progress(s: State)
    requires Inv(s) && !Free(s)
    ensures var t := s.takers[s.serving]; t in s.pc && (Owns(s.pc[t]) || Enabled(s, Enter(t)))
  {
    assert TicketOk(s, s.serving);
  }

  // ---------- order ----------

  // once entered with, a ticket is never waited for again
  lemma {:induction false} EnteredOnce(states: seq<State>, steps: seq<Step>, i: nat, j: nat, t: nat)
    requires IsRun(states, steps) && i < j < |states| && steps[i].Enter? && t in states[j].pc
    ensures states[j].pc[t] != Waiting(states[i].serving) && states[i].serving <= states[j].serving && states[i].serving < states[j].next
    decreases j
  {
    RunInv(states, steps, j - 1);
    RunInv(states, steps, j);
    var s, e := states[j - 1], steps[j - 1];
    assert PcOk(s, e.t);
    if i + 1 < j {
      EnteredOnce(states, steps, i, j - 1, t);
    } else {
      assert PcOk(s, t);
    }
  }

  // threads enter in the order in which they drew their tickets
  lemma ServedInOrder(states: seq<State>, steps: seq<Step>, i: nat, j: nat)
    requires IsRun(states, steps) && i < j < |steps| && steps[i].Enter? && steps[j].Enter?
    ensures states[i].pc[steps[i].t].ticket < states[j].pc[steps[j].t].ticket
  {
    EnteredOnce(states, steps, i, j, steps[j].t);
  }

  // ---------- the other answer of is_locked ----------

  // the two loads of an is_locked call
  predicate Loads(e: Step)
  {
    e.TryLoad? || e.CheckLoad? || e.UnlockLoad?
  }

  predicate Tests(e: Step)
  {
    e.TryTest? || e.CheckTest? || e.UnlockTest?
  }

  // the steps i and j are the two loads of one call
  ghost predicate OneCall(steps: seq<Step>, i: nat, j: nat)
  {
    && i < j < |steps| && Loads(steps[i]) && Tests(steps[j]) && steps[i].t == steps[j].t
    && forall m {:trigger steps[m]} :: i < m < j ==> steps[m].t != steps[i].t
  }

  // nobody draws a ticket between the steps i and j
  ghost predicate Untouched(steps: seq<Step>, i: nat, j: nat)
  {
    forall m {:trigger steps[m]} :: i < m < j && m < |steps| ==> !steps[m].Take?
  }

  // what a step of another thread leaves
  lemma OthersStep(s: State, e: Step, t: nat)
    requires Enabled(s, e) && t in s.pc && e.t != t
    ensures var s' := Next(s, e); t in s'.pc && s'.pc[t] == s.pc[t] && s'.next == if e.Take? then s.next + 1 else s.next
  {
  }

  lemma {:induction false} BetweenLoads(states: seq<State>, steps: seq<Step>, i: nat, j: nat, n: nat)
    requires IsRun(states, steps) && OneCall(steps, i, j) && i < n <= j
    ensures steps[i].t in states[n].pc && states[n].pc[steps[i].t] == states[i + 1].pc[steps[i].t]
    ensures states[i].next <= states[n].next && (states[i].next == states[n].next <==> Untouched(steps, i, n))
    decreases n
  {
    if i + 1 < n {
      BetweenLoads(states, steps, i, j, n - 1);
      OthersStep(states[n - 1], steps[n - 1], steps[i].t);
      assert Untouched(steps, i, n) <==> Untouched(steps, i, n - 1) && !steps[n - 1].Take?;
    } else {
      assert Enabled(states[i], steps[i]) && states[n] == Next(states[i], steps[i]) && Untouched(steps, i, n);
    }
  }

  // is_locked answers false exactly if the lock was free at the first load and nobody drew a ticket before the second;
  // then try_lock goes on to lock, and else it gives up
  lemma AnswerExact(states: seq<State>, steps: seq<Step>, i: nat, j: nat)
    requires IsRun(states, steps) && OneCall(steps, i, j)
    ensures Enabled(states[j], steps[j])
    ensures !SaysLocked(states[j], steps[j]) <==> Free(states[i]) && Untouched(steps, i, j)
    ensures steps[j].TryTest? ==> states[j + 1].pc[steps[j].t] == if Free(states[i]) && Untouched(steps, i, j) then Taking else Idle
  {
    RunInv(states, steps, i);
    BetweenLoads(states, steps, i, j, j);
  }

  lemma Longer(states: seq<State>, steps: seq<Step>, e: Step) returns (states': seq<State>, steps': seq<Step>)
    requires IsRun(states, steps) && Enabled(states[|steps|], e)
    ensures IsRun(states', steps') && states' == states + [Next(states[|steps|], e)] && steps' == steps + [e]
  {
    states', steps' := states + [Next(states[|steps|], e)], steps + [e];
  }

  lemma FalseAlarmBegins() returns (states: seq<State>, steps: seq<Step>)
    ensures IsRun(states, steps) && |steps| == 4 && steps[0] == CheckLoad(0) && Free(states[0])
    ensures states[4] == State(1, 0, map[0 := CheckLoaded(0), 1 := Testing(0, 0)], [1])
  {
    states, steps := Longer([State(0, 0, map[0 := Idle, 1 := Idle], [])], [], CheckLoad(0));
    states, steps := Longer(states, steps, Take(1));
    states, steps := Longer(states, steps, Enter(1));
    states, steps := Longer(states, steps, UnlockLoad(1));
  }

  // true says less: the lock may be free at both loads
  lemma FalseAlarm() returns (states: seq<State>, steps: seq<Step>)
    ensures IsRun(states, steps) && |steps| == 8 && steps[0] == CheckLoad(0) && steps[7] == CheckTest(0)
    ensures Free(states[0]) && Free(states[7]) && SaysLocked(states[7], steps[7])
  {
    states, steps := FalseAlarmBegins();
    states, steps := Longer(states, steps, UnlockTest(1));
    states, steps := Longer(states, steps, UnlockRead(1));
    states, steps := Longer(states, steps, UnlockStore(1));
    states, steps := Longer(states, steps, CheckTest(0));
  }
}
