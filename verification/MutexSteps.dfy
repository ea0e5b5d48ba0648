/**
 The three-state mutex as a step system: any number of threads, one access to the state word or one
 locked section of the wait queue per step, sequentially consistent.  Only the holder unlocks.
 */
module MutexSteps {
  import opened Common
  import opened WaitQueue

  const SPIN_LIMIT := 100

  datatype Pc =
    | Idle
    | Entering                      // lock is about to try 0 -> 1
    | Looping(spin: nat)            // lock_slow is about to load the state
    | Loaded(spin: nat, v: int)     // and has loaded v
    | Contending                    // the state was 2, or has just been set to it: sleep or give up
    | Queued                        // in the wait queue, asleep or about to be
    | Awake                         // off the queue: try again or report the timeout
    | Holding
    | Clearing                      // unlock has subtracted 1 from 2 and will store 0
    | Waking                        // unlock has stored 0 and will wake the first waiter

  datatype State = State(word: int, pc: map<nat, Pc>, queue: seq<nat>)

  // a weak exchange may fail at will, and a sleeper may be woken at will (a timeout does so)
  datatype Step =
    | Call(t: nat)
    | FastExchange(t: nat)
    | Load(t: nat)
    | Spin(t: nat)
    | TryTake(t: nat, ok: bool)
    | TryMark(t: nat, ok: bool)
    | SeeMarked(t: nat)
    | GiveUp(t: nat)
    | Enqueue(t: nat)
    | Dequeue(t: nat)
    | Retry(t: nat)
    | Subtract(t: nat)
    | StoreZero(t: nat)
    | WakeNext(t: nat)

  predicate Enabled(s: State, e: Step)
  {
    && e.t in s.pc
    && match e
       case Call(t) => s.pc[t].Idle?
       case FastExchange(t) => s.pc[t].Entering?
       case Load(t) => s.pc[t].Looping?
       case Spin(t) => s.pc[t].Loaded? && s.pc[t].v == 1 && s.pc[t].spin < SPIN_LIMIT
       case TryTake(t, ok) => s.pc[t].Loaded? && s.pc[t].v == 0 && (ok ==> s.word == 0)
       case TryMark(t, ok) => s.pc[t].Loaded? && s.pc[t].v == 1 && SPIN_LIMIT <= s.pc[t].spin && (ok ==> s.word == 1)
       case SeeMarked(t) => s.pc[t].Loaded? && s.pc[t].v != 0 && s.pc[t].v != 1
       case GiveUp(t) => s.pc[t].Contending? || s.pc[t].Awake?
       case Enqueue(t) => s.pc[t].Contending?
       case Dequeue(t) => s.pc[t].Queued?
       case Retry(t) => s.pc[t].Awake?
       case Subtract(t) => s.pc[t].Holding?
       case StoreZero(t) => s.pc[t].Clearing?
       case WakeNext(t) => s.pc[t].Waking?
  }

  function Next(s: State, e: Step): State
    requires Enabled(s, e)
  {
    var p := s.pc[e.t];
    match e
    case Call(t) => s.(pc := s.pc[t := Entering])
    case FastExchange(t) => if s.word == 0 then s.(word := 1, pc := s.pc[t := Holding]) else s.(pc := s.pc[t := Looping(0)])
    case Load(t) => s.(pc := s.pc[t := Loaded(p.spin, s.word)])
    case Spin(t) => s.(pc := s.pc[t := Looping(p.spin + 1)])
    case TryTake(t, ok) => if ok then s.(word := 1, pc := s.pc[t := Holding]) else s.(pc := s.pc[t := Looping(p.spin)])
    case TryMark(t, ok) => if ok then s.(word := 2, pc := s.pc[t := Contending]) else s.(pc := s.pc[t := Looping(p.spin)])
    case SeeMarked(t) => s.(pc := s.pc[t := Contending])
    case GiveUp(t) => s.(pc := s.pc[t := Idle])
    case Enqueue(t) => s.(queue := s.queue + [t], pc := s.pc[t := Queued])
    case Dequeue(t) => s.(queue := RemoveFirst(s.queue, t), pc := s.pc[t := Awake])
    case Retry(t) => s.(pc := s.pc[t := Looping(0)])
    case Subtract(t) => s.(word := s.word - 1, pc := s.pc[t := if s.word == 1 then Idle else Clearing])
    case StoreZero(t) => s.(word := 0, pc := s.pc[t := Waking])
    case WakeNext(t) => s.(queue := if s.queue == [] then [] else s.queue[1..], pc := s.pc[t := Idle])
  }

  predicate Busy(p: Pc)
  {
    p.Holding? || p.Clearing?
  }

  ghost predicate OneBusy(s: State, t: nat, u: nat)
  {
    t in s.pc && u in s.pc && Busy(s.pc[t]) && Busy(s.pc[u]) ==> t == u
  }

  ghost predicate BusyThread(s: State, t: nat)
  {
    t in s.pc && Busy(s.pc[t])
  }

  // a queued thread is in the queue at most once, and only while it is queued
  ghost predicate QueueOk(s: State)
  {
    && (forall i {:trigger s.queue[i]} :: 0 <= i < |s.queue| ==> s.queue[i] in s.pc && s.pc[s.queue[i]].Queued?)
    && NoDup(s.queue)
  }

  ghost predicate Inv(s: State)
  {
    && 0 <= s.word <= 2
    && (forall t, u {:trigger OneBusy(s, t, u)} :: OneBusy(s, t, u))
    && (s.word == 0 <==> !exists t {:trigger BusyThread(s, t)} :: BusyThread(s, t))
    && QueueOk(s)
  }

  ghost predicate Init(s: State)
  {
    s.word == 0 && s.queue == [] && forall t {:trigger s.pc[t]} :: t in s.pc ==> s.pc[t] == Idle
  }

  lemma InitInv(s: State)
    requires Init(s)
    ensures Inv(s)
  {
    forall t ensures !BusyThread(s, t) {
      if t in s.pc { assert s.pc[t] == Idle; }
    }
  }

  lemma BusyKept(s: State, e: Step)
    requires Inv(s) && Enabled(s, e)
    ensures var s' := Next(s, e);
      && 0 <= s'.word <= 2
      && (forall t, u {:trigger OneBusy(s', t, u)} :: OneBusy(s', t, u))
      && (s'.word == 0 <==> !exists t {:trigger BusyThread(s', t)} :: BusyThread(s', t))
  {
    var s' := Next(s, e);
    forall t, u ensures OneBusy(s', t, u) {
      assert OneBusy(s, t, u) && (BusyThread(s, t) <==> t in s.pc && Busy(s.pc[t])) && (BusyThread(s, u) <==> u in s.pc && Busy(s.pc[u]));
    }
    if Busy(s.pc[e.t]) {
      assert BusyThread(s, e.t);
      forall u | BusyThread(s', u) ensures u == e.t {
        assert OneBusy(s, e.t, u);
      }
      assert BusyThread(s', e.t) <==> Busy(s'.pc[e.t]);
    } else if Busy(s'.pc[e.t]) {
      assert BusyThread(s', e.t);
    } else {
      forall u ensures BusyThread(s', u) <==> BusyThread(s, u) {
      }
    }
  }

  lemma QueueKept(s: State, e: Step)
    requires Inv(s) && Enabled(s, e)
    ensures QueueOk(Next(s, e))
  {
    var s' := Next(s, e);
    if e.Enqueue? {
      assert e.t !in s.queue;
    } else if e.Dequeue? {
      RemoveFirstAll(s.queue, e.t);
      forall i | 0 <= i < |s'.queue| ensures s'.queue[i] in s'.pc && s'.pc[s'.queue[i]].Queued? {
        assert s'.queue[i] in RemoveFirst(s.queue, e.t) && s'.queue[i] in s.queue;
      }
    }
  }

  lemma StepInv(s: State, e: Step)
    requires Inv(s) && Enabled(s, e)
    ensures Inv(Next(s, e))
  {
    BusyKept(s, e);
    QueueKept(s, e);
  }

  // ---------- runs ----------

  ghost predicate IsRun(states: seq<State>, steps: seq<Step>)
  {
    && |states| == |steps| + 1 && Init(states[0])
    && forall i {:trigger steps[i]} :: 0 <= i < |steps| ==> Enabled(states[i], steps[i]) && states[i + 1] == Next(states[i], steps[i])
  }

  lemma {:induction false} RunInv(states: seq<State>, steps: seq<Step>, i: nat)
    requires IsRun(states, steps) && i < |states|
    ensures Inv(states[i])
  {
    if i > 0 {
      RunInv(states, steps, i - 1);
      StepInv(states[i - 1], steps[i - 1]);
    } else {
      InitInv(states[0]);
    }
  }

  // at most one thread holds the mutex, and nobody while an unlock is between its two writes
  lemma MutualExclusion(states: seq<State>, steps: seq<Step>, i: nat, t: nat, u: nat)
    requires IsRun(states, steps) && i < |states| && t in states[i].pc && u in states[i].pc
    requires Busy(states[i].pc[t]) && Busy(states[i].pc[u])
    ensures t == u
  {
    RunInv(states, steps, i);
    assert OneBusy(states[i], t, u);
  }

  // the word is 0 exactly when no thread holds the mutex or is between the two writes of unlock
  lemma ZeroIsFree(states: seq<State>, steps: seq<Step>, i: nat)
    requires IsRun(states, steps) && i < |states|
    ensures states[i].word == 0 <==> forall t {:trigger states[i].pc[t]} :: t in states[i].pc ==> !states[i].pc[t].Holding? && !states[i].pc[t].Clearing?
  {
    RunInv(states, steps, i);
    var s := states[i];
    forall t | t in s.pc ensures BusyThread(s, t) <==> s.pc[t].Holding? || s.pc[t].Clearing? {
    }
  }

  // ---------- marks and wakeups ----------

  // a mark is set while the mutex is held or being cleared, and stays until an unlock writes the word
  lemma {:induction false} MarkStays(states: seq<State>, steps: seq<Step>, i: nat, j: nat)
    requires IsRun(states, steps) && i < j < |states| && steps[i].TryMark? && steps[i].ok
    requires forall m {:trigger steps[m]} :: i < m < j ==> !steps[m].Subtract? && !steps[m].StoreZero?
    ensures states[j].word == 2 && exists t {:trigger states[j].pc[t]} :: t in states[j].pc && Busy(states[j].pc[t])
    decreases j
  {
    RunInv(states, steps, j);
    var e := steps[j - 1];
    assert Enabled(states[j - 1], e) && states[j] == Next(states[j - 1], e);
    if i + 1 < j {
      MarkStays(states, steps, i, j - 1);
    }
    var t :| BusyThread(states[j], t);
    assert Busy(states[j].pc[t]);
  }

  // so the unlock that comes next finds it: it clears the word and then wakes
  lemma MarkSeen(states: seq<State>, steps: seq<Step>, i: nat, j: nat)
    requires IsRun(states, steps) && i < j < |steps| && steps[i].TryMark? && steps[i].ok && steps[j].Subtract?
    requires forall m {:trigger steps[m]} :: i < m < j ==> !steps[m].Subtract? && !steps[m].StoreZero?
    ensures states[j + 1].pc[steps[j].t] == Clearing
  {
    MarkStays(states, steps, i, j);
  }

  // wherever b is in the queue, a is further to the front
  ghost predicate Ahead(queue: seq<nat>, a: nat, b: nat)
  {
    forall y {:trigger queue[y]} :: 0 <= y < |queue| && queue[y] == b ==> a in queue[..y]
  }

  lemma AheadAppend(queue: seq<nat>, a: nat, b: nat, c: nat)
    requires Ahead(queue, a, b) && a in queue
    ensures Ahead(queue + [c], a, b)
  {
    forall y | 0 <= y < |queue + [c]| && (queue + [c])[y] == b ensures a in (queue + [c])[..y] {
      assert (queue + [c])[..y] == queue[..y];
    }
  }

  lemma AheadRemove(queue: seq<nat>, a: nat, b: nat, i: nat)
    requires Ahead(queue, a, b) && i < |queue| && queue[i] != a
    ensures Ahead(queue[..i] + queue[i + 1..], a, b)
  {
    var q := queue[..i] + queue[i + 1..];
    forall y | 0 <= y < |q| && q[y] == b ensures a in q[..y] {
      var z := if y < i then y else y + 1;
      assert queue[z] == b;
      var x :| 0 <= x < z && queue[x] == a;
      assert q[..y][if x < i then x else x - 1] == a;
    }
  }

  lemma AheadDequeue(queue: seq<nat>, t: nat, a: nat, b: nat)
    requires NoDup(queue) && t in queue && a in RemoveFirst(queue, t) && Ahead(queue, a, b)
    ensures Ahead(RemoveFirst(queue, t), a, b)
  {
    RemoveFirstAll(queue, t);
    var i :| 0 <= i < |queue| && queue[i] == t;
    RemoveFirstAt(queue, t, i);
    AheadRemove(queue, a, b, i);
  }

  lemma AheadWake(queue: seq<nat>, a: nat, b: nat)
    requires NoDup(queue) && queue != [] && a in queue[1..] && Ahead(queue, a, b)
    ensures Ahead(queue[1..], a, b)
  {
    var x :| 0 <= x < |queue[1..]| && queue[1..][x] == a;
    assert queue[0] != queue[x + 1];
    assert queue[1..] == queue[..0] + queue[1..];
    AheadRemove(queue, a, b, 0);
  }

  lemma AheadStep(s: State, e: Step, a: nat, b: nat)
    requires Inv(s) && Enabled(s, e) && a in s.queue && a in Next(s, e).queue && Ahead(s.queue, a, b)
    ensures Ahead(Next(s, e).queue, a, b)
  {
    if e.Enqueue? {
      AheadAppend(s.queue, a, b, e.t);
    } else if e.Dequeue? {
      if e.t in s.queue {
        AheadDequeue(s.queue, e.t, a, b);
      }
    } else if e.WakeNext? {
      AheadWake(s.queue, a, b);
    }
  }

  // the queue keeps the order in which threads began to wait
  lemma {:induction false} WaitingOrder(states: seq<State>, steps: seq<Step>, i: nat, j: nat, a: nat, b: nat)
    requires IsRun(states, steps) && i < j < |states| && steps[i] == Enqueue(a) && a != b && b !in states[i].queue
    requires forall m {:trigger states[m]} :: i < m <= j ==> a in states[m].queue
    ensures Ahead(states[j].queue, a, b)
    decreases j
  {
    RunInv(states, steps, j - 1);
    if i + 1 < j {
      WaitingOrder(states, steps, i, j - 1, a, b);
      AheadStep(states[j - 1], steps[j - 1], a, b);
    }
  }

  // a wakeup takes one waiter if there is any, and no thread that began to wait after one that still waits
  lemma LongestWoken(states: seq<State>, steps: seq<Step>, i: nat, j: nat, a: nat, b: nat)
    requires IsRun(states, steps) && i < j < |steps| && steps[i] == Enqueue(a) && a != b && b !in states[i].queue && steps[j].WakeNext?
    requires forall m {:trigger states[m]} :: i < m <= j ==> a in states[m].queue
    ensures b in states[j].queue ==> b in states[j + 1].queue
    ensures |states[j + 1].queue| == |states[j].queue| - 1
  {
    WaitingOrder(states, steps, i, j, a, b);
    var q := states[j].queue;
    if b in q {
      var y :| 0 <= y < |q| && q[y] == b;
      assert a in q[..y];
      assert q[1..][y - 1] == b;
    }
  }
}
