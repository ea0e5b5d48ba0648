/** What each call does to the pending timers, and when timers fire over any run of calls. */
module TimerRuns {
  import opened BitMath
  import opened TimerHeap

  datatype Timers = Timers(tick: nat, nextId: nat, pending: multiset<Event>)

  datatype Call =
    | Schedule(mode: Mode, ticks: nat, job: nat)
    | Tick(fired: seq<Event>)
    | Cancel(id: nat)

  function AtLeastOne(n: nat): nat
  {
    if n == 0 then 1 else n
  }

  function NewEvent(mode: Mode, ticks: nat, job: nat, tick: nat, id: nat): Event
  {
    match mode
    case Periodic => Event(tick + AtLeastOne(ticks), AtLeastOne(ticks), Periodic, job, id)
    case OneShot => Event(tick + ticks, 0, OneShot, job, id)
    case TscDeadline => Event(ticks, 0, TscDeadline, job, id)
  }

  // the events that a series of firings puts back
  function Renewals(fired: seq<Event>): seq<Event>
  {
    if fired == [] then []
    else
      Renewals(fired[..|fired| - 1]) + PutBack(fired[|fired| - 1])
  }

  function PutBack(e: Event): seq<Event>
  {
    if e.mode == Periodic then [e.(expiry := e.expiry + e.interval)] else []
  }

  // how often e is put back
  function RenewedCount(fired: multiset<Event>, e: Event): nat
  {
    if e.mode == Periodic && e.interval <= e.expiry then fired[e.(expiry := e.expiry - e.interval)] else 0
  }

  lemma OneMore(m: multiset<Event>, x: Event, e: Event)
    ensures RenewedCount(m + multiset{x}, e) == RenewedCount(m, e) + multiset(PutBack(x))[e]
  {
    if e.mode == Periodic && e.interval <= e.expiry {
      var was := e.(expiry := e.expiry - e.interval);
      assert (m + multiset{x})[was] == m[was] + if was == x then 1 else 0;
    }
  }

  lemma RenewalsSnoc(rest: seq<Event>, last: Event)
    ensures Renewals(rest + [last]) == Renewals(rest) + PutBack(last)
  {
    assert (rest + [last])[..|rest|] == rest;
  }

  lemma Concat(s: seq<Event>, t: seq<Event>, e: Event)
    ensures multiset(s + t)[e] == multiset(s)[e] + multiset(t)[e]
  {
  }

  lemma {:induction false} RenewalsCount(fired: seq<Event>, e: Event)
    ensures multiset(Renewals(fired))[e] == RenewedCount(multiset(fired), e)
  {
    if fired != [] {
      var n := |fired| - 1;
      var rest, last := fired[..n], fired[n];
      assert fired == rest + [last];
      RenewalsCount(rest, e);
      RenewalsOneMore(rest, last, e);
    }
  }

  lemma RenewalsOneMore(rest: seq<Event>, last: Event, e: Event)
    requires multiset(Renewals(rest))[e] == RenewedCount(multiset(rest), e)
    ensures multiset(Renewals(rest + [last]))[e] == RenewedCount(multiset(rest + [last]), e)
  {
    RenewalsSnoc(rest, last);
    Concat(Renewals(rest), PutBack(last), e);
    OneMore(multiset(rest), last, e);
    assert multiset(rest + [last]) == multiset(rest) + multiset{last};
  }

  ghost predicate Did(s: Timers, c: Call, s': Timers)
  {
    match c
    case Schedule(mode, ticks, job) =>
      s' == Timers(s.tick, s.nextId + 1, s.pending + multiset{NewEvent(mode, ticks, job, s.tick, s.nextId)})
    case Tick(fired) =>
      && s'.tick == s.tick + 1 && s'.nextId == s.nextId
      && (forall e: Event {:trigger multiset(fired)[e]} :: multiset(fired)[e] == if e.expiry <= s'.tick then s.pending[e] else 0)
      && (forall e: Event {:trigger s'.pending[e]} ::
           s'.pending[e] == (if e.expiry > s'.tick then s.pending[e] else 0) + RenewedCount(multiset(fired), e))
      && (forall i, j {:trigger fired[i], fired[j]} :: 0 <= i < j < |fired| ==> fired[i].expiry <= fired[j].expiry)
    case Cancel(id) =>
      && s'.tick == s.tick && s'.nextId == s.nextId
      && forall e: Event {:trigger s'.pending[e]} :: s'.pending[e] == if e.id == id then 0 else s.pending[e]
  }

  // known id; a periodic event is due in the future
  predicate Fine(e: Event, tick: nat, nextId: nat)
  {
    e.id < nextId && (e.mode == Periodic ==> 1 <= e.interval && tick < e.expiry)
  }

  ghost predicate AllFine(s: Timers)
  {
    forall e: Event {:trigger s.pending[e]} :: s.pending[e] > 0 ==> Fine(e, s.tick, s.nextId)
  }

  lemma FineKept(s: Timers, c: Call, s': Timers)
    requires AllFine(s) && Did(s, c, s')
    ensures AllFine(s')
  {
    forall e | s'.pending[e] > 0 ensures Fine(e, s'.tick, s'.nextId) {
      match c
      case Schedule(mode, ticks, job) =>
        assert s.pending[e] > 0 || e == NewEvent(mode, ticks, job, s.tick, s.nextId);
      case Tick(fired) =>
        if e.expiry > s'.tick && s.pending[e] > 0 {
        } else {
          var was := e.(expiry := e.expiry - e.interval);
          assert multiset(fired)[was] > 0 && s.pending[was] > 0;
        }
      case Cancel(id) => assert s.pending[e] > 0;
    }
  }

  // ---------- runs ----------

  ghost predicate IsRun(states: seq<Timers>, calls: seq<Call>)
  {
    && |states| == |calls| + 1 && states[0].pending == multiset{}
    && forall i {:trigger calls[i]} :: 0 <= i < |calls| ==> Did(states[i], calls[i], states[i + 1])
  }

  lemma {:induction false} RunFine(states: seq<Timers>, calls: seq<Call>, i: nat)
    requires IsRun(states, calls) && i < |states|
    ensures AllFine(states[i])
  {
    if i > 0 {
      RunFine(states, calls, i - 1);
      FineKept(states[i - 1], calls[i - 1], states[i]);
    }
  }

  // the pending events with id x: n times ev and no other
  ghost predicate Alone(s: Timers, x: nat, ev: Event, n: nat)
  {
    forall e: Event {:trigger s.pending[e]} :: e.id == x ==> s.pending[e] == if e == ev then n else 0
  }

  // when a timer with period k from tick c is due after tick t
  function DueAfter(c: nat, k: nat, t: nat): nat
    requires 0 < k && c <= t
  {
    c + k * ((t - c) / k + 1)
  }

  lemma DueNext(c: nat, k: nat, t: nat)
    requires 0 < k && c <= t
    ensures t < DueAfter(c, k, t)
    ensures DueAfter(c, k, t) == t + 1 <==> (t + 1 - c) % k == 0
    ensures DueAfter(c, k, t + 1) == if (t + 1 - c) % k == 0 then t + 1 + k else DueAfter(c, k, t)
  {
    var a, q, m := t - c, (t - c) / k, (t - c) % k;
    assert a == q * k + m && k * (q + 1) == q * k + k;
    if m == k - 1 {
      assert (q + 1) * k == q * k + k && k * (q + 2) == q * k + k + k;
      DivUnique(a + 1, k, q + 1, 0);
    } else {
      DivUnique(a + 1, k, q, m + 1);
    }
  }

  // the periodic event of timer x as it is pending at tick t
  function PeriodicAt(c: nat, k: nat, job: nat, x: nat, t: nat): Event
    requires 0 < k && c <= t
  {
    Event(DueAfter(c, k, t), k, Periodic, job, x)
  }

  lemma PeriodicStep(s: Timers, call: Call, s': Timers, c: nat, k: nat, job: nat, x: nat)
    requires AllFine(s) && Did(s, call, s') && 0 < k && c <= s.tick && x < s.nextId && call != Cancel(x)
    requires Alone(s, x, PeriodicAt(c, k, job, x, s.tick), 1)
    ensures s.tick <= s'.tick && x < s'.nextId && Alone(s', x, PeriodicAt(c, k, job, x, s'.tick), 1)
    ensures call.Tick? ==> forall e: Event {:trigger multiset(call.fired)[e]} :: e.id == x ==>
      multiset(call.fired)[e] == if (s'.tick - c) % k == 0 && e == PeriodicAt(c, k, job, x, s.tick) then 1 else 0
  {
    DueNext(c, k, s.tick);
    var ev, ev' := PeriodicAt(c, k, job, x, s.tick), PeriodicAt(c, k, job, x, s'.tick);
    if call.Tick? {
      var fired := multiset(call.fired);
      forall e: Event | e.id == x ensures fired[e] == if (s'.tick - c) % k == 0 && e == ev then 1 else 0 {
        assert s.pending[e] == if e == ev then 1 else 0;
      }
      forall e: Event | e.id == x ensures s'.pending[e] == if e == ev' then 1 else 0 {
        assert s.pending[e] == if e == ev then 1 else 0;
        if e.mode == Periodic && e.interval <= e.expiry {
          var was := e.(expiry := e.expiry - e.interval);
          assert fired[was] == if (s'.tick - c) % k == 0 && was == ev then 1 else 0;
        }
      }
    }
  }

  // the run from step i on: timer x, scheduled with period k at tick c, is pending once and due at the next multiple
  lemma {:induction false} PeriodicPending(states: seq<Timers>, calls: seq<Call>, i: nat, j: nat)
    requires IsRun(states, calls) && i < j < |states| && calls[i].Schedule? && calls[i].mode == Periodic
    requires forall m {:trigger calls[m]} :: i < m < j ==> calls[m] != Cancel(states[i].nextId)
    ensures states[i].tick <= states[j].tick && states[i].nextId < states[j].nextId
    ensures Alone(states[j], states[i].nextId, PeriodicAt(states[i].tick, AtLeastOne(calls[i].ticks), calls[i].job, states[i].nextId, states[j].tick), 1)
    decreases j
  {
    var c, k, x := states[i].tick, AtLeastOne(calls[i].ticks), states[i].nextId;
    RunFine(states, calls, j - 1);
    if i + 1 == j {
      assert c + k * (0 / k + 1) == c + k;
      forall e: Event | e.id == x ensures states[i].pending[e] == 0 {
        assert states[i].pending[e] > 0 ==> Fine(e, states[i].tick, states[i].nextId);
      }
    } else {
      PeriodicPending(states, calls, i, j - 1);
      PeriodicStep(states[j - 1], calls[j - 1], states[j], c, k, calls[i].job, x);
    }
  }

  // until it is cancelled a periodic timer fires once at every k-th tick after it was scheduled, and at no other
  lemma PeriodicFires(states: seq<Timers>, calls: seq<Call>, i: nat, j: nat, e: Event)
    requires IsRun(states, calls) && i < j < |calls| && calls[i].Schedule? && calls[i].mode == Periodic && calls[j].Tick?
    requires forall m {:trigger calls[m]} :: i < m < j ==> calls[m] != Cancel(states[i].nextId)
    requires e.id == states[i].nextId
    ensures var c, k, now := states[i].tick, if calls[i].ticks == 0 then 1 else calls[i].ticks, states[j + 1].tick;
      c <= now && multiset(calls[j].fired)[e] == if (now - c) % k == 0 && e == Event(now, k, Periodic, calls[i].job, e.id) then 1 else 0
  {
    var c, k, x := states[i].tick, AtLeastOne(calls[i].ticks), states[i].nextId;
    PeriodicPending(states, calls, i, j);
    DueNext(c, k, states[j].tick);
    RunFine(states, calls, j);
    PeriodicStep(states[j], calls[j], states[j + 1], c, k, calls[i].job, x);
  }

  // the tick at which an event that is not periodic fires: its expiry, or the next tick if that is past
  function OnceDue(ev: Event, c: nat): nat
  {
    if ev.expiry <= c then c + 1 else ev.expiry
  }

  lemma OnceStep(s: Timers, call: Call, s': Timers, ev: Event, due: nat)
    requires Did(s, call, s') && ev.mode != Periodic && ev.id < s.nextId && call != Cancel(ev.id)
    requires Alone(s, ev.id, ev, if s.tick < due then 1 else 0) && (s.tick < due ==> (ev.expiry <= s.tick + 1 <==> due == s.tick + 1))
    ensures s.tick <= s'.tick && s.nextId <= s'.nextId && Alone(s', ev.id, ev, if s'.tick < due then 1 else 0)
    ensures call.Tick? ==> forall e: Event {:trigger multiset(call.fired)[e]} :: e.id == ev.id ==>
      multiset(call.fired)[e] == if s'.tick == due && e == ev then 1 else 0
  {
    if call.Tick? {
      var fired := multiset(call.fired);
      forall e: Event | e.id == ev.id ensures fired[e] == if s'.tick == due && e == ev then 1 else 0 {
        assert s.pending[e] == if e == ev && s.tick < due then 1 else 0;
      }
      forall e: Event | e.id == ev.id ensures s'.pending[e] == if e == ev && s'.tick < due then 1 else 0 {
        assert s.pending[e] == if e == ev && s.tick < due then 1 else 0;
        if e.mode == Periodic && e.interval <= e.expiry {
          assert fired[e.(expiry := e.expiry - e.interval)] == 0;
        }
      }
    }
  }

  lemma {:induction false} OncePending(states: seq<Timers>, calls: seq<Call>, i: nat, j: nat)
    requires IsRun(states, calls) && i < j < |states| && calls[i].Schedule? && calls[i].mode != Periodic
    requires forall m {:trigger calls[m]} :: i < m < j ==> calls[m] != Cancel(states[i].nextId)
    ensures var ev := NewEvent(calls[i].mode, calls[i].ticks, calls[i].job, states[i].tick, states[i].nextId);
      && states[i].tick <= states[j].tick && ev.id < states[j].nextId
      && Alone(states[j], ev.id, ev, if states[j].tick < OnceDue(ev, states[i].tick) then 1 else 0)
    decreases j
  {
    var c, x := states[i].tick, states[i].nextId;
    var ev := NewEvent(calls[i].mode, calls[i].ticks, calls[i].job, c, x);
    if i + 1 == j {
      RunFine(states, calls, i);
      forall e: Event | e.id == x ensures states[i].pending[e] == 0 {
        assert states[i].pending[e] > 0 ==> Fine(e, states[i].tick, states[i].nextId);
      }
    } else {
      OncePending(states, calls, i, j - 1);
      OnceStep(states[j - 1], calls[j - 1], states[j], ev, OnceDue(ev, c));
    }
  }

  // unless it is cancelled first, any other timer fires once, at the tick that equals its expiry if that lies ahead
  lemma OnceFires(states: seq<Timers>, calls: seq<Call>, i: nat, j: nat, e: Event)
    requires IsRun(states, calls) && i < j < |calls| && calls[i].Schedule? && calls[i].mode != Periodic && calls[j].Tick?
    requires forall m {:trigger calls[m]} :: i < m < j ==> calls[m] != Cancel(states[i].nextId)
    requires e.id == states[i].nextId
    ensures var c, now := states[i].tick, states[j + 1].tick;
      var expiry := if calls[i].mode == OneShot then c + calls[i].ticks else calls[i].ticks;
      var due := if expiry <= c then c + 1 else expiry;
      multiset(calls[j].fired)[e] == if now == due && e == Event(expiry, 0, calls[i].mode, calls[i].job, e.id) then 1 else 0
  {
    var c := states[i].tick;
    var ev := NewEvent(calls[i].mode, calls[i].ticks, calls[i].job, c, states[i].nextId);
    OncePending(states, calls, i, j);
    OnceStep(states[j], calls[j], states[j + 1], ev, OnceDue(ev, c));
  }

  // nothing with id x is pending, and x will not be given out again
  ghost predicate Gone(s: Timers, x: nat)
  {
    x < s.nextId && forall e: Event {:trigger s.pending[e]} :: e.id == x ==> s.pending[e] == 0
  }

  lemma GoneStep(s: Timers, call: Call, s': Timers, x: nat)
    requires Did(s, call, s') && Gone(s, x)
    ensures Gone(s', x) && (call.Tick? ==> forall e: Event {:trigger multiset(call.fired)[e]} :: e.id == x ==> multiset(call.fired)[e] == 0)
  {
    forall e: Event | e.id == x ensures s'.pending[e] == 0 {
      assert s.pending[e] == 0;
      if call.Tick? && e.mode == Periodic && e.interval <= e.expiry {
        assert multiset(call.fired)[e.(expiry := e.expiry - e.interval)] == 0;
      }
    }
  }

  lemma {:induction false} CancelledGone(states: seq<Timers>, calls: seq<Call>, i: nat, j: nat)
    requires IsRun(states, calls) && i < j < |states| && calls[i].Cancel? && calls[i].id < states[i].nextId
    ensures Gone(states[j], calls[i].id)
    decreases j
  {
    if i + 1 < j {
      CancelledGone(states, calls, i, j - 1);
      GoneStep(states[j - 1], calls[j - 1], states[j], calls[i].id);
    }
  }

  // a cancelled timer never fires again
  lemma CancelledSilent(states: seq<Timers>, calls: seq<Call>, i: nat, j: nat, e: Event)
    requires IsRun(states, calls) && i < j < |calls| && calls[i].Cancel? && calls[i].id < states[i].nextId && calls[j].Tick?
    requires e.id == calls[i].id
    ensures multiset(calls[j].fired)[e] == 0
  {
    CancelledGone(states, calls, i, j);
    GoneStep(states[j], calls[j], states[j + 1], calls[i].id);
  }
}
