/** The timer manager on its heap; callbacks are taken to schedule and cancel nothing. */
module Timer {
  import opened TimerHeap
  import opened TimerRuns

  // the events that are due by now, and the others
  ghost function DueBy(s: seq<Event>, now: nat): seq<Event>
  {
    if s == [] then [] else (if s[0].expiry <= now then [s[0]] else []) + DueBy(s[1..], now)
  }

  ghost function LaterThan(s: seq<Event>, now: nat): seq<Event>
  {
    if s == [] then [] else (if s[0].expiry <= now then [] else [s[0]]) + LaterThan(s[1..], now)
  }

  lemma ConsCount(x: Event, s: seq<Event>, e: Event)
    ensures multiset([x] + s)[e] == multiset(s)[e] + if x == e then 1 else 0
  {
  }

  lemma {:induction false} PartedAt(s: seq<Event>, now: nat, e: Event)
    ensures multiset(DueBy(s, now))[e] == if e.expiry <= now then multiset(s)[e] else 0
    ensures multiset(LaterThan(s, now))[e] == if e.expiry <= now then 0 else multiset(s)[e]
  {
    if s != [] {
      var x, r := s[0], s[1..];
      PartedAt(r, now, e);
      assert s == [x] + r && DueBy(s, now) == (if x.expiry <= now then [x] else []) + DueBy(r, now);
      ConsCount(x, r, e);
      ConsCount(x, DueBy(r, now), e);
      ConsCount(x, LaterThan(r, now), e);
    }
  }

  lemma Parted(s: seq<Event>, now: nat)
    ensures multiset(s) == multiset(LaterThan(s, now)) + multiset(DueBy(s, now))
  {
    forall e: Event ensures multiset(s)[e] == multiset(LaterThan(s, now))[e] + multiset(DueBy(s, now))[e] {
      PartedAt(s, now, e);
    }
  }

  class TimerManager {
    var currentTick: nat
    var nextId: nat
    const events: MinHeap

    ghost predicate Valid()
      reads this, events
    {
      IsHeap(events.data) && AllFine(View())
    }

    ghost function View(): Timers
      reads this, events
    {
      Timers(currentTick, nextId, multiset(events.data))
    }

    constructor ()
      ensures Valid() && View() == Timers(0, 0, multiset{})
    {
      currentTick, nextId := 0, 0;
      events := new MinHeap();
    }

    method Schedule(mode: Mode, ticks: nat, job: nat) returns (id: nat)
      requires Valid()
      modifies this, events
      ensures Valid() && Did(old(View()), Call.Schedule(mode, ticks, job), View()) && id == old(nextId)
    {
      ghost var before := View();
      var tick, interval := ticks, 0;
      if mode == Periodic {
        if tick == 0 {
          tick := 1;
        }
        interval := tick;
      }
      var expiry := if mode == TscDeadline then tick else currentTick + tick;
      id := nextId;
      nextId := nextId + 1;
      events.Insert(Event(expiry, interval, mode, job, id));
      FineKept(before, Call.Schedule(mode, ticks, job), View());
    }

    method Cancel(id: nat) returns (found: bool)
      requires Valid()
      modifies events
      ensures Valid() && Did(old(View()), Call.Cancel(id), View())
      ensures found <==> exists e {:trigger e in old(events.data)} :: e in old(events.data) && e.id == id
    {
      ghost var before, s := View(), events.data;
      var count := events.EraseIf(id);
      forall e: Event ensures multiset(events.data)[e] == if e.id == id then 0 else before.pending[e] {
        WithoutCount(s, id, e);
      }
      FineKept(before, Call.Cancel(id), View());
      WithoutAll(s, id);
      assert |multiset(events.data)| == |events.data|;
      found := count > 0;
    }

    method FireNext(ghost now: nat, ghost later: multiset<Event>, ghost all: multiset<Event>, fired: seq<Event>,
        ghost due: multiset<Event>)
      returns (fired': seq<Event>, ghost due': multiset<Event>)
      requires Firing(events.data, now, later, all, fired, due) && events.data != [] && events.data[0].expiry <= now
      modifies events
      ensures Firing(events.data, now, later, all, fired', due') && |due'| < |due|
    {
      ghost var before := events.data;
      var ok, current := events.ExtractMin();
      due' := due - multiset{current};
      fired' := fired + [current];
      FiredOne(before, events.data, now, later, all, fired, due, current);
      Renew(current);
    }

    method Renew(current: Event)
      requires IsHeap(events.data)
      modifies events
      ensures IsHeap(events.data) && multiset(events.data) == old(multiset(events.data)) + multiset(PutBack(current))
    {
      if current.mode == Periodic {
        events.Insert(current.(expiry := current.expiry + current.interval));
      }
    }

    method Tick() returns (fired: seq<Event>)
      requires Valid()
      modifies this, events
      ensures Valid() && Did(old(View()), Call.Tick(fired), View())
    {
      ghost var before, s := View(), events.data;
      currentTick := currentTick + 1;
      ghost var now := currentTick;
      ghost var later, all := multiset(LaterThan(s, now)), multiset(DueBy(s, now));
      ghost var due := all;
      StartFiring(before, s, now);
      fired := [];
      while events.data != []
        invariant Firing(events.data, now, later, all, fired, due) && currentTick == now && nextId == before.nextId
        decreases |due|
      {
        if events.data[0].expiry > currentTick {
          break;
        }
        fired, due := FireNext(now, later, all, fired, due);
      }
      Drained(events.data, now, later, all, fired, due);
      Ticked(before, s, fired, View());
      FineKept(before, Call.Tick(fired), View());
    }
  }

  // the drain loop: due is what is left to fire, later and the renewals are beyond now
  ghost predicate Firing(s: seq<Event>, now: nat, later: multiset<Event>, all: multiset<Event>, fired: seq<Event>,
      due: multiset<Event>)
  {
    IsHeap(s) && multiset(s) == later + due + multiset(Renewals(fired)) && Split(now, later, all, fired, due)
  }

  ghost predicate Split(now: nat, later: multiset<Event>, all: multiset<Event>, fired: seq<Event>, due: multiset<Event>)
  {
    && multiset(fired) + due == all && InOrder(fired, due)
    && Beyond(later, now) && Beyond(multiset(Renewals(fired)), now) && Within(all, now)
  }

  ghost predicate Beyond(m: multiset<Event>, now: nat)
  {
    forall e {:trigger m[e]} :: m[e] > 0 ==> now < e.expiry
  }

  // due by now; a periodic event is due exactly now
  ghost predicate Within(m: multiset<Event>, now: nat)
  {
    forall e {:trigger m[e]} :: m[e] > 0 ==> e.expiry <= now && (e.mode == Periodic ==> e.expiry == now && 1 <= e.interval)
  }

  // fired in nondecreasing order, with nothing smaller left
  ghost predicate InOrder(fired: seq<Event>, due: multiset<Event>)
  {
    && (forall i, j {:trigger fired[i], fired[j]} :: 0 <= i < j < |fired| ==> fired[i].expiry <= fired[j].expiry)
    && (forall i, e {:trigger fired[i], due[e]} :: 0 <= i < |fired| && due[e] > 0 ==> fired[i].expiry <= e.expiry)
  }

  // the least pending event is one of those due
  lemma IsDue(now: nat, later: multiset<Event>, all: multiset<Event>, fired: seq<Event>, due: multiset<Event>,
      current: Event)
    requires Beyond(later, now) && Beyond(multiset(Renewals(fired)), now) && current.expiry <= now
    requires (later + due + multiset(Renewals(fired)))[current] > 0
    ensures due[current] > 0
  {
    assert later[current] == 0 && multiset(Renewals(fired))[current] == 0;
  }

  lemma LeastDue(s: seq<Event>, rest: multiset<Event>, due: multiset<Event>, current: Event)
    requires multiset(s) == rest + due && forall e {:trigger e in s} :: e in s ==> current.expiry <= e.expiry
    ensures NoneBefore(due, current)
  {
    forall e | due[e] > 0 ensures current.expiry <= e.expiry {
      assert multiset(s)[e] > 0;
      assert e in s;
    }
  }

  ghost predicate NoneBefore(due: multiset<Event>, current: Event)
  {
    forall e {:trigger due[e]} :: due[e] > 0 ==> current.expiry <= e.expiry
  }

  lemma PutBackSum(later: multiset<Event>, due: multiset<Event>, fired: seq<Event>, current: Event,
      rest: multiset<Event>)
    requires later + due + multiset(Renewals(fired)) == rest + multiset{current} && due[current] > 0
    ensures rest + multiset(PutBack(current)) == later + (due - multiset{current}) + multiset(Renewals(fired + [current]))
  {
    RenewalsSnoc(fired, current);
    var r, p := Renewals(fired), PutBack(current);
    assert multiset(r + p) == multiset(r) + multiset(p);
    forall e: Event ensures rest[e] == (later + (due - multiset{current}) + multiset(r))[e] {
      assert (rest + multiset{current})[e] == later[e] + due[e] + multiset(r)[e];
    }
    assert rest == later + (due - multiset{current}) + multiset(r);
  }

  lemma StillAll(all: multiset<Event>, fired: seq<Event>, due: multiset<Event>, current: Event)
    requires multiset(fired) + due == all && due[current] > 0
    ensures multiset(fired + [current]) + (due - multiset{current}) == all && |due - multiset{current}| == |due| - 1
  {
    assert due == (due - multiset{current}) + multiset{current};
    assert multiset(fired + [current]) == multiset(fired) + multiset{current};
  }

  lemma StillInOrder(fired: seq<Event>, due: multiset<Event>, current: Event)
    requires InOrder(fired, due) && due[current] > 0 && NoneBefore(due, current)
    ensures InOrder(fired + [current], due - multiset{current})
  {
    var fired', due' := fired + [current], due - multiset{current};
    forall i, e | 0 <= i < |fired'| && due'[e] > 0 ensures fired'[i].expiry <= e.expiry {
      assert due[e] > 0;
      if i < |fired| { assert fired'[i] == fired[i]; }
    }
    forall i, j | 0 <= i < j < |fired'| ensures fired'[i].expiry <= fired'[j].expiry {
      assert fired'[i] == fired[i];
    }
  }

  lemma StillBeyond(now: nat, fired: seq<Event>, current: Event)
    requires Beyond(multiset(Renewals(fired)), now) && (current.mode == Periodic ==> current.expiry == now && 1 <= current.interval)
    ensures Beyond(multiset(Renewals(fired + [current])), now)
  {
    RenewalsSnoc(fired, current);
    var r, p := Renewals(fired), PutBack(current);
    forall e: Event | multiset(r + p)[e] > 0 ensures now < e.expiry {
      Concat(r, p, e);
      if multiset(r)[e] == 0 { assert e in p; }
    }
  }

  lemma FiredOne(s: seq<Event>, s': seq<Event>, now: nat, later: multiset<Event>, all: multiset<Event>,
      fired: seq<Event>, due: multiset<Event>, current: Event)
    requires Firing(s, now, later, all, fired, due) && multiset(s) == multiset(s') + multiset{current} && current.expiry <= now
    requires forall e {:trigger e in s} :: e in s ==> current.expiry <= e.expiry
    ensures Split(now, later, all, fired + [current], due - multiset{current}) && |due - multiset{current}| < |due|
    ensures multiset(s') + multiset(PutBack(current)) == later + (due - multiset{current}) + multiset(Renewals(fired + [current]))
  {
    assert (multiset(s') + multiset{current})[current] > 0;
    IsDue(now, later, all, fired, due, current);
    assert multiset(s) == (later + multiset(Renewals(fired))) + due;
    LeastDue(s, later + multiset(Renewals(fired)), due, current);
    assert all[current] > 0;
    StillAll(all, fired, due, current);
    StillInOrder(fired, due, current);
    StillBeyond(now, fired, current);
    PutBackSum(later, due, fired, current, multiset(s'));
  }

  lemma StartFiring(before: Timers, s: seq<Event>, now: nat)
    requires AllFine(before) && before.pending == multiset(s) && now == before.tick + 1 && IsHeap(s)
    ensures Firing(s, now, multiset(LaterThan(s, now)), multiset(DueBy(s, now)), [], multiset(DueBy(s, now)))
  {
    var later, due := multiset(LaterThan(s, now)), multiset(DueBy(s, now));
    Parted(s, now);
    assert multiset(Renewals([])) == multiset{};
    forall e | later[e] > 0 ensures now < e.expiry {
      PartedAt(s, now, e);
    }
    forall e | due[e] > 0 ensures e.expiry <= now && (e.mode == Periodic ==> e.expiry == now && 1 <= e.interval) {
      PartedAt(s, now, e);
      assert before.pending[e] > 0;
    }
  }

  lemma Drained(s: seq<Event>, now: nat, later: multiset<Event>, all: multiset<Event>, fired: seq<Event>,
      due: multiset<Event>)
    requires Firing(s, now, later, all, fired, due) && (s == [] || s[0].expiry > now)
    ensures multiset(fired) == all && multiset(s) == later + multiset(Renewals(fired)) && InOrder(fired, multiset{})
  {
    forall e | due[e] > 0 ensures e.expiry <= now {
      assert all[e] > 0;
    }
    forall e ensures due[e] <= multiset(s)[e] {
    }
    NoneDue(s, due, now);
  }

  lemma NoneDue(s: seq<Event>, due: multiset<Event>, now: nat)
    requires IsHeap(s) && due <= multiset(s) && (s == [] || s[0].expiry > now) && forall e {:trigger due[e]} :: due[e] > 0 ==> e.expiry <= now
    ensures due == multiset{}
  {
    forall e ensures due[e] == 0 {
      if due[e] > 0 {
        assert e in s;
        var i :| 0 <= i < |s| && s[i] == e;
        RootLeast(s, i);
        assert false;
      }
    }
  }

  lemma Ticked(before: Timers, s: seq<Event>, fired: seq<Event>, after: Timers)
    requires before.pending == multiset(s) && after.tick == before.tick + 1 && after.nextId == before.nextId
    requires multiset(fired) == multiset(DueBy(s, after.tick)) && InOrder(fired, multiset{})
    requires after.pending == multiset(LaterThan(s, after.tick)) + multiset(Renewals(fired))
    ensures Did(before, Call.Tick(fired), after)
  {
    forall e: Event
      ensures multiset(fired)[e] == if e.expiry <= after.tick then before.pending[e] else 0
      ensures after.pending[e] == (if e.expiry > after.tick then before.pending[e] else 0) + RenewedCount(multiset(fired), e)
    {
      PartedAt(s, after.tick, e);
      RenewalsCount(fired, e);
    }
  }

  lemma {:induction false} WithoutAll(s: seq<Event>, id: nat)
    ensures |Without(s, id)| < |s| <==> exists e {:trigger e in s} :: e in s && e.id == id
  {
    if s != [] {
      WithoutAll(s[1..], id);
      assert s == [s[0]] + s[1..];
      if s[0].id == id { assert s[0] in s; }
      if e :| e in s[1..] && e.id == id { assert e in s; }
      if e :| e in s && e.id == id { assert e == s[0] || e in s[1..]; }
    }
  }
}
