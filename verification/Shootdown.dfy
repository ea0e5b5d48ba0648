/**
 TLB shootdown as a step system: a ticket lock around each request, one mailbox, one counter of
 outstanding acknowledgements, and an interrupt handler on every core.  Each broadcast reaches each
 other core once, and no remote function call shares the counter.
 */
module Shootdown {
  import opened Common
  import L = TicketLock

  // id tells requests apart: history, read by no step
  datatype Request = Request(id: nat, core: nat, start: int, count: nat)

  // where a thread stands in tlb_shootdown
  datatype Stage =
    | Out
    | Locking(r: Request)
    | Locked(r: Request)
    | StartWritten(r: Request)
    | MailWritten(r: Request)
    | AcksStored(r: Request)
    | Waiting(r: Request)      // broadcast sent, or nobody to send it to
    | Unlocking

  // id is that of the request whose broadcast interrupted the core: history, like the values of ipis
  datatype Handler =
    | Off
    | Entered(id: nat)
    | GotStart(id: nat, addr: int)
    | Flushing(id: nat, addr: int, count: nat, i: nat)

  // flushed: for which request which core has invalidated which page (history)
  datatype State = State(
    cores: nat, lock: L.State, stage: map<nat, Stage>, mailStart: int, mailCount: nat, acks: int, ipis: map<nat, nat>,
    handlers: map<nat, Handler>, nextId: nat, flushed: set<(nat, nat, int)>)

  // t is a thread, k a core
  datatype Step =
    | Begin(t: nat, core: nat, start: int, count: nat)
    | Inner(e: L.Step)
    | WriteStart(t: nat)
    | WriteCount(t: nat)
    | StoreAcks(t: nat)
    | Send(t: nat)
    | Finish(t: nat)
    | Deliver(k: nat)
    | ReadStart(k: nat)
    | ReadCount(k: nat)
    | FlushPage(k: nat)
    | Acknowledge(k: nat)

  // the steps of the lock that a stage makes
  predicate Makes(p: Stage, e: L.Step)
  {
    match p
    case Locking(_) => e.Take? || e.Enter?
    case Unlocking => e.UnlockLoad? || e.UnlockTest? || e.UnlockRead? || e.UnlockStore?
    case _ => false
  }

  predicate Enabled(s: State, m: Step)
  {
    match m
    case Begin(t, core, _, _) => t in s.stage && s.stage[t].Out? && core < s.cores
    case Inner(e) => e.t in s.stage && Makes(s.stage[e.t], e) && L.Enabled(s.lock, e)
    case WriteStart(t) => t in s.stage && s.stage[t].Locked?
    case WriteCount(t) => t in s.stage && s.stage[t].StartWritten?
    case StoreAcks(t) => t in s.stage && s.stage[t].MailWritten?
    case Send(t) => t in s.stage && s.stage[t].AcksStored?
    case Finish(t) => t in s.stage && s.stage[t].Waiting? && s.acks <= 0
    case Deliver(k) => k in s.ipis && k in s.handlers && s.handlers[k].Off?
    case ReadStart(k) => k in s.handlers && s.handlers[k].Entered?
    case ReadCount(k) => k in s.handlers && s.handlers[k].GotStart?
    case FlushPage(k) => k in s.handlers && s.handlers[k].Flushing? && s.handlers[k].i < s.handlers[k].count
    case Acknowledge(k) => k in s.handlers && s.handlers[k].Flushing? && s.handlers[k].i >= s.handlers[k].count
  }

  predicate IsOther(k: nat, core: nat)
  {
    k != core
  }

  function Others(s: State, core: nat): set<nat>
  {
    set k: nat | k < s.cores && IsOther(k, core)
  }

  // the stage after a step of the lock
  function StageAfter(p: Stage, s: L.State, e: L.Step): Stage
    requires L.Enabled(s, e)
  {
    match e
    case Enter(_) => if p.Locking? then Locked(p.r) else p
    case UnlockTest(_) => if L.SaysLocked(s, e) then p else Out
    case UnlockStore(_) => Out
    case _ => p
  }

  function Next(s: State, m: Step): State
    requires Enabled(s, m)
  {
    match m
    case Begin(t, core, start, count) =>
      s.(stage := s.stage[t := Locking(Request(s.nextId, core, start, count))], nextId := s.nextId + 1)
    case Inner(e) => s.(lock := L.Next(s.lock, e), stage := s.stage[e.t := StageAfter(s.stage[e.t], s.lock, e)])
    case WriteStart(t) => s.(stage := s.stage[t := StartWritten(s.stage[t].r)], mailStart := s.stage[t].r.start)
    case WriteCount(t) => s.(stage := s.stage[t := MailWritten(s.stage[t].r)], mailCount := s.stage[t].r.count)
    case StoreAcks(t) =>
      if s.cores <= 1 then s.(stage := s.stage[t := Waiting(s.stage[t].r)])
      else s.(stage := s.stage[t := AcksStored(s.stage[t].r)], acks := s.cores - 1)
    case Send(t) =>
      var r := s.stage[t].r;
      s.(stage := s.stage[t := Waiting(r)], ipis := map k | k in Others(s, r.core) :: r.id)
    case Finish(t) => s.(stage := s.stage[t := Unlocking])
    case Deliver(k) => s.(ipis := s.ipis - {k}, handlers := s.handlers[k := Entered(s.ipis[k])])
    case ReadStart(k) => s.(handlers := s.handlers[k := GotStart(s.handlers[k].id, s.mailStart)])
    case ReadCount(k) => s.(handlers := s.handlers[k := Flushing(s.handlers[k].id, s.handlers[k].addr, s.mailCount, 0)])
    case FlushPage(k) =>
      var h := s.handlers[k];
      s.(handlers := s.handlers[k := h.(i := h.i + 1)], flushed := s.flushed + {(h.id, k, h.addr + h.i * PAGE_4K)})
    case Acknowledge(k) => s.(acks := s.acks - 1, handlers := s.handlers[k := Off])
  }

  // ---------- the invariant ----------

  predicate InSection(p: Stage)
  {
    p.Locked? || p.StartWritten? || p.MailWritten? || p.AcksStored? || p.Waiting?
  }

  // cores that have not acknowledged yet
  function Open(s: State): set<nat>
  {
    s.ipis.Keys + set k | k in s.handlers && !s.handlers[k].Off?
  }

  function PageOf(r: Request, i: nat): int
  {
    r.start + i * PAGE_4K
  }

  // core k has invalidated the first n pages of r
  ghost predicate FlushedUpTo(s: State, r: Request, k: nat, n: nat)
  {
    forall i: nat {:trigger PageOf(r, i)} :: i < n ==> (r.id, k, PageOf(r, i)) in s.flushed
  }

  // where core k stands with the request that is waited for
  ghost predicate CoreOk(s: State, r: Request, k: nat)
    requires k in s.handlers
  {
    && (k in Open(s) ==> k in Others(s, r.core))
    && (k in s.ipis ==> s.handlers[k].Off? && s.ipis[k] == r.id)
    && (k in Others(s, r.core) && k !in Open(s) ==> FlushedUpTo(s, r, k, r.count))
    && match s.handlers[k]
       case Off => true
       case Entered(id) => id == r.id
       case GotStart(id, a) => id == r.id && a == r.start
       case Flushing(id, a, c, i) => id == r.id && a == r.start && c == r.count && i <= c && FlushedUpTo(s, r, k, i)
  }

  // what a thread in the section can count on
  ghost predicate SectionOk(s: State, p: Stage)
    requires InSection(p)
  {
    && p.r.core < s.cores
    && (p.StartWritten? || p.MailWritten? || p.AcksStored? || p.Waiting? ==> s.mailStart == p.r.start)
    && (p.MailWritten? || p.AcksStored? || p.Waiting? ==> s.mailCount == p.r.count)
    && (!p.Waiting? ==> Open(s) == {} && s.acks == if p.AcksStored? then s.cores - 1 else 0)
    && (p.Waiting? ==> s.acks == |Open(s)| && forall k {:trigger CoreOk(s, p.r, k)} :: k in s.handlers ==> CoreOk(s, p.r, k))
  }

  ghost predicate Fits(p: Stage, q: L.Pc)
  {
    match p
    case Out => q.Idle?
    case Locking(_) => q.Idle? || q.Waiting?
    case Unlocking => L.Owns(q)
    case _ => q.Holding?
  }

  ghost predicate ThreadOk(s: State, t: nat)
    requires t in s.stage
  {
    && t in s.lock.pc && Fits(s.stage[t], s.lock.pc[t])
    && (!s.stage[t].Out? && !s.stage[t].Unlocking? ==> s.stage[t].r.core < s.cores && s.stage[t].r.id < s.nextId)
    && (InSection(s.stage[t]) ==> SectionOk(s, s.stage[t]))
  }

  ghost predicate Quiet(s: State)
  {
    Open(s) == {} && s.acks == 0
  }

  ghost predicate Nobody(s: State)
  {
    forall t {:trigger s.stage[t]} :: t in s.stage ==> !InSection(s.stage[t])
  }

  ghost predicate Inv(s: State)
  {
    && L.Inv(s.lock) && (forall k: nat {:trigger k in s.handlers} :: k in s.handlers <==> k < s.cores)
    && (forall t {:trigger ThreadOk(s, t)} :: t in s.stage ==> ThreadOk(s, t))
    && (Nobody(s) ==> Quiet(s))
  }

  ghost predicate Init(s: State)
  {
    && L.Init(s.lock) && s.stage.Keys == s.lock.pc.Keys && s.acks == 0 && s.ipis == map[] && s.flushed == {}
    && (forall t {:trigger s.stage[t]} :: t in s.stage ==> s.stage[t].Out?)
    && (forall k: nat {:trigger k in s.handlers} :: k in s.handlers <==> k < s.cores)
    && (forall k {:trigger s.handlers[k]} :: k in s.handlers ==> s.handlers[k].Off?)
  }

  lemma InitInv(s: State)
    requires Init(s)
    ensures Inv(s)
  {
    L.InitInv(s.lock);
    assert Open(s) == {};
    forall t | t in s.stage ensures ThreadOk(s, t) {
      assert s.stage[t].Out? && t in s.lock.pc && s.lock.pc[t] == L.Idle;
    }
  }

  // two threads in the section, or in it and about to leave, are one
  lemma Alone(s: State, t: nat, u: nat)
    requires L.Inv(s.lock) && t in s.stage && u in s.stage && ThreadOk(s, t) && ThreadOk(s, u)
    requires (InSection(s.stage[t]) || s.stage[t].Unlocking?) && (InSection(s.stage[u]) || s.stage[u].Unlocking?)
    ensures t == u
  {
    L.Exclusive(s.lock, t, u);
  }

  // ---------- steps that do not touch what cores share ----------

  ghost predicate SameShared(s: State, s': State)
  {
    && s'.cores == s.cores && s'.mailStart == s.mailStart && s'.mailCount == s.mailCount && s'.acks == s.acks
    && s'.ipis == s.ipis && s'.handlers == s.handlers && s'.flushed == s.flushed
  }

  lemma SectionSame(s: State, s': State, p: Stage)
    requires SameShared(s, s') && InSection(p)
    ensures SectionOk(s, p) == SectionOk(s', p)
  {
    assert Open(s') == Open(s);
    forall k | k in s.handlers ensures CoreOk(s, p.r, k) == CoreOk(s', p.r, k) {
      assert Others(s', p.r.core) == Others(s, p.r.core);
    }
  }

  lemma BeginInv(s: State, m: Step)
    requires Inv(s) && Enabled(s, m) && m.Begin?
    ensures Inv(Next(s, m))
  {
    var s' := Next(s, m);
    forall t | t in s'.stage ensures ThreadOk(s', t) {
      assert ThreadOk(s, t);
      if InSection(s'.stage[t]) { SectionSame(s, s', s'.stage[t]); }
    }
    if Nobody(s') {
      forall t | t in s.stage ensures !InSection(s.stage[t]) { assert !InSection(s'.stage[t]); }
    }
    assert Open(s') == Open(s);
  }

  // whoever enters finds nobody in the section
  lemma EnterAlone(s: State, e: L.Step)
    requires Inv(s) && Enabled(s, Inner(e)) && e.Enter?
    ensures Nobody(s)
  {
    var after := L.Next(s.lock, e);
    L.StepInv(s.lock, e);
    assert ThreadOk(s, e.t);
    forall u | u in s.stage ensures !InSection(s.stage[u]) {
      assert ThreadOk(s, u);
      if InSection(s.stage[u]) {
        L.Exclusive(after, e.t, u);
      }
    }
  }

  lemma InnerThread(s: State, e: L.Step, t: nat)
    requires Inv(s) && Enabled(s, Inner(e)) && t in s.stage
    ensures ThreadOk(Next(s, Inner(e)), t)
  {
    var s' := Next(s, Inner(e));
    assert ThreadOk(s, t) && ThreadOk(s, e.t);
    if L.Owns(s.lock.pc[e.t]) { L.OwnedNotFree(s.lock, e.t); }
    if e.Enter? { EnterAlone(s, e); }
    if InSection(s'.stage[t]) {
      SectionSame(s, s', s'.stage[t]);
    }
  }

  lemma InnerInv(s: State, e: L.Step)
    requires Inv(s) && Enabled(s, Inner(e))
    ensures Inv(Next(s, Inner(e)))
  {
    var s' := Next(s, Inner(e));
    L.StepInv(s.lock, e);
    forall t | t in s'.stage ensures ThreadOk(s', t) {
      InnerThread(s, e, t);
    }
    if Nobody(s') {
      forall t | t in s.stage ensures !InSection(s.stage[t]) {
        assert ThreadOk(s, t) && ThreadOk(s, e.t) && !InSection(s'.stage[t]);
      }
    }
    assert Open(s') == Open(s);
  }

  // ---------- steps of the thread in the section ----------

  predicate ByInitiator(m: Step)
  {
    m.WriteStart? || m.WriteCount? || m.StoreAcks? || m.Send? || m.Finish?
  }

  lemma {:induction false} OthersSize(s: State, core: nat, n: nat)
    requires n <= s.cores
    ensures |set k: nat | k < n && IsOther(k, core)| == if core < n then n - 1 else n
  {
    if n > 0 {
      OthersSize(s, core, n - 1);
      var low, all := set k: nat | k < n - 1 && IsOther(k, core), set k: nat | k < n && IsOther(k, core);
      assert all == if IsOther(n - 1, core) then low + {n - 1} else low;
    } else {
      assert (set k: nat | k < n && IsOther(k, core)) == {};
    }
  }

  lemma AllOff(s: State, k: nat)
    requires Open(s) == {} && k in s.handlers
    ensures s.handlers[k].Off? && k !in s.ipis
  {
    assert !s.handlers[k].Off? ==> k in Open(s);
    assert k in s.ipis ==> k in Open(s);
  }

  // with every handler off, the cores that have not acknowledged are those an interrupt waits for
  lemma OpenPending(s: State)
    requires forall k {:trigger s.handlers[k]} :: k in s.handlers ==> s.handlers[k].Off?
    ensures Open(s) == s.ipis.Keys
  {
  }

  lemma SentCore(s: State, r: Request, k: nat)
    requires k in s.handlers && s.handlers[k].Off? && Open(s) == s.ipis.Keys == Others(s, r.core)
    requires k in s.ipis ==> s.ipis[k] == r.id
    ensures CoreOk(s, r, k)
  {
  }

  lemma SentOk(s: State, t: nat)
    requires Inv(s) && Enabled(s, Send(t))
    ensures var s' := Next(s, Send(t)); SectionOk(s', s'.stage[t])
  {
    assert ThreadOk(s, t);
    var s', r := Next(s, Send(t)), s.stage[t].r;
    OthersSize(s, r.core, s.cores);
    forall k | k in s.handlers ensures s.handlers[k].Off? {
      AllOff(s, k);
    }
    OpenPending(s');
    assert s'.ipis.Keys == Others(s, r.core) == Others(s', r.core);
    forall k | k in s'.handlers ensures CoreOk(s', r, k) {
      SentCore(s', r, k);
    }
  }

  lemma StoredOk(s: State, t: nat)
    requires Inv(s) && Enabled(s, StoreAcks(t))
    ensures var s' := Next(s, StoreAcks(t)); SectionOk(s', s'.stage[t])
  {
    assert ThreadOk(s, t);
    var s' := Next(s, StoreAcks(t));
    assert Open(s') == Open(s);
    if s.cores <= 1 {
      forall k | k in s'.handlers ensures CoreOk(s', s.stage[t].r, k) {
        AllOff(s, k);
      }
    }
  }

  lemma SentThread(s: State, t: nat)
    requires Inv(s) && Enabled(s, Send(t))
    ensures ThreadOk(Next(s, Send(t)), t)
  {
    assert ThreadOk(s, t);
    SentOk(s, t);
  }

  lemma StoredThread(s: State, t: nat)
    requires Inv(s) && Enabled(s, StoreAcks(t))
    ensures ThreadOk(Next(s, StoreAcks(t)), t)
  {
    assert ThreadOk(s, t);
    StoredOk(s, t);
  }

  lemma WrittenThread(s: State, m: Step)
    requires Inv(s) && Enabled(s, m) && (m.WriteStart? || m.WriteCount?)
    ensures ThreadOk(Next(s, m), m.t)
  {
    assert ThreadOk(s, m.t);
    assert Open(Next(s, m)) == Open(s);
  }

  // everybody has acknowledged when the wait ends
  lemma FinishedQuiet(s: State, t: nat)
    requires Inv(s) && Enabled(s, Finish(t))
    ensures ThreadOk(Next(s, Finish(t)), t) && Quiet(Next(s, Finish(t)))
  {
    assert ThreadOk(s, t);
    assert Open(Next(s, Finish(t))) == Open(s);
  }

  lemma InitiatorOk(s: State, m: Step)
    requires Inv(s) && Enabled(s, m) && ByInitiator(m)
    ensures ThreadOk(Next(s, m), m.t) && (m.Finish? ==> Quiet(Next(s, m)))
  {
    match m
    case Send(t) => SentThread(s, t);
    case StoreAcks(t) => StoredThread(s, t);
    case Finish(t) => FinishedQuiet(s, t);
    case WriteStart(_) => WrittenThread(s, m);
    case WriteCount(_) => WrittenThread(s, m);
  }

  // whoever else there is is outside the section
  lemma Bystander(s: State, m: Step, u: nat)
    requires Inv(s) && Enabled(s, m) && ByInitiator(m) && u in s.stage && u != m.t
    ensures ThreadOk(Next(s, m), u)
  {
    assert ThreadOk(s, u) && ThreadOk(s, m.t);
    if InSection(s.stage[u]) { Alone(s, u, m.t); }
  }

  lemma InitiatorInv(s: State, m: Step)
    requires Inv(s) && Enabled(s, m) && ByInitiator(m)
    ensures Inv(Next(s, m))
  {
    var s' := Next(s, m);
    InitiatorOk(s, m);
    forall u | u in s'.stage ensures ThreadOk(s', u) {
      if u != m.t { Bystander(s, m, u); }
    }
    assert !m.Finish? ==> InSection(s'.stage[m.t]);
  }

  // ---------- steps of a handler ----------

  predicate ByHandler(m: Step)
  {
    m.Deliver? || m.ReadStart? || m.ReadCount? || m.FlushPage? || m.Acknowledge?
  }

  // a handler that runs has a thread waiting for it
  lemma Waiter(s: State, m: Step) returns (t: nat)
    requires Inv(s) && Enabled(s, m) && ByHandler(m)
    ensures t in s.stage && s.stage[t].Waiting? && SectionOk(s, s.stage[t]) && m.k in Open(s) && CoreOk(s, s.stage[t].r, m.k)
  {
    assert m.k in Open(s);
    t :| t in s.stage && InSection(s.stage[t]);
    assert ThreadOk(s, t);
  }

  lemma OpenAfter(s: State, m: Step)
    requires Enabled(s, m) && ByHandler(m) && m.k in Open(s) && (m.k in s.ipis ==> s.handlers[m.k].Off?)
    ensures Open(Next(s, m)) == if m.Acknowledge? then Open(s) - {m.k} else Open(s)
  {
  }

  lemma FlushedMore(s: State, m: Step, r: Request, k: nat, n: nat)
    requires Enabled(s, m) && FlushedUpTo(s, r, k, n)
    ensures FlushedUpTo(Next(s, m), r, k, n)
  {
  }

  lemma CoreKept(s: State, m: Step, r: Request, k: nat)
    requires Inv(s) && Enabled(s, m) && ByHandler(m) && k in s.handlers && CoreOk(s, r, k) && CoreOk(s, r, m.k)
    requires s.mailStart == r.start && s.mailCount == r.count
    ensures CoreOk(Next(s, m), r, k)
  {
    assert m.k in Open(s);
    OpenAfter(s, m);
    var s' := Next(s, m);
    assert Others(s', r.core) == Others(s, r.core);
    if k in Others(s, r.core) && k !in Open(s) {
      FlushedMore(s, m, r, k, r.count);
    }
    if s.handlers[k].Flushing? {
      FlushedMore(s, m, r, k, s.handlers[k].i);
    }
    if m.FlushPage? && k == m.k {
      assert PageOf(r, s.handlers[k].i) == s.handlers[k].addr + s.handlers[k].i * PAGE_4K;
    }
  }

  lemma HandlerSection(s: State, m: Step, t: nat)
    requires Inv(s) && Enabled(s, m) && ByHandler(m) && t in s.stage && s.stage[t].Waiting? && SectionOk(s, s.stage[t])
    ensures SectionOk(Next(s, m), s.stage[t])
  {
    var s', r := Next(s, m), s.stage[t].r;
    assert m.k in Open(s);
    assert CoreOk(s, r, m.k);
    OpenAfter(s, m);
    forall k | k in s'.handlers ensures CoreOk(s', r, k) {
      assert CoreOk(s, r, k);
      CoreKept(s, m, r, k);
    }
  }

  lemma HandlerInv(s: State, m: Step)
    requires Inv(s) && Enabled(s, m) && ByHandler(m)
    ensures Inv(Next(s, m))
  {
    var s' := Next(s, m);
    var t := Waiter(s, m);
    HandlerSection(s, m, t);
    forall u | u in s'.stage ensures ThreadOk(s', u) {
      assert ThreadOk(s, u) && ThreadOk(s, t);
      if InSection(s.stage[u]) { Alone(s, u, t); }
    }
    assert InSection(s'.stage[t]);
  }

  lemma StepInv(s: State, m: Step)
    requires Inv(s) && Enabled(s, m)
    ensures Inv(Next(s, m))
  {
    if ByHandler(m) {
      HandlerInv(s, m);
    } else if ByInitiator(m) {
      InitiatorInv(s, m);
    } else if m.Begin? {
      BeginInv(s, m);
    } else {
      InnerInv(s, m.e);
    }
  }

  // ---------- runs ----------

  ghost predicate IsRun(states: seq<State>, steps: seq<Step>)
  {
    && |states| == |steps| + 1 && Init(states[0])
    && forall i {:trigger steps[i]} :: 0 <= i < |steps| ==> Enabled(states[i], steps[i]) && states[i + 1] == Next(states[i], steps[i])
  }

  lemma {:induction false} RunInv(states: seq<State>, steps: seq<Step>, i: nat)
    requires IsRun(states, steps) && i < |states|
    ensures Inv(states[i])
  {
    if i > 0 {
      RunInv(states, steps, i - 1);
      StepInv(states[i - 1], steps[i - 1]);
    } else {
      InitInv(states[0]);
    }
  }

  // when a request returns, every other core has invalidated every page of it, for this request
  lemma ReturnsFlushed(states: seq<State>, steps: seq<Step>, i: nat, k: nat, n: nat)
    requires IsRun(states, steps) && i < |steps| && steps[i].Finish?
    requires k < states[i].cores && k != states[i].stage[steps[i].t].r.core && n < states[i].stage[steps[i].t].r.count
    ensures var r := states[i].stage[steps[i].t].r; (r.id, k, PageOf(r, n)) in states[i].flushed
  {
    RunInv(states, steps, i);
    var s, t := states[i], steps[i].t;
    var r := s.stage[t].r;
    assert ThreadOk(s, t);
    assert CoreOk(s, r, k) && Open(s) == {};
    assert IsOther(k, r.core) && k in Others(s, r.core);
    assert PageOf(r, n) == PageOf(r, n);
  }

  // the request that a handler's core was interrupted for
  function Cause(s: State, m: Step): nat
    requires Enabled(s, m) && ByHandler(m)
  {
    if m.Deliver? then s.ipis[m.k] else s.handlers[m.k].id
  }

  // a handler works for the request whose broadcast interrupted it, while its thread waits, on that request's mailbox and pages
  lemma OnlyOwnRequest(states: seq<State>, steps: seq<Step>, i: nat) returns (t: nat)
    requires IsRun(states, steps) && i < |steps| && ByHandler(steps[i])
    ensures t in states[i].stage && states[i].stage[t].Waiting?
    ensures var s, m, r := states[i], steps[i], states[i].stage[t].r;
      && Cause(s, m) == r.id && m.k != r.core && s.mailStart == r.start && s.mailCount == r.count
      && (m.FlushPage? ==> s.handlers[m.k].addr == r.start && s.handlers[m.k].count == r.count && s.handlers[m.k].i < r.count)
  {
    RunInv(states, steps, i);
    t := Waiter(states[i], steps[i]);
  }

  lemma HandlerKnown(s: State, m: Step)
    requires Inv(s) && Enabled(s, m) && m.FlushPage?
    ensures s.handlers[m.k].id < s.nextId
  {
    var t := Waiter(s, m);
    assert ThreadOk(s, t);
  }

  lemma FlushedStep(s: State, m: Step, x: (nat, nat, int))
    requires Enabled(s, m) && (m.FlushPage? ==> s.handlers[m.k].id < s.nextId) && x in Next(s, m).flushed
    ensures s.nextId <= Next(s, m).nextId && (x in s.flushed || x.0 < s.nextId)
  {
  }

  // ids are never reused, so what ReturnsFlushed finds was invalidated during the request
  lemma {:induction false} FlushedKnown(states: seq<State>, steps: seq<Step>, i: nat, x: (nat, nat, int))
    requires IsRun(states, steps) && i < |states| && x in states[i].flushed
    ensures x.0 < states[i].nextId
  {
    if i > 0 {
      RunInv(states, steps, i - 1);
      if steps[i - 1].FlushPage? { HandlerKnown(states[i - 1], steps[i - 1]); }
      FlushedStep(states[i - 1], steps[i - 1], x);
      if x in states[i - 1].flushed { FlushedKnown(states, steps, i - 1, x); }
    }
  }

  // a request starts with none of its pages invalidated
  lemma StartsUnflushed(states: seq<State>, steps: seq<Step>, i: nat, k: nat, a: int)
    requires IsRun(states, steps) && i < |steps| && steps[i].Begin?
    ensures (states[i + 1].stage[steps[i].t].r.id, k, a) !in states[i + 1].flushed
  {
    var x := (states[i + 1].stage[steps[i].t].r.id, k, a);
    if x in states[i].flushed {
      FlushedKnown(states, steps, i, x);
    }
  }
}
