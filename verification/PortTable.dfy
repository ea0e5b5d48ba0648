/** Port handles: a slot index with the slot's generation, over a table of ports and a stack of free slots. */
module PortTable {
  import opened Common

  const WORD32 := 0x1_0000_0000

  // a port is named by the number of ports made before it, which stands for its address
  datatype Entry = Entry(port: Option<nat>, generation: nat)

  datatype Ports = Ports(table: seq<Entry>, free: seq<nat>, made: nat)

  function Handle(generation: nat, index: nat): nat
  {
    generation * WORD32 + index
  }

  function IndexOf(handle: nat): nat
  {
    handle % WORD32
  }

  function GenerationOf(handle: nat): nat
  {
    handle / WORD32
  }

  lemma HandleParts(generation: nat, index: nat)
    requires index < WORD32
    ensures IndexOf(Handle(generation, index)) == index && GenerationOf(Handle(generation, index)) == generation
  {
  }

  lemma PartsHandle(h: nat)
    ensures Handle(GenerationOf(h), IndexOf(h)) == h
  {
  }

  // the slot that the next port gets
  function NextIndex(p: Ports): nat
  {
    if p.free == [] then |p.table| else p.free[|p.free| - 1]
  }

  predicate CanCreate(p: Ports)
  {
    NextIndex(p) < WORD32 && (p.free != [] ==> NextIndex(p) < |p.table|)
  }

  function NewHandle(p: Ports): nat
  {
    Handle(if NextIndex(p) < |p.table| then p.table[NextIndex(p)].generation else 0, NextIndex(p))
  }

  function Created(p: Ports): Ports
    requires CanCreate(p)
  {
    var i := NextIndex(p);
    var table := if i == |p.table| then p.table + [Entry(None, 0)] else p.table;
    Ports(table[i := table[i].(port := Some(p.made))], if p.free == [] then [] else p.free[..|p.free| - 1], p.made + 1)
  }

  // the handle's slot exists and its generation is the handle's
  predicate Current(p: Ports, h: nat)
  {
    IndexOf(h) < |p.table| && p.table[IndexOf(h)].generation == GenerationOf(h)
  }

  function Resolve(p: Ports, h: nat): Option<nat>
  {
    if Current(p, h) then p.table[IndexOf(h)].port else None
  }

  function Destroyed(p: Ports, h: nat): Ports
  {
    if !Current(p, h) then p
    else
      var i := IndexOf(h);
      p.(table := p.table[i := Entry(None, (p.table[i].generation + 1) % WORD32)], free := p.free + [i])
  }

  // ---------- the free stack ----------

  // the free slots are the empty ones, each listed once
  ghost predicate FreeExact(p: Ports)
  {
    && NoDup(p.free) && (forall k {:trigger p.free[k]} :: 0 <= k < |p.free| ==> p.free[k] < |p.table| && p.table[p.free[k]].port == None)
    && (forall i {:trigger p.table[i]} :: 0 <= i < |p.table| && p.table[i].port == None ==> i in p.free)
  }

  lemma CreatedFree(p: Ports)
    requires FreeExact(p)
    ensures (p.free != [] ==> NextIndex(p) < |p.table|) && (NextIndex(p) < WORD32 ==> FreeExact(Created(p)))
  {
    if p.free != [] {
      var n := |p.free| - 1;
      assert p.free == p.free[..n] + [p.free[n]];
      if NextIndex(p) < WORD32 {
        var q := Created(p);
        forall i | 0 <= i < |q.table| && q.table[i].port == None ensures i in q.free {
          assert p.table[i].port == None;
        }
      }
    }
  }

  // destroy keeps the free stack exact unless the handle names an empty slot's generation
  lemma DestroyedFree(p: Ports, h: nat)
    requires FreeExact(p)
    ensures FreeExact(Destroyed(p, h)) <==> !(Current(p, h) && p.table[IndexOf(h)].port == None)
  {
    var q, i := Destroyed(p, h), IndexOf(h);
    if Current(p, h) {
      if p.table[i].port == None {
        assert p.table[i].port == None && i in p.free;
        var k :| 0 <= k < |p.free| && p.free[k] == i;
        assert q.free[k] == i && q.free[|p.free|] == i;
      } else {
        forall k | 0 <= k < |p.free| ensures p.free[k] != i {
          assert p.table[p.free[k]].port == None;
        }
        forall j | 0 <= j < |q.table| && q.table[j].port == None ensures j in q.free {
          if j != i { assert p.table[j].port == None; } else { assert q.free[|p.free|] == i; }
        }
      }
    }
  }

  // the table after the first port has come and gone
  const OneGone := Ports([Entry(None, 1)], [0], 1)

  lemma FirstGone()
    ensures Destroyed(Created(Ports([], [], 0)), 0) == OneGone && FreeExact(OneGone)
  {
    var p := Created(Ports([], [], 0));
    assert p == Ports([Entry(Some(0), 0)], [], 1);
    assert [0] == [] + [0];
  }

  // a made-up handle names its empty slot: the same slot, and the same handle, then goes to two ports
  lemma MadeUpHandle()
    ensures var q := Destroyed(OneGone, Handle(1, 0));
      q.free == [0, 0] && CanCreate(q) && CanCreate(Created(q)) && NewHandle(q) == NewHandle(Created(q))
  {
    HandleParts(1, 0);
    var q := Destroyed(OneGone, Handle(1, 0));
    assert q == Ports([Entry(None, 2)], [0, 0], 1);
    assert Created(q).free == [0] && Created(q).table == [Entry(Some(1), 2)];
  }

  // ---------- runs ----------

  // issued maps every handle handed out to its port: history, read by no call
  datatype State = State(ports: Ports, issued: map<nat, nat>)

  datatype Call = Create | Destroy(handle: nat)

  // only issued handles are destroyed, a slot is reused fewer than 2^32 times, and indices fit 32 bits
  ghost predicate Enabled(s: State, c: Call)
  {
    match c
    case Create => CanCreate(s.ports)
    case Destroy(h) => h in s.issued && (Current(s.ports, h) ==> GenerationOf(h) + 1 < WORD32)
  }

  ghost function Next(s: State, c: Call): State
    requires Enabled(s, c)
  {
    match c
    case Create => State(Created(s.ports), s.issued[NewHandle(s.ports) := s.ports.made])
    case Destroy(h) => s.(ports := Destroyed(s.ports, h))
  }

  ghost predicate IssuedOk(s: State, h: nat)
    requires h in s.issued
  {
    && IndexOf(h) < |s.ports.table| && GenerationOf(h) <= s.ports.table[IndexOf(h)].generation
    && (Current(s.ports, h) ==> s.ports.table[IndexOf(h)].port == Some(s.issued[h]))
    && s.issued[h] < s.ports.made
  }

  ghost predicate Inv(s: State)
  {
    && FreeExact(s.ports) && |s.ports.table| <= WORD32
    && (forall h {:trigger IssuedOk(s, h)} :: h in s.issued ==> IssuedOk(s, h))
  }

  lemma NewIsFresh(s: State)
    requires Inv(s) && CanCreate(s.ports)
    ensures NewHandle(s.ports) !in s.issued
  {
    var h, i := NewHandle(s.ports), NextIndex(s.ports);
    HandleParts(if i < |s.ports.table| then s.ports.table[i].generation else 0, i);
    if s.ports.free != [] { assert s.ports.table[s.ports.free[|s.ports.free| - 1]].port == None; }
    assert h in s.issued ==> IssuedOk(s, h);
  }

  lemma StepInv(s: State, c: Call)
    requires Inv(s) && Enabled(s, c)
    ensures Inv(Next(s, c))
  {
    var s' := Next(s, c);
    match c
    case Create =>
      CreatedFree(s.ports);
      NewIsFresh(s);
      var i := NextIndex(s.ports);
      HandleParts(if i < |s.ports.table| then s.ports.table[i].generation else 0, i);
      forall h | h in s'.issued ensures IssuedOk(s', h) {
        if h in s.issued {
          assert IssuedOk(s, h);
          PartsHandle(h);
        }
      }
    case Destroy(g) =>
      assert IssuedOk(s, g);
      DestroyedFree(s.ports, g);
      forall h | h in s'.issued ensures IssuedOk(s', h) {
        assert IssuedOk(s, h);
      }
  }

  ghost predicate IsRun(states: seq<State>, calls: seq<Call>)
  {
    && |states| == |calls| + 1 && states[0] == State(Ports([], [], 0), map[])
    && forall i {:trigger calls[i]} :: 0 <= i < |calls| ==> Enabled(states[i], calls[i]) && states[i + 1] == Next(states[i], calls[i])
  }

  lemma {:induction false} RunInv(states: seq<State>, calls: seq<Call>, i: nat)
    requires IsRun(states, calls) && i < |states|
    ensures Inv(states[i])
  {
    if i > 0 {
      RunInv(states, calls, i - 1);
      StepInv(states[i - 1], calls[i - 1]);
    }
  }

  // what one call does to what an issued handle resolves to
  lemma ResolveStep(s: State, c: Call, h: nat)
    requires Inv(s) && Enabled(s, c) && h in s.issued
    ensures var s' := Next(s, c);
      && h in s'.issued && s'.issued[h] == s.issued[h]
      && Resolve(s'.ports, h) == if c == Destroy(h) then None else Resolve(s.ports, h)
  {
    assert IssuedOk(s, h);
    if c.Create? {
      NewIsFresh(s);
      var i := NextIndex(s.ports);
      CreatedFree(s.ports);
      HandleParts(if i < |s.ports.table| then s.ports.table[i].generation else 0, i);
      PartsHandle(h);
    } else {
      PartsHandle(h);
      PartsHandle(c.handle);
      assert IssuedOk(s, c.handle);
    }
  }

  lemma JustCreated(s: State)
    requires Inv(s) && CanCreate(s.ports)
    ensures Resolve(Created(s.ports), NewHandle(s.ports)) == Some(s.ports.made)
  {
    var i := NextIndex(s.ports);
    HandleParts(if i < |s.ports.table| then s.ports.table[i].generation else 0, i);
  }

  // a handle resolves to its own port until it is destroyed, and to nothing ever after
  lemma {:induction false} HandleLife(states: seq<State>, calls: seq<Call>, i: nat, j: nat)
    requires IsRun(states, calls) && i < j < |states| && calls[i].Create?
    ensures var h, port := NewHandle(states[i].ports), states[i].ports.made;
      && h in states[j].issued
      && Resolve(states[j].ports, h) == if Destroy(h) in calls[i + 1..j] then None else Some(port)
    decreases j
  {
    var h := NewHandle(states[i].ports);
    RunInv(states, calls, j - 1);
    if i + 1 == j {
      JustCreated(states[i]);
    } else {
      HandleLife(states, calls, i, j - 1);
      ResolveStep(states[j - 1], calls[j - 1], h);
      assert calls[i + 1..j] == calls[i + 1..j - 1] + [calls[j - 1]];
    }
  }

  // no two ports get the same handle
  lemma HandlesDiffer(states: seq<State>, calls: seq<Call>, i: nat, j: nat)
    requires IsRun(states, calls) && i < j < |calls| && calls[i].Create? && calls[j].Create?
    ensures NewHandle(states[i].ports) != NewHandle(states[j].ports)
  {
    HandleLife(states, calls, i, j);
    RunInv(states, calls, j);
    NewIsFresh(states[j]);
  }

  // ---------- the manager ----------

  class PortManager {
    var table: seq<Entry>
    var freeIndices: seq<nat>
    var made: nat

    ghost function View(): Ports
      reads this
    {
      Ports(table, freeIndices, made)
    }

    constructor ()
      ensures View() == Ports([], [], 0)
    {
      table, freeIndices, made := [], [], 0;
    }

    method CreatePort() returns (handle: nat)
      requires CanCreate(View())
      modifies this
      ensures View() == Created(old(View())) && handle == NewHandle(old(View()))
    {
      var index: nat;
      if freeIndices != [] {
        index := freeIndices[|freeIndices| - 1];
        freeIndices := freeIndices[..|freeIndices| - 1];
      } else {
        index := |table|;
        table := table + [Entry(None, 0)];
      }
      table := table[index := table[index].(port := Some(made))];
      made := made + 1;
      handle := table[index].generation * WORD32 + index;
    }

    method GetPort(handle: nat) returns (r: Option<nat>)
      requires handle < WORD32 * WORD32
      ensures r == Resolve(View(), handle)
    {
      var index, generation := handle % WORD32, handle / WORD32;
      if index >= |table| {
        return None;
      }
      if table[index].generation != generation {
        return None;
      }
      return table[index].port;
    }

    method IsValidPort(handle: nat) returns (valid: bool)
      requires handle < WORD32 * WORD32
      ensures valid <==> Resolve(View(), handle).Some?
    {
      var index, generation := handle % WORD32, handle / WORD32;
      if index >= |table| {
        return false;
      }
      if table[index].generation != generation {
        return false;
      }
      return table[index].port != None;
    }

    // target is the port to close
    method DestroyPort(handle: nat) returns (target: Option<nat>)
      requires handle < WORD32 * WORD32
      modifies this
      ensures View() == Destroyed(old(View()), handle) && target == Resolve(old(View()), handle)
    {
      var index, generation := handle % WORD32, handle / WORD32;
      if index >= |table| {
        return None;
      }
      if table[index].generation != generation {
        return None;
      }
      target := table[index].port;
      table := table[index := Entry(None, (table[index].generation + 1) % WORD32)];
      freeIndices := freeIndices + [index];
    }
  }
}
