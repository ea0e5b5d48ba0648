/** The allocator's public calls, and the moves of pages that each of them makes. */
module PageAllocator {
  import opened BitMath
  import opened Common
  import opened PageBits
  import opened PageRuns
  import opened PhysicalManager

  datatype Stats = Stats(total: int, used: int, free: int)

  // moves lead from s to s'
  ghost predicate Leads(s: Pages, moves: seq<Move>, s': Pages)
    decreases |moves|
  {
    if moves == [] then s == s'
    else Enabled(s, moves[0]) && Leads(Next(s, moves[0]), moves[1..], s')
  }

  lemma OneMove(s: Pages, m: Move)
    requires Enabled(s, m)
    ensures Leads(s, [m], Next(s, m))
  {
    assert [m][1..] == [];
  }

  lemma {:induction false} LeadsOn(s: Pages, first: seq<Move>, t: Pages, rest: seq<Move>, u: Pages)
    requires Leads(s, first, t) && Leads(t, rest, u)
    ensures Leads(s, first + rest, u)
    decreases |first|
  {
    if first == [] {
      assert first + rest == rest;
    } else {
      LeadsOn(Next(s, first[0]), first[1..], t, rest, u);
      assert (first + rest)[1..] == first[1..] + rest;
    }
  }

  // moves lead from s to s' iff a run of them does, so what is proved of runs holds for sequences of calls
  lemma {:induction false} LeadsIsRun(s: Pages, moves: seq<Move>, s': Pages)
    ensures Leads(s, moves, s') <==>
      exists states {:trigger IsRun(states, moves)} :: IsRun(states, moves) && states[0] == s && states[|moves|] == s'
  {
    if Leads(s, moves, s') {
      var states := LeadsRun(s, moves, s');
    }
    if states :| IsRun(states, moves) && states[0] == s && states[|moves|] == s' {
      RunLeads(states, moves);
    }
  }

  lemma {:induction false} LeadsRun(s: Pages, moves: seq<Move>, s': Pages) returns (states: seq<Pages>)
    requires Leads(s, moves, s')
    ensures IsRun(states, moves) && states[0] == s && states[|moves|] == s'
    decreases |moves|
  {
    if moves == [] {
      states := [s];
    } else {
      var rest := LeadsRun(Next(s, moves[0]), moves[1..], s');
      states := [s] + rest;
      forall i | 0 <= i < |moves| ensures Enabled(states[i], moves[i]) && states[i + 1] == Next(states[i], moves[i]) {
        if i > 0 { assert moves[1..][i - 1] == moves[i]; }
      }
    }
  }

  lemma {:induction false} RunLeads(states: seq<Pages>, moves: seq<Move>)
    requires IsRun(states, moves)
    ensures Leads(states[0], moves, states[|moves|])
    decreases |moves|
  {
    if moves != [] {
      forall i | 0 <= i < |moves[1..]|
        ensures Enabled(states[1..][i], moves[1..][i]) && states[1..][i + 1] == Next(states[1..][i], moves[1..][i])
      {
        assert moves[1..][i] == moves[i + 1];
      }
      RunLeads(states[1..], moves[1..]);
    }
  }

  // what a call that yields r did: its caller now holds the run, which nobody held before
  ghost predicate Granted(s: Pages, moves: seq<Move>, s': Pages, r: Option<nat>, count: nat, reserved: set<nat>)
  {
    && Leads(s, moves, s')
    && match r
       case None => s'.held == s.held
       case Some(page) => page != 0 && s'.held == s.held + RunSet(page, count) && RunSet(page, count) !! s.held + reserved
  }

  lemma RunGranted(s: Pages, page: nat, count: nat, total: nat, reserved: set<nat>)
    requires Partition(s, total, reserved) && Enabled(s, Take(page, count)) && 0 in reserved && 0 < count
    ensures var s' := Next(s, Take(page, count));
      Partition(s', total, reserved) && Granted(s, [Take(page, count)], s', Some(page), count, reserved)
  {
    RunMoveKeeps(s, Take(page, count), total, reserved);
    OneMove(s, Take(page, count));
    assert InRun(page, page, count) && page in RunSet(page, count);
  }

  lemma PopGranted(s: Pages, moves: seq<Move>, t: Pages, c: nat, page: nat, total: nat, reserved: set<nat>)
    requires Leads(s, moves, t) && s.held == t.held && Partition(t, total, reserved) && 0 in reserved
    requires Enabled(t, Pop(c)) && HandedOut(t, Pop(c)) == {page}
    ensures Granted(s, moves + [Pop(c)], Next(t, Pop(c)), Some(page), 1, reserved)
  {
    OneMove(t, Pop(c));
    LeadsOn(s, moves, t, [Pop(c)], Next(t, Pop(c)));
    OneRun(page);
    assert InStack(t, c, page);
  }

  lemma OneRun(page: nat)
    ensures RunSet(page, 1) == {page} && page in RunSet(page, 1)
  {
    assert InRun(page, page, 1);
  }

  lemma HeldRun(s: Pages, page: nat, count: nat, total: nat, reserved: set<nat>)
    requires Partition(s, total, reserved) && RunSet(page, count) <= s.held
    ensures count > 0 ==> page + count <= total
    ensures count == 0 ==> RunSet(page, count) == {}
  {
    if count > 0 {
      assert InRun(page + count - 1, page, count);
      assert page + count - 1 in RunSet(page, count);
    }
  }

  lemma Undone(bm: Bits, bm': Bits, total: nat, pages: seq<nat>)
    requires Words(bm) && Words(bm') && |bm| == |bm'| && total <= WORD * |bm| && Took(bm', bm, total, pages)
    ensures FreePages(bm', total) == FreePages(bm, total) + Elems(pages)
  {
  }

  class Pmm {
    const core: Manager
    const cpus: seq<CpuCache>
    ghost const reserved: set<nat>
    ghost var held: set<nat>
    ghost var stacks: seq<seq<nat>>

    ghost function Repr(): set<object>
    {
      {core, core.bitmap, core.summary} + (set c | c in cpus :: c as object) + (set c | c in cpus :: c.stack as object)
    }

    // the stacks are those of the CPUs, which share no storage
    ghost predicate Stacked()
      reads this, Repr()
    {
      && |stacks| == |cpus|
      && (forall i {:trigger cpus[i]} {:trigger stacks[i]} :: 0 <= i < |cpus| ==>
           cpus[i].stack.Length == CACHE_SIZE && cpus[i].Ok() && stacks[i] == cpus[i].Pages())
      && (forall i, j {:trigger cpus[i], cpus[j]} :: 0 <= i < j < |cpus| ==> cpus[i] != cpus[j] && cpus[i].stack != cpus[j].stack)
    }

    ghost function View(): Pages
      requires core.Ok()
      reads this, core.bitmap, core.summary
    {
      Pages(core.Free(), stacks, held)
    }

    // page 0 is never free, so no page handed out is the null pointer
    ghost predicate Valid()
      reads this, Repr()
    {
      && core.Counted() && core.freeHint <= core.totalPages && core.lowMem <= core.totalPages
      && Stacked() && Partition(View(), core.totalPages, reserved) && 0 in reserved
    }

    // what initialisation hands over: every page that is not free is reserved, and the stacks are empty
    constructor (m: Manager, caches: seq<CpuCache>)
      requires m.Counted() && m.freeHint <= m.totalPages && m.lowMem <= m.totalPages && 0 < m.totalPages && 0 !in m.Free()
      requires forall i {:trigger caches[i]} :: 0 <= i < |caches| ==> caches[i].stack.Length == CACHE_SIZE && caches[i].count == 0
      requires forall i, j {:trigger caches[i], caches[j]} :: 0 <= i < j < |caches| ==> caches[i] != caches[j] && caches[i].stack != caches[j].stack
      ensures core == m && cpus == caches && Valid() && held == {}
    {
      core, cpus := m, caches;
      held := {};
      stacks := seq(|caches|, _ => []);
      reserved := RunSet(0, m.totalPages) - m.Free();
    }

    // ---------- one move ----------

    method RefillCore(c: nat) returns (ghost batch: seq<nat>)
      requires Valid() && c < |cpus| && cpus[c].count == 0
      modifies this`stacks, core, core.bitmap, core.summary, cpus[c], cpus[c].stack
      ensures Valid() && Enabled(old(View()), Refill(c, batch)) && View() == Next(old(View()), Refill(c, batch))
      ensures |batch| == BATCH_SIZE || core.Free() == {}
    {
      ghost var before := View();
      batch := core.CacheRefill(cpus[c]);
      stacks := stacks[c := batch];
      RefillKeeps(before, c, batch, core.totalPages, reserved);
    }

    method PopCore(c: nat) returns (page: nat)
      requires Valid() && c < |cpus| && 0 < cpus[c].count
      modifies this`stacks, this`held, cpus[c]
      ensures Valid() && Enabled(old(View()), Pop(c)) && View() == Next(old(View()), Pop(c)) && HandedOut(old(View()), Pop(c)) == {page}
    {
      ghost var before := View();
      page := cpus[c].Pop();
      stacks := stacks[c := cpus[c].Pages()];
      held := held + {page};
      PopKeeps(before, c, core.totalPages, reserved);
    }

    method FlushCore(c: nat, sorted: seq<nat>)
      requires Valid() && c < |cpus| && cpus[c].count == CACHE_SIZE
      requires multiset(sorted) == multiset(cpus[c].stack[CACHE_SIZE / 2..])
      modifies this`stacks, core, core.bitmap, core.summary, cpus[c]
      ensures Valid() && Enabled(old(View()), Flush(c, CACHE_SIZE / 2)) && View() == Next(old(View()), Flush(c, CACHE_SIZE / 2))
    {
      ghost var before := View();
      ghost var cache := cpus[c];
      forall p | p in cache.Pages() ensures p < core.totalPages && Bit(core.Bm(), p) {
        assert InStack(before, c, p);
        assert p !in core.Free();
      }
      ghost var bm := core.Bm();
      core.CacheFlush(cpus[c], sorted);
      Undone(bm, core.Bm(), core.totalPages, before.stacks[c][CACHE_SIZE / 2..]);
      assert core.Free() == before.free + Elems(before.stacks[c][CACHE_SIZE / 2..]);
      stacks := stacks[c := cpus[c].Pages()];
      assert View() == Next(before, Flush(c, CACHE_SIZE / 2));
      FlushKeeps(before, c, CACHE_SIZE / 2, core.totalPages, reserved);
    }

    method PushCore(c: nat, page: nat)
      requires Valid() && c < |cpus| && cpus[c].count < CACHE_SIZE && page in held
      modifies this`stacks, this`held, cpus[c], cpus[c].stack
      ensures Valid() && Enabled(old(View()), Push(c, page)) && View() == Next(old(View()), Push(c, page))
    {
      ghost var before := View();
      cpus[c].Push(page);
      stacks := stacks[c := stacks[c] + [page]];
      held := held - {page};
      PushKeeps(before, c, page, core.totalPages, reserved);
    }

    // ---------- calls ----------

    method TakeRun(count: nat) returns (r: Option<nat>, ghost moves: seq<Move>)
      requires Valid()
      modifies this`held, core, core.bitmap, core.summary
      ensures Valid() && Granted(old(View()), moves, View(), r, count, reserved)
      ensures r == None ==> View() == old(View())
      ensures r == None && count == 1 ==> forall p {:trigger p in core.Free()} :: p in core.Free() ==> !core.Scanned(p, old(core.freeHint))
      ensures 0 < count < WORD && (r == None || count > 1) ==> old(core.Picked(r, count, PAGE_4K))
    {
      ghost var before := View();
      r := core.AllocFromBitmap(count);
      moves := [];
      if r.Some? {
        moves := [Take(r.value, count)];
        held := held + RunSet(r.value, count);
        assert View() == Next(before, moves[0]);
        RunGranted(before, r.value, count, core.totalPages, reserved);
      }
    }

    // from the CPU's stack, refilled when it is empty
    method AllocOne(c: nat) returns (r: Option<nat>, ghost moves: seq<Move>)
      requires Valid() && c < |cpus|
      modifies this`stacks, this`held, core, core.bitmap, core.summary, cpus[c], cpus[c].stack
      ensures Valid() && Granted(old(View()), moves, View(), r, 1, reserved)
      ensures r == None ==> core.Free() == old(core.Free()) == {} && stacks[c] == old(stacks[c]) == []
    {
      ghost var s := View();
      moves := [];
      if cpus[c].count == 0 {
        ghost var batch := RefillCore(c);
        moves := [Refill(c, batch)];
        OneMove(s, moves[0]);
      }
      r := None;
      if cpus[c].count > 0 {
        ghost var t := View();
        var page := PopCore(c);
        r := Some(page);
        PopGranted(s, moves, t, c, page, core.totalPages, reserved);
        moves := moves + [Pop(c)];
      }
    }

    method Alloc(c: nat, count: nat) returns (r: Option<nat>, ghost moves: seq<Move>)
      requires Valid()
      modifies this, Repr()
      ensures Valid() && Granted(old(View()), moves, View(), r, count, reserved)
      ensures count == 0 ==> r == None
      ensures r == None && count == 1 && c < |cpus| ==> old(core.Free()) == {} && old(stacks[c]) == []
      ensures 1 < count < WORD ==> old(core.Picked(r, count, PAGE_4K))
      ensures r == None && 0 < count < WORD && core.totalPages <= core.lowMem ==>
        forall p {:trigger RunAt(old(core.Free()), p, count, 1)} :: !RunAt(old(core.Free()), p, count, 1)
    {
      moves := [];
      if count == 0 {
        return None, moves;
      }
      if count == 1 && c < |cpus| {
        assert cpus[c] in cpus;
        r, moves := AllocOneOrRun(c);
      } else {
        r, moves := TakeRun(count);
        assert 4096 / PAGE_4K == 1;
        if r == None && count < WORD && core.totalPages <= core.lowMem {
          core.PickedAll(count, PAGE_4K);
        }
      }
    }

    // the bitmap is asked again when neither the stack nor a refill has a page
    method AllocOneOrRun(c: nat) returns (r: Option<nat>, ghost moves: seq<Move>)
      requires Valid() && c < |cpus|
      modifies this`stacks, this`held, core, core.bitmap, core.summary, cpus[c], cpus[c].stack
      ensures Valid() && Granted(old(View()), moves, View(), r, 1, reserved)
      ensures r == None ==> old(core.Free()) == {} && old(stacks[c]) == []
      ensures r == None ==> forall p {:trigger RunAt(old(core.Free()), p, 1, 1)} :: !RunAt(old(core.Free()), p, 1, 1)
    {
      r, moves := AllocOne(c);
      if r.Some? {
        return;
      }
      forall p | RunAt(core.Free(), p, 1, 1) ensures false {
        OneRun(p);
      }
      ghost var t, first := View(), moves;
      r, moves := TakeRun(1);
      LeadsOn(old(View()), first, t, moves, View());
      moves := first + moves;
    }

    method FreeOne(c: nat, page: nat, sorted: seq<nat>) returns (ghost moves: seq<Move>)
      requires Valid() && c < |cpus| && RunSet(page, 1) <= held
      requires cpus[c].count == CACHE_SIZE ==> multiset(sorted) == multiset(cpus[c].stack[CACHE_SIZE / 2..])
      modifies this`stacks, this`held, core, core.bitmap, core.summary, cpus[c], cpus[c].stack
      ensures Valid() && Leads(old(View()), moves, View()) && held == old(held) - RunSet(page, 1)
    {
      ghost var s := View();
      moves := [];
      OneRun(page);
      if cpus[c].count >= CACHE_SIZE {
        FlushCore(c, sorted);
        moves := [Flush(c, CACHE_SIZE / 2)];
        OneMove(s, moves[0]);
      }
      ghost var t := View();
      PushCore(c, page);
      OneMove(t, Push(c, page));
      LeadsOn(s, moves, t, [Push(c, page)], View());
      moves := moves + [Push(c, page)];
    }

    method GiveRun(page: nat, count: nat) returns (ghost moves: seq<Move>)
      requires Valid() && RunSet(page, count) <= held
      modifies this`held, core, core.bitmap, core.summary
      ensures Valid() && Leads(old(View()), moves, View()) && held == old(held) - RunSet(page, count)
    {
      ghost var before := View();
      HeldRun(before, page, count, core.totalPages, reserved);
      moves := [];
      if count > 0 {
        RunInside(page, count, core.totalPages);
        core.FreeToBitmap(page, count);
        assert core.Free() == before.free + RunSet(page, count);
        moves := [Give(page, count)];
        held := held - RunSet(page, count);
        assert View() == Next(before, moves[0]);
        RunMoveKeeps(before, moves[0], core.totalPages, reserved);
        OneMove(before, moves[0]);
      }
    }

    // sorted is the upper half of a full stack in the order that the library sort leaves it
    method Free(c: nat, page: nat, count: nat, sorted: seq<nat>) returns (ghost moves: seq<Move>)
      requires Valid() && (page != 0 ==> RunSet(page, count) <= held)
      requires c < |cpus| && cpus[c].count == CACHE_SIZE ==> multiset(sorted) == multiset(cpus[c].stack[CACHE_SIZE / 2..])
      modifies this, Repr()
      ensures Valid() && Leads(old(View()), moves, View())
      ensures held == if page == 0 then old(held) else old(held) - RunSet(page, count)
    {
      moves := [];
      if page == 0 {
        return;
      }
      if count == 1 && c < |cpus| {
        assert cpus[c] in cpus;
        moves := FreeOne(c, page, sorted);
      } else {
        moves := GiveRun(page, count);
      }
    }

    method AllocAligned(count: nat, alignment: nat) returns (r: Option<nat>, ghost moves: seq<Move>)
      requires Valid()
      modifies this`held, core, core.bitmap, core.summary
      ensures Valid() && Granted(old(View()), moves, View(), r, count, reserved)
      ensures r == None ==> View() == old(View())
      ensures r.Some? ==> 0 < count && 0 < alignment / PAGE_4K && (IsPow2(alignment / PAGE_4K) ==> r.value % (alignment / PAGE_4K) == 0) && r.value + count <= core.totalPages
      ensures 0 < count && 0 < alignment && alignment % PAGE_4K == 0 && core.Thorough(count, alignment / PAGE_4K) ==>
        0 < alignment / PAGE_4K && old(core.Picked(r, count, alignment))
    {
      ghost var before := View();
      r := core.AllocAligned(count, alignment);
      moves := [];
      if r.Some? {
        moves := [Take(r.value, count)];
        held := held + RunSet(r.value, count);
        assert View() == Next(before, moves[0]);
        RunGranted(before, r.value, count, core.totalPages, reserved);
      }
    }

    method AllocDma(count: nat, alignment: nat) returns (r: Option<nat>, ghost moves: seq<Move>)
      requires Valid()
      modifies this`held, core, core.bitmap, core.summary
      ensures Valid() && Granted(old(View()), moves, View(), r, count, reserved)
      ensures r == None ==> View() == old(View())
      ensures r.Some? ==> 0 < count && 0 < alignment / PAGE_4K && (IsPow2(alignment / PAGE_4K) ==> r.value % (alignment / PAGE_4K) == 0) && r.value + count <= core.lowMem
      ensures 0 < count && 0 < alignment && alignment % PAGE_4K == 0 && core.Thorough(count, alignment / PAGE_4K) ==>
        0 < alignment / PAGE_4K && old(core.LowPicked(r, count, alignment / PAGE_4K))
    {
      ghost var before := View();
      r := core.AllocDma(count, alignment);
      moves := [];
      if r.Some? {
        moves := [Take(r.value, count)];
        held := held + RunSet(r.value, count);
        assert View() == Next(before, moves[0]);
        RunGranted(before, r.value, count, core.totalPages, reserved);
      }
    }

    method GetStats() returns (stats: Stats)
      requires Valid()
      ensures stats == Stats(core.totalPages * PAGE_4K, (|held| + |reserved|) * PAGE_4K, (core.totalPages - |held| - |reserved|) * PAGE_4K)
    {
      var cachedTotal, i := 0, 0;
      while i < |cpus|
        invariant i <= |cpus| && cachedTotal == SumLen(stacks[..i])
      {
        assert stacks[..i + 1][..i] == stacks[..i] && stacks[..i + 1][i] == stacks[i];
        cachedTotal := cachedTotal + cpus[i].count;
        i := i + 1;
      }
      assert stacks[..|cpus|] == stacks;
      PagesAddUp(View(), core.totalPages, reserved);
      CountIsSize(core.Bm(), core.totalPages);
      var actualUsed := core.usedPages - cachedTotal;
      stats := Stats(core.totalPages * PAGE_4K, actualUsed * PAGE_4K, (core.totalPages - actualUsed) * PAGE_4K);
    }
  }
}
