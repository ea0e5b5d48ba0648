/** A process's address space: the region tree bounded by the user range, and what every run of it keeps. */
module UserSpace {
  import opened BitMath
  import opened Common
  import opened RegionTree

  const USER_START := 0x1000
  const USER_END := 0x7FFF_FFFF_FFFF
  const USER: bv8 := 4
  const LAZY: bv8 := 32

  function AlignmentOf(page: PageSize): int
  {
    match page
    case Size4K => PAGE_4K
    case Size2M => PAGE_2M
    case Size1G => PAGE_1G
  }

  // a whole number of pages of this size
  predicate OnPages(n: int, page: PageSize)
  {
    match page
    case Size4K => n % 0x1000 == 0
    case Size2M => n % 0x20_0000 == 0
    case Size1G => n % 0x4000_0000 == 0
  }

  // ---------- the live regions as a value ----------

  type Space = map<int, Info>

  ghost predicate Disjoint(c: Space)
  {
    forall s, t {:trigger s in c, t in c} :: s in c && t in c && s < t ==> s + c[s].size <= t
  }

  ghost predicate WithinUser(c: Space)
  {
    forall s {:trigger c[s]} :: s in c ==> USER_START <= s && 0 < c[s].size && s + c[s].size <= USER_END
  }

  // no live region meets [s, e)
  ghost predicate FreeRange(c: Space, s: int, e: int)
  {
    forall k {:trigger c[k]} :: k in c ==> e <= k || k + c[k].size <= s
  }

  datatype Op =
    | Allocate(size: int, flags: bv8, page: PageSize, populated: bool)
    | AllocateSpecific(at: int, size: int, flags: bv8, page: PageSize, populated: bool)
    | Free(ptr: int)

  // Fault: the tree's repair after a deletion read a null sibling
  datatype Outcome = Mapped(addr: int) | Rejected | Fault

  ghost predicate Backed(flags: bv8, populated: bool)
  {
    (flags | USER) & LAZY != 0 || populated
  }

  ghost predicate Placed(c: Space, size: int, flags: bv8, page: PageSize, addr: int, c': Space)
    requires 0 <= size
  {
    var al := AlignmentOf(page);
    var sz := AlignUp(size, al);
    && 0 < size && addr % al == 0 && USER_START <= addr && addr + sz <= USER_END && FreeRange(c, addr, addr + sz)
    && c' == c[addr := Info(sz, flags | USER, WriteBack)]
  }

  // one completed call
  ghost predicate Step(c: Space, op: Op, out: Outcome, c': Space)
  {
    match op
    case Allocate(size, flags, page, populated) =>
      0 <= size && match out {
        case Mapped(addr) => Backed(flags, populated) && Placed(c, size, flags, page, addr, c')
        case Rejected => c' == c
        case Fault => false
      }
    case AllocateSpecific(at, size, flags, page, populated) =>
      0 <= size && 0 <= at && match out {
        case Mapped(addr) => addr == AlignDown(at, AlignmentOf(page)) && Backed(flags, populated) && Placed(c, size, flags, page, addr, c')
        case Rejected => c' == c
        case Fault => false
      }
    case Free(ptr) => out == Rejected && c' == c - {ptr}
  }

  lemma StepMapped(c: Space, size: int, flags: bv8, page: PageSize, populated: bool, addr: int, sz: int)
    requires 0 < size && sz == AlignUp(size, AlignmentOf(page)) && Backed(flags, populated)
    requires addr % AlignmentOf(page) == 0 && USER_START <= addr && addr + sz <= USER_END && FreeRange(c, addr, addr + sz)
    ensures Step(c, Allocate(size, flags, page, populated), Mapped(addr), c[addr := Info(sz, flags | USER, WriteBack)])
  {
  }

  lemma StepMappedAt(c: Space, at: int, size: int, flags: bv8, page: PageSize, populated: bool, addr: int, sz: int)
    requires 0 < size && 0 <= at && sz == AlignUp(size, AlignmentOf(page)) && addr == AlignDown(at, AlignmentOf(page))
    requires Backed(flags, populated) && USER_START <= addr && addr + sz <= USER_END && FreeRange(c, addr, addr + sz)
    ensures Step(c, AllocateSpecific(at, size, flags, page, populated), Mapped(addr), c[addr := Info(sz, flags | USER, WriteBack)])
    ensures OnPages(addr, page) && OnPages(sz, page)
  {
    StepMapped(c, size, flags, page, populated, addr, sz);
  }

  datatype Call = Call(op: Op, out: Outcome)

  // states[i] and states[i + 1] are the live regions before and after calls[i]
  ghost predicate IsRun(states: seq<Space>, calls: seq<Call>)
  {
    && |states| == |calls| + 1
    && forall i {:trigger calls[i]} :: 0 <= i < |calls| ==> Step(states[i], calls[i].op, calls[i].out, states[i + 1])
  }

  lemma StepKeeps(c: Space, op: Op, out: Outcome, c': Space)
    requires Disjoint(c) && WithinUser(c) && Step(c, op, out, c')
    ensures Disjoint(c') && WithinUser(c')
  {
    if out.Mapped? {
      var k := out.addr;
      assert c' - {k} == c - {k};
      assert forall s :: s in c' && s != k ==> s in c && c'[s] == c[s];
    }
  }

  // in every state of every run the live regions are pairwise disjoint and inside the user range
  lemma {:induction false} RunKeeps(states: seq<Space>, calls: seq<Call>, i: nat)
    requires IsRun(states, calls) && Disjoint(states[0]) && WithinUser(states[0]) && i < |states|
    ensures Disjoint(states[i]) && WithinUser(states[i])
  {
    if i > 0 {
      RunKeeps(states, calls, i - 1);
      StepKeeps(states[i - 1], calls[i - 1].op, calls[i - 1].out, states[i]);
    }
  }

  lemma StepStays(c: Space, op: Op, out: Outcome, c': Space, addr: int)
    requires WithinUser(c) && Step(c, op, out, c') && addr in c && op != Free(addr)
    ensures addr in c' && c'[addr] == c[addr]
  {
    if out.Mapped? {
      assert c[addr].size > 0;
    }
  }

  // a region stays mapped, unchanged, until a free names its first address
  lemma {:induction false} StaysMapped(states: seq<Space>, calls: seq<Call>, i: nat, j: nat, addr: int)
    requires IsRun(states, calls) && Disjoint(states[0]) && WithinUser(states[0])
    requires i <= j < |states| && addr in states[i]
    requires forall k {:trigger calls[k]} :: i <= k < j ==> calls[k].op != Free(addr)
    ensures addr in states[j] && states[j][addr] == states[i][addr]
    decreases j
  {
    if i < j {
      StaysMapped(states, calls, i, j - 1, addr);
      RunKeeps(states, calls, j - 1);
      StepStays(states[j - 1], calls[j - 1].op, calls[j - 1].out, states[j], addr);
    }
  }

  // ---------- the 64-bit range check ----------

  // the guard of allocate and allocate_specific, computed as the machine computes it
  predicate Accepts64(addr: int, size: int)
  {
    !(addr < USER_START || (addr + size) % TWO64 > USER_END)
  }

  // the guard answers as intended unless the sum wraps to an address that passes for a user address
  lemma Accepts64Exact(addr: int, size: int)
    requires USER_START <= addr < TWO64 && 0 <= size < TWO64
    ensures (Accepts64(addr, size) <==> addr + size <= USER_END) <==> addr + size < TWO64 || USER_END < addr + size - TWO64
  {
    if addr + size >= TWO64 {
      assert (addr + size) % TWO64 == addr + size - TWO64;
    }
  }

  // rounding the size up and adding it to a user address stay below 2^64
  predicate NoWrap(size: int, page: PageSize)
  {
    size + AlignmentOf(page) + USER_END < TWO64
  }

  // ---------- the address space ----------

  class UserAddressSpace {
    const tree: Tree

    ghost predicate Valid()
      reads this, tree, tree.nodes
    {
      && tree.Valid() && tree.limit == USER_END
      && forall s {:trigger s in tree.Content()} :: s in tree.Content() ==> USER_START <= s
    }

    ghost function Live(): Space
      requires Valid()
      reads this, tree, tree.nodes
    {
      tree.Content()
    }

    constructor ()
      ensures Valid() && Live() == map[] && fresh(tree) && tree.nodes == {} && tree.Balanced()
    {
      tree := new Tree(USER_END);
    }

    // the tree's own invariant already says that the live regions are disjoint and in range
    lemma LiveSound()
      requires Valid()
      ensures Disjoint(Live()) && WithinUser(Live())
    {
      forall s | s in Live() ensures USER_START <= s && 0 < Live()[s].size && s + Live()[s].size <= USER_END {
        var n := tree.at[s];
        assert tree.Threaded(n) && tree.GapOk(n);
      }
      forall s, t | s in Live() && t in Live() && s < t ensures s + Live()[s].size <= t {
        tree.Ordered(tree.at[s], tree.at[t]);
      }
    }

    lemma ClearIsFree(s: int, e: int)
      requires Valid()
      ensures tree.Clear(s, e) <==> FreeRange(Live(), s, e)
    {
      forall n | n in tree.nodes ensures n.start in Live() && Live()[n.start].size == n.size {
        tree.KeyOf(n);
        assert tree.Threaded(n);
      }
      assert forall k :: k in Live() ==> tree.at[k] in tree.nodes && tree.at[k].start == k && Live()[k].size == tree.at[k].size;
    }

    // aligned, in user space, and at or above the end of some region unless there is none
    ghost predicate Hole(a: int, size: int, alignment: int)
      requires 0 < alignment
      reads tree, tree.nodes
    {
      if tree.root == null then a % alignment == 0 && USER_START <= a && a + size <= USER_END else tree.Hole(a, size, alignment)
    }

    ghost predicate HasRoom(size: int, alignment: int)
      requires 0 < alignment
      reads tree, tree.nodes
    {
      exists a :: Hole(a, size, alignment)
    }

    // the hole that a request gets: the lowest one, unless the gap after the cursor has one
    ghost predicate Chosen(size: int, alignment: int, addr: int)
      requires 0 < alignment
      reads tree, tree.nodes, tree.cursor
    {
      if tree.root != null then tree.Chosen(size, alignment, addr)
      else Hole(addr, size, alignment) && forall a {:trigger Hole(a, size, alignment)} :: Hole(a, size, alignment) ==> addr <= a
    }

    // how the search sees it
    ghost predicate Fitting(size: int, alignment: int)
      requires 0 < alignment
      reads tree, tree.nodes
    {
      if tree.root == null then AlignUp(USER_START, alignment) + size <= USER_END else tree.SomeFit(size, alignment)
    }

    lemma RoomExact(size: int, alignment: int)
      requires Valid() && 0 < size && 0 < alignment
      ensures HasRoom(size, alignment) <==> Fitting(size, alignment)
    {
      if tree.root != null {
        tree.SomeFitExact(size, alignment);
        if a :| tree.Hole(a, size, alignment) {
          assert Hole(a, size, alignment);
        }
      } else {
        if a :| Hole(a, size, alignment) {
          AlignUpLeast(USER_START, alignment, a);
        }
        if AlignUp(USER_START, alignment) + size <= USER_END {
          assert Hole(AlignUp(USER_START, alignment), size, alignment);
        }
      }
    }

    lemma ChosenExact(size: int, alignment: int, addr: int)
      requires Valid() && 0 < size && 0 < alignment && HasRoom(size, alignment)
      requires if tree.root == null then addr == AlignUp(USER_START, alignment)
        else if tree.cursor != null && tree.Fits(tree.cursor, size, alignment) then addr == tree.Candidate(tree.cursor, alignment)
        else tree.FirstFit(tree.root, size, alignment, addr)
      ensures Chosen(size, alignment, addr)
    {
      RoomExact(size, alignment);
      if tree.root != null {
        tree.ChosenByFit(size, alignment, addr);
      } else {
        forall a | Hole(a, size, alignment) ensures addr <= a {
          AlignUpLeast(USER_START, alignment, a);
        }
      }
    }

    method FindHole(size: int, alignment: int) returns (addr: int)
      requires Valid() && 0 < size && 0 < alignment
      ensures USER_START <= addr && addr + size <= USER_END <==> HasRoom(size, alignment)
      ensures HasRoom(size, alignment) ==> addr % alignment == 0 && tree.Clear(addr, addr + size) && Chosen(size, alignment, addr)
    {
      addr := SearchHole(size, alignment);
      RoomExact(size, alignment);
      if HasRoom(size, alignment) {
        ChosenExact(size, alignment, addr);
      }
    }

    method SearchHole(size: int, alignment: int) returns (addr: int)
      requires Valid() && 0 < size && 0 < alignment
      ensures USER_START <= addr && addr + size <= USER_END <==> Fitting(size, alignment)
      ensures Fitting(size, alignment) ==> addr % alignment == 0 && tree.Clear(addr, addr + size)
      ensures Fitting(size, alignment) ==>
        if tree.root == null then addr == AlignUp(USER_START, alignment)
        else if tree.cursor != null && tree.Fits(tree.cursor, size, alignment) then addr == tree.Candidate(tree.cursor, alignment)
        else tree.FirstFit(tree.root, size, alignment, addr)
    {
      if tree.cursor != null {
        ghost var c := tree.cursor;
        assert tree.Threaded(c) && tree.GapOk(c);
        var candidate := tree.Candidate(tree.cursor, alignment);
        var overhead := candidate - tree.cursor.End();
        if tree.cursor.gap >= size + overhead && candidate + size <= USER_END {
          tree.FitClear(c, size, alignment);
          tree.KeyOf(c);
          return candidate;
        }
      }
      var found := tree.FindBoundedHoleFrom(tree.root, size, alignment);
      tree.BoundRedundant(tree.root, size, alignment);
      if tree.root != null {
        tree.FindHoleFirstFit(tree.root, size, alignment);
      }
      if found != 0 {
        ghost var n := tree.FirstFitClear(size, alignment, found);
        tree.KeyOf(n);
        return found;
      }
      if tree.root == null {
        return AlignUp(USER_START, alignment);
      }
      tree.NoFitNone(size, alignment);
      var max := tree.LastRegion();
      tree.TailFit(max, size, alignment);
      var tail := tree.Candidate(max, alignment);
      if tail + size <= USER_END {
        return tail;
      }
      return 0;
    }

    // find_hole followed by the range check of allocate; 0 stands for no hole
    method HoleInRange(size: int, alignment: int) returns (addr: int)
      requires Valid() && 0 < size && 0 < alignment
      ensures addr != 0 <==> HasRoom(size, alignment)
      ensures addr != 0 ==> USER_START <= addr && addr + size <= USER_END && addr % alignment == 0
      ensures addr != 0 ==> tree.Clear(addr, addr + size) && FreeRange(Live(), addr, addr + size) && Chosen(size, alignment, addr)
    {
      addr := FindHole(size, alignment);
      if addr < USER_START || addr + size > USER_END {
        return 0;
      }
      ClearIsFree(addr, addr + size);
    }

    // insert, populate, and take the region out again if populating failed
    method InsertBacked(addr: int, size: int, flags: bv8, populated: bool) returns (out: Outcome)
      requires Valid() && USER_START <= addr && 0 < size && addr + size <= USER_END && tree.Clear(addr, addr + size)
      modifies tree, tree.nodes
      ensures flags & LAZY != 0 || populated ==> out == Mapped(addr)
      ensures !(flags & LAZY != 0 || populated) ==> !out.Mapped?
      ensures out.Mapped? ==> Valid() && Live() == old(Live())[addr := Info(size, flags, WriteBack)]
      ensures out.Rejected? ==> Valid() && Live() == old(Live())
      ensures old(tree.Balanced()) ==> !out.Fault? && (out.Mapped? ==> tree.Balanced())
      ensures out.Mapped? ==> fresh(tree.nodes - old(tree.nodes))
    {
      ClearIsFree(addr, addr + size);
      assert addr !in Live() by { LiveSound(); }
      tree.Insert(addr, size, flags, WriteBack);
      if flags & LAZY == 0 && !populated {
        out := Withdraw(addr);
      } else {
        out := Mapped(addr);
      }
    }

    // the region found to contain the start of a live region is that region
    method FindStart(addr: int) returns (node: Region)
      requires Valid() && addr in Live()
      ensures addr in tree.at && node == tree.at[addr] && node in tree.nodes && node.start == addr
    {
      var found := tree.FindRegionContaining(addr);
      ghost var z := tree.at[addr];
      assert tree.Threaded(z) && tree.GapOk(z) && z.End() > addr;
      tree.Ordered(z, found);
      node := found;
    }

    method Withdraw(addr: int) returns (out: Outcome)
      requires Valid() && addr in Live()
      modifies tree, tree.nodes
      ensures !out.Mapped? && (out.Fault? <==> old(addr in tree.at && tree.at[addr] in tree.nodes && !tree.DeleteSafe(tree.at[addr])))
      ensures out.Rejected? ==> Valid() && Live() == old(Live()) - {addr}
      ensures old(tree.Balanced()) ==> !out.Fault?
      ensures old(addr in tree.at && tree.Plain(tree.at[addr])) ==> out.Rejected? && tree.Cut(old(tree.at[addr]))
    {
      var node := FindStart(addr);
      var ok := tree.Delete(node);
      out := if ok then Rejected else Fault;
    }

    method AllocateAnywhere(size: int, flags: bv8, page: PageSize, populated: bool) returns (out: Outcome)
      requires Valid() && 0 <= size && NoWrap(size, page)
      modifies tree, tree.nodes
      ensures !out.Fault? ==> Valid() && Step(old(Live()), Allocate(size, flags, page, populated), out, Live())
      ensures out.Mapped? <==> size > 0 && old(HasRoom(AlignUp(size, AlignmentOf(page)), AlignmentOf(page))) && Backed(flags, populated)
      ensures out.Mapped? ==> old(Chosen(AlignUp(size, AlignmentOf(page)), AlignmentOf(page), out.addr))
      ensures out.Mapped? ==> out.addr in Live() && OnPages(out.addr, page) && OnPages(Live()[out.addr].size, page)
      ensures old(tree.Balanced()) ==> !out.Fault? && (out.Mapped? ==> tree.Balanced())
    {
      if size == 0 {
        return Rejected;
      }
      var alignment := AlignmentOf(page);
      var size' := AlignUp(size, alignment);
      out := AllocateRounded(size', alignment, flags | USER, populated);
      if out.Mapped? {
        StepMapped(old(Live()), size, flags, page, populated, out.addr, size');
      }
    }

    // the size is rounded already
    method AllocateRounded(size: int, alignment: int, flags: bv8, populated: bool) returns (out: Outcome)
      requires Valid() && 0 < size && 0 < alignment
      modifies tree, tree.nodes
      ensures out.Mapped? <==> old(HasRoom(size, alignment)) && (flags & LAZY != 0 || populated)
      ensures out.Mapped? ==> out.addr % alignment == 0 && USER_START <= out.addr && out.addr + size <= USER_END
      ensures out.Mapped? ==> FreeRange(old(Live()), out.addr, out.addr + size) && old(Chosen(size, alignment, out.addr))
      ensures out.Mapped? ==> Valid() && Live() == old(Live())[out.addr := Info(size, flags, WriteBack)]
      ensures out.Rejected? ==> Valid() && Live() == old(Live())
      ensures old(tree.Balanced()) ==> !out.Fault? && (out.Mapped? ==> tree.Balanced())
    {
      var addr := HoleInRange(size, alignment);
      if addr == 0 {
        return Rejected;
      }
      out := InsertBacked(addr, size, flags, populated);
    }

    method AllocateAt(at: int, size: int, flags: bv8, page: PageSize, populated: bool) returns (out: Outcome)
      requires Valid() && 0 <= at < TWO64 - USER_END && 0 <= size && NoWrap(size, page)
      modifies tree, tree.nodes
      ensures !out.Fault? ==> Valid() && Step(old(Live()), AllocateSpecific(at, size, flags, page, populated), out, Live())
      ensures var al := AlignmentOf(page); var a, sz := AlignDown(at, al), AlignUp(size, al);
        out.Mapped? <==> size > 0 && USER_START <= a && a + sz <= USER_END && FreeRange(old(Live()), a, a + sz) && Backed(flags, populated)
      ensures old(tree.Balanced()) ==> !out.Fault? && (out.Mapped? ==> tree.Balanced())
      ensures out.Mapped? ==> fresh(tree.nodes - old(tree.nodes))
      ensures out.Mapped? ==> out.addr in Live() && OnPages(out.addr, page) && OnPages(Live()[out.addr].size, page)
    {
      if size == 0 {
        return Rejected;
      }
      var alignment := AlignmentOf(page);
      var size' := AlignUp(size, alignment);
      var addr := AlignDown(at, alignment);
      out := AllocateRange(addr, size', flags | USER, populated);
      if out.Mapped? {
        StepMappedAt(old(Live()), at, size, flags, page, populated, addr, size');
      }
    }

    // the address and the size are rounded already
    method AllocateRange(addr: int, size: int, flags: bv8, populated: bool) returns (out: Outcome)
      requires Valid() && 0 < size
      modifies tree, tree.nodes
      ensures out.Mapped? <==> USER_START <= addr && addr + size <= USER_END && FreeRange(old(Live()), addr, addr + size) && (flags & LAZY != 0 || populated)
      ensures out.Mapped? ==> out.addr == addr && Valid() && Live() == old(Live())[addr := Info(size, flags, WriteBack)]
      ensures out.Rejected? ==> Valid() && Live() == old(Live())
      ensures old(tree.Balanced()) ==> !out.Fault? && (out.Mapped? ==> tree.Balanced())
      ensures out.Mapped? ==> fresh(tree.nodes - old(tree.nodes))
    {
      if addr < USER_START || addr + size > USER_END {
        return Rejected;
      }
      ClearIsFree(addr, addr + size);
      var taken := tree.CheckOverlap(addr, size);
      OverlapIsBusy(addr, addr + size);
      if taken {
        return Rejected;
      }
      out := InsertBacked(addr, size, flags, populated);
    }

    lemma OverlapIsBusy(s: int, e: int)
      requires Valid()
      ensures (exists n :: n in tree.nodes && tree.Meets(n, s, e)) <==> !tree.Clear(s, e)
    {
      if !tree.Clear(s, e) {
        var n :| n in tree.nodes && !(e <= n.start || n.End() <= s);
        assert tree.Meets(n, s, e);
      }
    }

    method FreeAt(ptr: int) returns (out: Outcome)
      requires Valid()
      modifies tree, tree.nodes
      ensures !out.Mapped? && (out.Rejected? ==> Valid() && Step(old(Live()), Free(ptr), out, Live()))
      ensures out.Fault? <==> old(ptr in tree.at && !tree.DeleteSafe(tree.at[ptr]))
      ensures old(tree.Balanced()) ==> !out.Fault?
      ensures old(ptr in tree.at && tree.Plain(tree.at[ptr])) ==> out.Rejected? && tree.Cut(old(tree.at[ptr]))
    {
      var node := tree.FindRegionContaining(ptr);
      if node != null && node.start == ptr {
        tree.KeyOf(node);
        assert tree.Threaded(node);
        out := Withdraw(ptr);
      } else {
        if ptr in tree.at {
          ghost var z := tree.at[ptr];
          assert tree.GapOk(z) && z.End() > ptr;
          tree.Ordered(z, node);
          assert false;
        }
        assert Live() - {ptr} == Live();
        out := Rejected;
      }
    }
  }
}
