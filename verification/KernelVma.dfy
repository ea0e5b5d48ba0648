/** The kernel's virtual-memory allocator, without its per-CPU cache of freed addresses. */
module KernelVma {
  import opened BitMath
  import opened Common
  import opened RegionTree

  // OutOfSpace stands for the case in which the computed address range would run past the last address
  datatype Placement = Placed(addr: int) | OutOfSpace

  ghost predicate StartsAbove(regions: map<int, Info>, base: int)
  {
    forall s {:trigger s in regions} :: s in regions ==> base <= s
  }

  class VirtualMemoryAllocator {
    const tree: Tree
    const heapBase: int

    ghost predicate Valid()
      reads this, tree, tree.nodes
    {
      && tree.Valid() && tree.limit == TWO64 - 1 && 0 <= heapBase
      && StartsAbove(tree.Content(), heapBase)
    }

    constructor (heapBase: int)
      requires 0 <= heapBase
      ensures Valid() && this.heapBase == heapBase && fresh(tree) && tree.Balanced() && tree.Content() == map[]
    {
      this.heapBase := heapBase;
      tree := new Tree(TWO64 - 1);
    }

    // aligned, below the limit, and at or above the end of some region or, if there is none, the base of the heap
    ghost predicate Hole(a: int, size: int, alignment: int)
      requires 0 < alignment
      reads tree, tree.nodes
    {
      if tree.root == null then a % alignment == 0 && heapBase <= a && a + size <= tree.limit else tree.Hole(a, size, alignment)
    }

    ghost predicate HasRoom(size: int, alignment: int)
      requires 0 < alignment
      reads tree, tree.nodes
    {
      exists a :: Hole(a, size, alignment)
    }

    // how the search sees it
    ghost predicate Fitting(size: int, alignment: int)
      requires 0 <= heapBase && 0 < alignment
      reads tree, tree.nodes
    {
      if tree.root == null then AlignUp(heapBase, alignment) + size <= tree.limit else tree.SomeFit(size, alignment)
    }

    lemma RoomExact(size: int, alignment: int)
      requires Valid() && 0 < size && 0 < alignment
      ensures HasRoom(size, alignment) <==> Fitting(size, alignment)
    {
      if tree.root != null {
        tree.SomeFitExact(size, alignment);
        if a :| tree.Hole(a, size, alignment) {
          assert Hole(a, size, alignment);
        }
      } else {
        if a :| Hole(a, size, alignment) {
          AlignUpLeast(heapBase, alignment, a);
        }
        if AlignUp(heapBase, alignment) + size <= tree.limit {
          assert Hole(AlignUp(heapBase, alignment), size, alignment);
        }
      }
    }

    // the lowest hole, unless the gap after the cursor has one
    ghost predicate Preferred(size: int, alignment: int, addr: int)
      requires 0 < alignment
      reads tree, tree.nodes, tree.cursor
    {
      if tree.root != null then tree.Chosen(size, alignment, addr)
      else Hole(addr, size, alignment) && forall a {:trigger Hole(a, size, alignment)} :: Hole(a, size, alignment) ==> addr <= a
    }

    lemma PreferredExact(size: int, alignment: int, addr: int)
      requires Valid() && 0 < size && 0 < alignment && Fitting(size, alignment)
      requires if tree.root == null then addr == AlignUp(heapBase, alignment)
        else if tree.cursor != null && tree.Fits(tree.cursor, size, alignment) then addr == tree.Candidate(tree.cursor, alignment)
        else tree.FirstFit(tree.root, size, alignment, addr)
      ensures Preferred(size, alignment, addr)
    {
      if tree.root != null {
        tree.ChosenByFit(size, alignment, addr);
      } else {
        forall a | Hole(a, size, alignment) ensures addr <= a {
          AlignUpLeast(heapBase, alignment, a);
        }
      }
    }

    method FindHole(size: int, alignment: int) returns (addr: int)
      requires Valid() && 0 < size && 0 < alignment
      ensures addr % alignment == 0 && heapBase <= addr && tree.Clear(addr, addr + size)
      ensures addr + size <= tree.limit <==> HasRoom(size, alignment)
      ensures HasRoom(size, alignment) ==> Preferred(size, alignment, addr)
    {
      addr := SearchHole(size, alignment);
      RoomExact(size, alignment);
      if HasRoom(size, alignment) {
        PreferredExact(size, alignment, addr);
      }
    }

    method SearchHole(size: int, alignment: int) returns (addr: int)
      requires Valid() && 0 < size && 0 < alignment
      ensures addr % alignment == 0 && heapBase <= addr && tree.Clear(addr, addr + size)
      ensures addr + size <= tree.limit <==> Fitting(size, alignment)
      ensures Fitting(size, alignment) ==>
        if tree.root == null then addr == AlignUp(heapBase, alignment)
        else if tree.cursor != null && tree.Fits(tree.cursor, size, alignment) then addr == tree.Candidate(tree.cursor, alignment)
        else tree.FirstFit(tree.root, size, alignment, addr)
    {
      if tree.cursor != null {
        ghost var c := tree.cursor;
        assert tree.Threaded(c) && tree.GapOk(c);
        var candidate := tree.Candidate(tree.cursor, alignment);
        var overhead := candidate - tree.cursor.End();
        if tree.cursor.gap >= size + overhead {
          tree.FitClear(c, size, alignment);
          tree.KeyOf(c);
          return candidate;
        }
      }
      var found := tree.FindHoleFrom(tree.root, size, alignment);
      if tree.root != null {
        tree.FindHoleFirstFit(tree.root, size, alignment);
      }
      if found != 0 {
        ghost var n := tree.FirstFitClear(size, alignment, found);
        tree.KeyOf(n);
        return found;
      }
      if tree.root == null {
        return AlignUp(heapBase, alignment);
      }
      tree.NoFitNone(size, alignment);
      var max := tree.LastRegion();
      tree.TailFit(max, size, alignment);
      tree.KeyOf(max);
      addr := tree.Candidate(max, alignment);
    }

    method Place(addr: int, size: int, flags: bv8, cache: CacheType)
      requires Valid() && 0 < size && heapBase <= addr && addr + size <= tree.limit && tree.Clear(addr, addr + size)
      modifies tree, tree.nodes
      ensures Valid() && tree.Content() == old(tree.Content())[addr := Info(size, flags, cache)]
      ensures old(tree.Balanced()) ==> tree.Balanced()
    {
      tree.Insert(addr, size, flags, cache);
      assert StartsAbove(old(tree.Content())[addr := Info(size, flags, cache)], heapBase);
    }

    method Reserve(size: int, alignment: int, flags: bv8, cache: CacheType) returns (r: Placement)
      requires Valid() && 0 < size && 0 < alignment && IsPow2(alignment)
      modifies tree, tree.nodes
      ensures r.Placed? <==> old(HasRoom(size, alignment))
      ensures r.OutOfSpace? ==> Valid() && tree.Content() == old(tree.Content())
      ensures r.Placed? ==> Valid() && r.addr % alignment == 0 && heapBase <= r.addr && r.addr + size <= tree.limit
      ensures r.Placed? ==> old(tree.Clear(r.addr, r.addr + size) && Preferred(size, alignment, r.addr))
      ensures r.Placed? ==> tree.Content() == old(tree.Content())[r.addr := Info(size, flags, cache)]
      ensures old(tree.Balanced()) ==> tree.Balanced()
    {
      r := FindRoom(size, alignment);
      if r.OutOfSpace? {
        return;
      }
      Place(r.addr, size, flags, cache);
    }

    // find_hole, with a test that the region fits below the limit
    method FindRoom(size: int, alignment: int) returns (r: Placement)
      requires Valid() && 0 < size && 0 < alignment && IsPow2(alignment)
      ensures r.Placed? <==> HasRoom(size, alignment)
      ensures r.Placed? ==> r.addr % alignment == 0 && heapBase <= r.addr && r.addr + size <= tree.limit
      ensures r.Placed? ==> tree.Clear(r.addr, r.addr + size) && Preferred(size, alignment, r.addr)
    {
      var addr := FindHole(size, alignment);
      if addr + size > tree.limit {
        return OutOfSpace;
      }
      return Placed(addr);
    }

    function AlignmentFor(size: int): int
    {
      if size >= PAGE_1G then PAGE_1G else if size >= PAGE_2M then PAGE_2M else PAGE_4K
    }

    // the larger page sizes are multiples of the smaller
    lemma SmallerAligned(addr: int, size: int)
      requires addr % AlignmentFor(size) == 0
      ensures addr % 0x1000 == 0
      ensures size >= 0x20_0000 ==> addr % 0x20_0000 == 0
      ensures size >= 0x4000_0000 ==> addr % 0x4000_0000 == 0
    {
      if size >= PAGE_1G {
        MultipleOf(addr, 0x4000_0000, 0x20_0000, 512);
        MultipleOf(addr, 0x20_0000, 0x1000, 512);
      } else if size >= PAGE_2M {
        MultipleOf(addr, 0x20_0000, 0x1000, 512);
      }
    }

    lemma MultipleOf(addr: int, big: int, small: int, m: int)
      requires 0 < small && big == small * m && 0 < m && addr % big == 0
      ensures addr % small == 0
    {
      var q := addr / big;
      assert addr == (q * m) * small by {
        assert addr == q * big && q * (small * m) == (q * m) * small;
      }
      DivUnique(addr, small, q * m, 0);
    }

    method Allocate(size: int, flags: bv8, cache: CacheType) returns (r: Placement)
      requires Valid() && 0 < size
      modifies tree, tree.nodes
      ensures Valid() && (old(tree.Balanced()) ==> tree.Balanced())
      ensures r.Placed? <==> old(HasRoom(size, AlignmentFor(size)))
      ensures r.Placed? ==> r.addr % AlignmentFor(size) == 0 && r.addr + size <= tree.limit && old(tree.Clear(r.addr, r.addr + size))
      ensures r.Placed? ==> old(Preferred(size, AlignmentFor(size), r.addr))
      ensures r.Placed? ==> r.addr % 0x1000 == 0 && (size >= 0x20_0000 ==> r.addr % 0x20_0000 == 0) && (size >= 0x4000_0000 ==> r.addr % 0x4000_0000 == 0)
      ensures tree.Content() == if r.Placed? then old(tree.Content())[r.addr := Info(size, flags, cache)] else old(tree.Content())
    {
      var align := PAGE_4K;
      if size >= PAGE_1G {
        align := PAGE_1G;
      } else if size >= PAGE_2M {
        align := PAGE_2M;
      }
      PageSizes();
      r := Reserve(size, align, flags, cache);
      if r.Placed? {
        SmallerAligned(r.addr, size);
      }
    }

    // ok is false when the tree's repair reads a null sibling
    method Free(ptr: int) returns (ok: bool)
      requires Valid()
      modifies tree, tree.nodes
      ensures ok <==> old(ptr == 0 || ptr !in tree.at || tree.DeleteSafe(tree.at[ptr]))
      ensures ok ==> Valid() && tree.Content() == if ptr == 0 then old(tree.Content()) else old(tree.Content()) - {ptr}
    {
      if ptr == 0 {
        return true;
      }
      var node := tree.FindNode(ptr);
      if node == null {
        return true;
      }
      ok := tree.Delete(node);
    }
  }
}
