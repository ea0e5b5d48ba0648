/**
 Frees alone bring any well-filled address space to a deletion whose repair reads a null sibling.
 Sixteen regions in a balanced tree force three black nodes on a path; freeing what is not on the
 path, then the red nodes on it, leaves a chain of black nodes; freeing the second of them faults.
 */
module UserFault {
  import opened BitMath
  import opened Common
  import opened RegionTree
  import opened UserSpace

  // ---------- many regions make a tall tree ----------

  // the most nodes that a black node of this black height can have below and including it
  function Full(h: int): int
    requires 0 <= h
  {
    if h == 0 then 0 else 4 * Full(h - 1) + 3
  }

  ghost function Keys(t: Tree, lo: int, hi: int): set<int>
    reads t`at
  {
    set k | k in t.at && lo < k < hi
  }

  lemma KeysParted(t: Tree, n: Region)
    requires t.Links() && t.Threads() && n in t.nodes
    ensures t.Linked(n) && |Keys(t, n.lo, n.hi)| == |Keys(t, n.lo, n.start)| + 1 + |Keys(t, n.start, n.hi)|
    ensures n.left == null ==> Keys(t, n.lo, n.start) == {}
    ensures n.right == null ==> Keys(t, n.start, n.hi) == {}
  {
    assert t.Linked(n) && t.Threaded(n);
    var low, high := Keys(t, n.lo, n.start), Keys(t, n.start, n.hi);
    assert Keys(t, n.lo, n.hi) == low + {n.start} + high;
    forall k | k in Keys(t, n.lo, n.hi) ensures (k < n.start ==> n.left != null) && (n.start < k ==> n.right != null) {
      t.Locate(n, t.at[k]);
    }
  }

  ghost function Most(h: int, red: bool): int
    requires 0 <= h
  {
    if red then 2 * Full(h) + 1 else Full(h)
  }

  // the number of black nodes on every path down from n
  ghost function Tall(t: Tree, n: Region?): int
    requires -1 in t.ground
    reads t`ground, n
  {
    if n == null then 0 else n.bh - t.ground[-1]
  }

  lemma TallStep(t: Tree, n: Region)
    requires t.Links() && t.Threads() && t.Places() && t.Balanced() && n in t.nodes
    ensures Tall(t, n.left) == Tall(t, n.right) && Tall(t, n) == Tall(t, n.left) + if n.isRed then 0 else 1
  {
    assert t.Linked(n) && t.Threaded(n) && t.BlackOk(n);
  }

  // at most Most regions fit under a node of a balanced tree
  lemma {:induction false} Crowd(t: Tree, n: Region)
    requires t.Links() && t.Threads() && t.Places() && t.Reds() && t.Balanced() && n in t.nodes
    ensures 0 <= Tall(t, n) && |Keys(t, n.lo, n.hi)| <= Most(Tall(t, n), n.isRed)
    decreases n.hi - n.lo
  {
    assert t.Linked(n) && t.RedBut(n, null);
    TallStep(t, n);
    KeysParted(t, n);
    var below := Tall(t, n.left);
    if n.left != null {
      assert t.Linked(n.left);
      Crowd(t, n.left);
    }
    if n.right != null {
      assert t.Linked(n.right);
      Crowd(t, n.right);
    }
    var each := if n.isRed then Full(below) else 2 * Full(below) + 1;
    assert |Keys(t, n.lo, n.start)| <= each && |Keys(t, n.start, n.hi)| <= each;
  }

  lemma TallEnough(t: Tree)
    requires t.Sound() && t.Balanced() && |t.at| >= 16
    ensures t.root != null && t.root in t.nodes && -1 in t.ground && Tall(t, t.root) >= 3
  {
    forall k | k in t.at ensures t.root != null && t.root.lo < k < t.root.hi {
      t.RootCovers(t.at[k]);
    }
    assert |t.at.Keys| == |t.at|;
    var some :| some in t.at.Keys;
    t.RootCovers(t.at[some]);
    var r := t.root;
    assert Keys(t, r.lo, r.hi) == t.at.Keys;
    Crowd(t, r);
    assert Full(0) == 0 && Full(1) == 3 && Full(2) == 15;
  }

  // ---------- a path down the tree ----------

  // bs are at least three black nodes on the path
  ghost predicate ThreeBlack(path: seq<Region>, bs: set<Region>)
    reads bs
  {
    |bs| >= 3 && forall b {:trigger b in bs} :: b in bs ==> b in path && !b.isRed
  }

  // the leftmost path of a tall tree
  method Descend(t: Tree) returns (path: seq<Region>, ghost bs: set<Region>)
    requires t.Sound() && t.Balanced() && t.root != null && t.root in t.nodes && -1 in t.ground && Tall(t, t.root) >= 3
    ensures t.IsPath(path) && ThreeBlack(path, bs)
  {
    path := [];
    bs := {};
    var curr := t.root;
    assert t.Linked(curr);
    while curr != null
      invariant Descended(t, curr, path, bs)
      decreases if curr == null then 0 else curr.hi - curr.lo
    {
      assert t.Linked(curr);
      if curr.left != null { assert t.Linked(curr.left); }
      DescendedOn(t, curr, path, bs);
      path := path + [curr];
      if !curr.isRed {
        bs := bs + {curr};
      }
      curr := curr.left;
    }
  }

  // path leads from the root to the place of curr, and bs are its black nodes
  ghost predicate Descended(t: Tree, curr: Region?, path: seq<Region>, bs: set<Region>)
    requires t.root != null
    reads t, t.nodes
  {
    && curr in t.nodes + {null} && t.IsPath(path) && t.root in t.nodes && -1 in t.ground
    && (curr != null ==> curr.parent == if path == [] then null else path[|path| - 1])
    && |bs| + Tall(t, curr) == Tall(t, t.root) && (forall b {:trigger b in bs} :: b in bs ==> b in path && !b.isRed)
    && (curr != null ==> forall b {:trigger b in bs} :: b in bs ==> curr.hi - curr.lo < b.hi - b.lo)
  }

  lemma DescendedOn(t: Tree, curr: Region, path: seq<Region>, bs: set<Region>)
    requires t.Sound() && t.Balanced() && t.root != null && curr in t.nodes && Descended(t, curr, path, bs)
    ensures Descended(t, curr.left, path + [curr], if curr.isRed then bs else bs + {curr})
  {
    assert t.Linked(curr);
    TallStep(t, curr);
    if curr.left != null { assert t.Linked(curr.left); }
    var longer := path + [curr];
    assert forall i {:trigger Above(longer, i)} :: 0 <= i < |path| ==> Above(longer, i) == Above(path, i);
  }

  lemma {:induction false} PathNarrows(t: Tree, path: seq<Region>, i: nat, j: nat)
    requires t.Links() && t.IsPath(path) && i < j < |path|
    ensures path[j].hi - path[j].lo < path[i].hi - path[i].lo
    decreases j
  {
    assert path[j].parent == Above(path, j);
    assert t.Linked(path[j]) && t.Linked(path[j - 1]);
    if i < j - 1 {
      PathNarrows(t, path, i, j - 1);
    }
  }

  lemma PathDistinct(t: Tree, path: seq<Region>)
    requires t.Links() && t.IsPath(path)
    ensures Distinct(path)
  {
    forall i, j | 0 <= i < j < |path| ensures path[i] != path[j] {
      PathNarrows(t, path, i, j);
    }
  }

  // a child of a node off the path is off the path
  lemma OffBelow(t: Tree, path: seq<Region>, n: Region, c: Region)
    requires t.Links() && t.IsPath(path) && n in t.nodes && n !in path && c in t.nodes && c.parent == n
    ensures c !in path
  {
    forall j | 0 <= j < |path| ensures path[j] != c {
      assert path[j].parent == Above(path, j);
    }
  }

  method Leaf(t: Tree, path: seq<Region>, n: Region) returns (z: Region)
    requires t.Links() && t.IsPath(path) && n in t.nodes && n !in path
    ensures z in t.nodes && z !in path && z.left == null && z.right == null
  {
    z := n;
    while z.left != null || z.right != null
      invariant z in t.nodes && z !in path
      decreases z.hi - z.lo
    {
      assert t.Linked(z);
      var c := if z.left != null then z.left else z.right;
      OffBelow(t, path, z, c);
      z := c;
      assert t.Linked(z);
    }
  }

  ghost predicate ChildrenOn(n: Region, path: seq<Region>)
    reads n
  {
    (n.left != null ==> n.left in path) && (n.right != null ==> n.right in path)
  }

  // a path whose nodes have all their children on it is the whole tree
  lemma {:induction false} AllOn(t: Tree, path: seq<Region>, n: Region)
    requires t.Links() && t.IsPath(path) && n in t.nodes && t.root in path
    requires forall i {:trigger path[i]} :: 0 <= i < |path| ==> ChildrenOn(path[i], path)
    ensures n in path
    decreases t.limit + 1 - (n.hi - n.lo)
  {
    assert t.Linked(n);
    if n != t.root {
      assert t.Linked(n.parent);
      AllOn(t, path, n.parent);
      var i :| 0 <= i < |path| && path[i] == n.parent;
      assert ChildrenOn(path[i], path);
    }
  }

  // a leaf off the path, or null if the path is the whole tree
  method OffPath(t: Tree, path: seq<Region>) returns (z: Region?)
    requires t.Links() && t.IsPath(path) && 0 < |path|
    ensures z != null ==> z in t.nodes && z !in path && z.left == null && z.right == null
    ensures z == null ==> forall n {:trigger n in t.nodes} :: n in t.nodes ==> n in path
  {
    var i := 0;
    while i < |path|
      invariant 0 <= i <= |path| && forall j {:trigger path[j]} :: 0 <= j < i ==> ChildrenOn(path[j], path)
    {
      var n := path[i];
      assert t.Linked(n);
      if n.left != null && n.left !in path {
        z := Leaf(t, path, n.left);
        return;
      }
      if n.right != null && n.right !in path {
        z := Leaf(t, path, n.right);
        return;
      }
      i := i + 1;
    }
    z := null;
    assert t.Linked(path[0]) && path[0].parent == Above(path, 0);
    forall n | n in t.nodes ensures n in path {
      AllOn(t, path, n);
    }
  }

  lemma NextOnPath(t: Tree, path: seq<Region>, i: nat, c: Region)
    requires t.Links() && t.IsPath(path) && i < |path| && c in path && c.parent == path[i]
    ensures i + 1 < |path| && c == path[i + 1]
  {
    var j :| 0 <= j < |path| && path[j] == c;
    assert path[j].parent == Above(path, j);
    if j - 1 < i {
      PathNarrows(t, path, j - 1, i);
    } else if i < j - 1 {
      PathNarrows(t, path, i, j - 1);
    }
  }

  // on a path that is the whole tree the only child of path[i] is path[i + 1]
  lemma OnlyNext(t: Tree, path: seq<Region>, i: nat)
    requires t.Links() && t.IsPath(path) && i < |path| && forall n {:trigger n in t.nodes} :: n in t.nodes ==> n in path
    ensures path[i] in t.nodes && t.Linked(path[i]) && (path[i].left == null || path[i].right == null)
    ensures path[i].left != null ==> i + 1 < |path| && path[i].left == path[i + 1]
    ensures path[i].right != null ==> i + 1 < |path| && path[i].right == path[i + 1]
  {
    var n := path[i];
    assert t.Linked(n);
    if n.left != null {
      NextOnPath(t, path, i, n.left);
      assert t.Linked(n.left);
    }
    if n.right != null {
      NextOnPath(t, path, i, n.right);
      assert t.Linked(n.right);
    }
  }

  // a chain of black nodes: deleting the second one reads the sibling it does not have
  lemma ChainUnsafe(t: Tree, path: seq<Region>)
    requires t.Links() && t.Threads() && t.Reds() && t.IsPath(path) && |path| >= 3
    requires forall n {:trigger n in t.nodes} :: n in t.nodes ==> n in path
    requires forall i {:trigger path[i]} :: 0 <= i < |path| ==> !path[i].isRed
    ensures path[1] in t.nodes && !t.DeleteSafe(path[1])
  {
    OnlyNext(t, path, 0);
    OnlyNext(t, path, 1);
    var a, c := path[1], path[2];
    assert t.Linked(a) && t.Linked(c) && c.parent == Above(path, 2) && a.parent == Above(path, 1);
    PathNarrows(t, path, 0, 1);
    assert t.Victim(a) == a && t.Sibling(a) == null;
  }

  // ---------- the run ----------

  // the calls lead from an empty space to this one
  ghost predicate Tracks(space: UserAddressSpace, states: seq<Space>, calls: seq<Call>)
    reads space, space.tree, space.tree.nodes
  {
    space.Valid() && IsRun(states, calls) && states[0] == map[] && states[|calls|] == space.Live()
  }

  lemma RunOn(states: seq<Space>, calls: seq<Call>, call: Call, c: Space)
    requires IsRun(states, calls) && Step(states[|calls|], call.op, call.out, c)
    ensures IsRun(states + [c], calls + [call])
  {
    var states', calls' := states + [c], calls + [call];
    forall i | 0 <= i < |calls'| ensures Step(states'[i], calls'[i].op, calls'[i].out, states'[i + 1]) {
      if i < |calls| { assert calls'[i] == calls[i]; }
    }
  }

  // calls' goes on from calls with frees alone
  ghost predicate MoreFrees(calls: seq<Call>, calls': seq<Call>)
  {
    calls <= calls' && forall i {:trigger calls'[i]} :: |calls| <= i < |calls'| ==> calls'[i].op.Free?
  }

  lemma MoreFreesOn(a: seq<Call>, b: seq<Call>, c: seq<Call>)
    requires MoreFrees(a, b) && MoreFrees(b, c)
    ensures MoreFrees(a, c)
  {
    forall i | |a| <= i < |c| ensures c[i].op.Free? {
      if i < |b| { assert b[i] == c[i]; }
    }
  }

  // free a region whose node is spliced out without repair
  method FreePlain(space: UserAddressSpace, z: Region, ghost states: seq<Space>, ghost calls: seq<Call>)
    returns (ghost states': seq<Space>, ghost calls': seq<Call>)
    requires Tracks(space, states, calls) && z in space.tree.nodes && space.tree.Plain(z)
    modifies space.tree, space.tree.nodes
    ensures Tracks(space, states', calls') && space.tree.Cut(z) && MoreFrees(calls, calls')
  {
    assert space.tree.Threaded(z);
    var ptr := z.start;
    var out := space.FreeAt(ptr);
    RunOn(states, calls, Call(Free(ptr), out), space.Live());
    states', calls' := states + [space.Live()], calls + [Call(Free(ptr), out)];
  }

  // the first red node of the path, or its length
  method FirstRed(path: seq<Region>) returns (i: nat)
    ensures i <= |path| && (i < |path| ==> path[i].isRed) && forall j {:trigger path[j]} :: 0 <= j < i ==> !path[j].isRed
  {
    i := 0;
    while i < |path| && !path[i].isRed
      invariant i <= |path| && forall j {:trigger path[j]} :: 0 <= j < i ==> !path[j].isRed
    {
      i := i + 1;
    }
  }

  ghost function Members(path: seq<Region>): set<Region>
  {
    set n | n in path
  }

  lemma {:induction false} ElemsBound(path: seq<Region>)
    ensures |Members(path)| <= |path|
  {
    if path == [] {
      assert Members(path) == {};
    } else {
      var n := |path| - 1;
      ElemsBound(path[..n]);
      assert Members(path) == Members(path[..n]) + {path[n]};
    }
  }

  lemma LongPath(path: seq<Region>, bs: set<Region>)
    requires ThreeBlack(path, bs)
    ensures |path| >= 3
  {
    ElemsBound(path);
    assert bs <= Members(path);
    Subset(bs, Members(path));
  }

  lemma Subset(a: set<Region>, b: set<Region>)
    requires a <= b
    ensures |a| <= |b|
  {
    assert b == a + (b - a);
  }

  // one free towards the chain: a leaf off the path, or else a red node of the path
  method Strip(space: UserAddressSpace, path: seq<Region>, ghost bs: set<Region>, ghost states: seq<Space>, ghost calls: seq<Call>)
    returns (done: bool, path': seq<Region>, ghost states': seq<Space>, ghost calls': seq<Call>)
    requires Tracks(space, states, calls) && space.tree.IsPath(path) && ThreeBlack(path, bs)
    modifies space.tree, space.tree.nodes
    ensures Tracks(space, states', calls') && space.tree.IsPath(path') && ThreeBlack(path', bs) && MoreFrees(calls, calls')
    ensures if done then path' == path && WholeBlack(space.tree, path') else space.tree.nodes < old(space.tree.nodes)
  {
    LongPath(path, bs);
    done, path', states', calls' := false, path, states, calls;
    var t := space.tree;
    PathDistinct(t, path);
    var z := OffPath(t, path);
    if z != null {
      states', calls' := FreePlain(space, z, states, calls);
      t.CutOff(z, path);
      return;
    }
    var i := FirstRed(path);
    if i == |path| {
      done := true;
      return;
    }
    OnlyNext(t, path, i);
    states', calls' := FreePlain(space, path[i], states, calls);
    t.CutOn(path, i);
    path' := path[..i] + path[i + 1..];
  }

  // the path is the whole tree and all of it is black
  ghost predicate WholeBlack(t: Tree, path: seq<Region>)
    reads t, path
  {
    && (forall n {:trigger n in t.nodes} :: n in t.nodes ==> n in path)
    && (forall i {:trigger path[i]} :: 0 <= i < |path| ==> !path[i].isRed)
  }

  // freeing last is a call that faults
  ghost predicate Doomed(space: UserAddressSpace, last: int)
    requires space.Valid()
    reads space, space.tree, space.tree.nodes
  {
    last in space.Live() && !space.tree.DeleteSafe(space.tree.at[last])
  }

  // free regions until the path is all that is left, and black
  method StripAll(space: UserAddressSpace, path0: seq<Region>, ghost bs: set<Region>, ghost states0: seq<Space>, ghost calls0: seq<Call>)
    returns (path: seq<Region>, ghost states: seq<Space>, ghost calls: seq<Call>)
    requires Tracks(space, states0, calls0) && space.tree.IsPath(path0) && ThreeBlack(path0, bs)
    modifies space.tree, space.tree.nodes
    ensures Tracks(space, states, calls) && space.tree.IsPath(path) && ThreeBlack(path, bs) && WholeBlack(space.tree, path)
    ensures MoreFrees(calls0, calls) && space.tree.nodes <= old(space.tree.nodes)
  {
    var t := space.tree;
    path, states, calls := path0, states0, calls0;
    var done := false;
    while !done
      invariant Tracks(space, states, calls) && t.IsPath(path) && ThreeBlack(path, bs) && t.nodes <= old(t.nodes)
      invariant MoreFrees(calls0, calls) && (done ==> WholeBlack(t, path))
      decreases t.nodes, !done
    {
      ghost var before := calls;
      done, path, states, calls := Strip(space, path, bs, states, calls);
      MoreFreesOn(calls0, before, calls);
    }
  }

  // from every balanced tree of sixteen regions some frees lead to a tree in which a free faults
  method Wreck(space: UserAddressSpace, ghost states0: seq<Space>, ghost calls0: seq<Call>)
    returns (ghost states: seq<Space>, ghost calls: seq<Call>, last: int)
    requires Tracks(space, states0, calls0) && space.tree.Balanced() && |space.Live()| >= 16
    modifies space.tree, space.tree.nodes
    ensures Tracks(space, states, calls) && MoreFrees(calls0, calls) && Doomed(space, last)
    ensures space.tree.nodes <= old(space.tree.nodes)
  {
    var t := space.tree;
    assert t.Content().Keys == t.at.Keys;
    TallEnough(t);
    var path;
    ghost var bs;
    path, bs := Descend(t);
    path, states, calls := StripAll(space, path, bs, states0, calls0);
    LongPath(path, bs);
    ChainUnsafe(t, path);
    var a := path[1];
    assert t.Threaded(a);
    last := a.start;
  }

  ghost predicate EndsBy(c: Space, e: int)
  {
    forall s {:trigger c[s]} :: s in c ==> s + c[s].size <= e
  }

  ghost predicate OnPage(a: int)
  {
    a % 0x1000 == 0
  }

  lemma PageAdded(c: Space, a: int, info: Info)
    requires EndsBy(c, a) && WithinUser(c) && info.size == PAGE_4K
    ensures EndsBy(c[a := info], a + PAGE_4K) && |c[a := info]| == |c| + 1
  {
    assert a !in c;
    var c' := c[a := info];
    assert c'.Keys == c.Keys + {a};
    assert |c'| == |c'.Keys| && |c| == |c.Keys|;
  }

  lemma PageExact(c: Space, a: int)
    requires EndsBy(c, a) && USER_START <= a <= USER_END - PAGE_4K && OnPage(a)
    ensures NoWrap(PAGE_4K, Size4K) && a < TWO64 - USER_END && FreeRange(c, a, a + PAGE_4K)
    ensures AlignDown(a, AlignmentOf(Size4K)) == a && AlignUp(PAGE_4K, AlignmentOf(Size4K)) == PAGE_4K
  {
    assert NoWrap(PAGE_4K, Size4K) && a < TWO64 - USER_END && FreeRange(c, a, a + PAGE_4K);
    AlignedFixed(a, PAGE_4K);
    AlignedFixed(PAGE_4K, PAGE_4K);
  }

  // the page at a passes every test of the call
  lemma PageFree(c: Space, a: int)
    requires EndsBy(c, a) && USER_START <= a <= USER_END - PAGE_4K && OnPage(a)
    ensures var al := AlignmentOf(Size4K); var a', sz := AlignDown(a, al), AlignUp(PAGE_4K, al); FreeRange(c, a', a' + sz)
  {
    PageExact(c, a);
  }

  lemma PageFits(c: Space, a: int)
    requires EndsBy(c, a) && USER_START <= a <= USER_END - PAGE_4K && OnPage(a)
    ensures NoWrap(PAGE_4K, Size4K) && a < TWO64 - USER_END
    ensures var al := AlignmentOf(Size4K); var a', sz := AlignDown(a, al), AlignUp(PAGE_4K, al); USER_START <= a' && a' + sz <= USER_END
  {
    PageExact(c, a);
  }

  // the i-th page of user space
  function Addr(i: nat): int
  {
    0x1000 * (i + 1)
  }

  lemma AddrOk(i: nat)
    requires i < 16
    ensures Addr(0) == USER_START <= Addr(i) <= USER_END - PAGE_4K && OnPage(Addr(i)) && Addr(i + 1) == Addr(i) + PAGE_4K
  {
  }

  // asking for the page at a in a space that ends before it
  ghost function PageAt(a: int, flags: bv8): Op
  {
    AllocateSpecific(a, PAGE_4K, flags, Size4K, true)
  }

  lemma PageMapped(c: Space, a: int, flags: bv8, out: Outcome, c': Space)
    requires EndsBy(c, a) && WithinUser(c) && 0 <= a && OnPage(a) && out.Mapped? && Step(c, PageAt(a, flags), out, c')
    ensures EndsBy(c', a + PAGE_4K) && |c'| == |c| + 1
  {
    AlignedFixed(a, PAGE_4K);
    AlignedFixed(PAGE_4K, PAGE_4K);
    PageAdded(c, a, Info(PAGE_4K, flags | USER, WriteBack));
  }

  // map the page at a, behind all others
  method AllocatePage(space: UserAddressSpace, a: int, flags: bv8) returns (out: Outcome)
    requires USER_START <= a <= USER_END - PAGE_4K && OnPage(a)
    requires space.Valid() && space.tree.Balanced() && EndsBy(space.Live(), a)
    modifies space.tree, space.tree.nodes
    ensures space.Valid() && space.tree.Balanced() && fresh(space.tree.nodes - old(space.tree.nodes))
    ensures out.Mapped? && Step(old(space.Live()), PageAt(a, flags), out, space.Live())
  {
    PageFree(space.Live(), a);
    PageFits(space.Live(), a);
    out := space.AllocateAt(a, PAGE_4K, flags, Size4K, true);
  }

  method MapPage(space: UserAddressSpace, a: int, flags: bv8, ghost states: seq<Space>, ghost calls: seq<Call>)
    returns (ghost states': seq<Space>, ghost calls': seq<Call>)
    requires USER_START <= a <= USER_END - PAGE_4K && OnPage(a)
    requires Tracks(space, states, calls) && space.tree.Balanced() && EndsBy(space.Live(), a)
    modifies space.tree, space.tree.nodes
    ensures Tracks(space, states', calls') && space.tree.Balanced() && fresh(space.tree.nodes - old(space.tree.nodes))
    ensures EndsBy(space.Live(), a + PAGE_4K) && |space.Live()| == old(|space.Live()|) + 1
  {
    ghost var before := space.Live();
    space.LiveSound();
    var out := AllocatePage(space, a, flags);
    ghost var after := space.Live();
    PageMapped(before, a, flags, out, after);
    ghost var call := Call(PageAt(a, flags), out);
    RunOn(states, calls, call, after);
    states', calls' := states + [after], calls + [call];
  }

  // sixteen pages in a row
  method MapSixteen(space: UserAddressSpace, flags: bv8) returns (ghost states: seq<Space>, ghost calls: seq<Call>)
    requires space.Valid() && space.Live() == map[] && space.tree.Balanced()
    modifies space.tree, space.tree.nodes
    ensures Tracks(space, states, calls) && space.tree.Balanced() && |space.Live()| == 16
    ensures fresh(space.tree.nodes - old(space.tree.nodes))
  {
    states, calls := [map[]], [];
    var i: nat := 0;
    while i < 16
      invariant i <= 16 && Tracks(space, states, calls) && space.tree.Balanced()
      invariant EndsBy(space.Live(), Addr(i)) && |space.Live()| == i && fresh(space.tree.nodes - old(space.tree.nodes))
    {
      AddrOk(i);
      states, calls := MapPage(space, Addr(i), flags, states, calls);
      i := i + 1;
    }
  }

  // page-aligned allocations and frees from the empty address space on, and a live region whose free faults
  method ReachDoomed() returns (space: UserAddressSpace, ghost states: seq<Space>, ghost calls: seq<Call>, last: int)
    ensures fresh(space) && fresh(space.tree) && fresh(space.tree.nodes)
    ensures Tracks(space, states, calls) && Doomed(space, last)
  {
    space := new UserAddressSpace();
    states, calls := MapSixteen(space, 1);
    states, calls, last := Wreck(space, states, calls);
  }

  // that free
  method ReachFault() returns (last: int, out: Outcome)
    ensures out == Fault
  {
    var space;
    ghost var states, calls;
    space, states, calls, last := ReachDoomed();
    out := space.FreeAt(last);
  }
}
