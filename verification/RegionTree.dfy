/**
 The red-black tree of address regions shared by the kernel and the user address-space allocators.

 Every invariant is stated node by node.  A node's ghost interval `(lo, hi)` is the open range of
 start addresses that its subtree answers for, and `prevKey`/`nextKey` are the start addresses of its
 neighbours in address order (-1 and `limit` at the two ends).  With those two pairs, order, parent
 links, gaps and subtree maxima all become facts about a node and the nodes it points to.
 */
module RegionTree {
  import opened BitMath
  import opened Common

  datatype Info = Info(size: int, flags: bv8, cache: CacheType)

  function Max(a: int, b: int): int { if a > b then a else b }

  class Region {
    var start: int
    var size: int
    var gap: int
    var maxGap: int
    var flags: bv8
    var cache: CacheType
    var parent: Region?
    var left: Region?
    var right: Region?
    var isRed: bool
    ghost var lo: int
    ghost var hi: int
    ghost var prevKey: int
    ghost var nextKey: int
    ghost var bh: int

    constructor (start: int, size: int, flags: bv8, cache: CacheType)
      ensures this.start == start && this.size == size && this.flags == flags && this.cache == cache
      ensures isRed && left == null && right == null && parent == null
    {
      this.start, this.size, this.flags, this.cache := start, size, flags, cache;
      isRed := true;
      left, right, parent := null, null, null;
    }

    function End(): int
      reads this`start, this`size
    {
      start + size
    }
  }

  ghost predicate Distinct(path: seq<Region>)
  {
    forall i, j {:trigger path[i], path[j]} :: 0 <= i < j < |path| ==> path[i] != path[j]
  }

  // the node that a path meets before its i-th, if any
  ghost function Above(path: seq<Region>, i: int): Region?
    requires 0 <= i < |path|
  {
    if i == 0 then null else path[i - 1]
  }

  ghost function GroundAt(ground: map<int, int>, k: int): int
  {
    if k in ground then ground[k] else 0
  }

  // all places count for the same
  ghost predicate Level(ground: map<int, int>)
  {
    -1 in ground && forall k {:trigger ground[k]} :: k in ground ==> ground[k] == ground[-1]
  }

  class Tree {
    const limit: int
    var root: Region?
    var cursor: Region?
    ghost var nodes: set<Region>
    ghost var at: map<int, Region>
    // what the empty places below the nodes count for, by the start of the region before them, -1 for the first
    ghost var ground: map<int, int>

    constructor (limit: int)
      requires 0 <= limit
      ensures this.limit == limit && Valid() && Balanced() && nodes == {} && Content() == map[]
    {
      this.limit := limit;
      root, cursor := null, null;
      nodes, at, ground := {}, map[], map[-1 := 0];
    }

    // ---------- links ----------

    ghost predicate RootOk()
      reads this`root, this`nodes, this`at, nodes`start, nodes`left, nodes`right, nodes`parent,
            nodes`lo, nodes`hi, nodes`prevKey, nodes`nextKey
    {
      && (root == null ==> nodes == {})
      && (root != null ==> root in nodes && root.parent == null && root.lo == -1 && root.hi == limit)
    }

    ghost predicate LeftOk(n: Region)
      requires n in nodes
      reads this`root, this`nodes, this`at, nodes`start, nodes`left, nodes`right, nodes`parent,
            nodes`lo, nodes`hi, nodes`prevKey, nodes`nextKey
    {
      && (n.left != null ==> n.left in nodes && n.left.parent == n && n.left.lo == n.lo && n.left.hi == n.start)
      && (n.left == null ==> n.lo == n.prevKey)
    }

    ghost predicate RightOk(n: Region)
      requires n in nodes
      reads this`root, this`nodes, this`at, nodes`start, nodes`left, nodes`right, nodes`parent,
            nodes`lo, nodes`hi, nodes`prevKey, nodes`nextKey
    {
      && (n.right != null ==> n.right in nodes && n.right.parent == n && n.right.lo == n.start && n.right.hi == n.hi)
      && (n.right == null ==> n.hi == n.nextKey)
    }

    ghost predicate ParentOk(n: Region)
      requires n in nodes
      reads this`root, this`nodes, this`at, nodes`start, nodes`left, nodes`right, nodes`parent,
            nodes`lo, nodes`hi, nodes`prevKey, nodes`nextKey
    {
      && (n.parent == null ==> n == root)
      && (n.parent != null ==> n.parent in nodes && (n.parent.left == n || n.parent.right == n))
    }

    ghost predicate Linked(n: Region)
      requires n in nodes
      reads this`root, this`nodes, this`at, nodes`start, nodes`left, nodes`right, nodes`parent,
            nodes`lo, nodes`hi, nodes`prevKey, nodes`nextKey
    {
      -1 <= n.lo < n.start < n.hi <= limit && LeftOk(n) && RightOk(n) && ParentOk(n)
    }

    ghost predicate Links()
      reads this`root, this`nodes, this`at, nodes`start, nodes`left, nodes`right, nodes`parent,
            nodes`lo, nodes`hi, nodes`prevKey, nodes`nextKey
    {
      RootOk() && forall n {:trigger Linked(n)} :: n in nodes ==> Linked(n)
    }

    // ---------- address order ----------

    ghost predicate Threaded(n: Region)
      requires n in nodes
      reads this`root, this`nodes, this`at, nodes`start, nodes`left, nodes`right, nodes`parent,
            nodes`lo, nodes`hi, nodes`prevKey, nodes`nextKey
    {
      && -1 <= n.prevKey < n.start < n.nextKey <= limit
      && n.start in at && at[n.start] == n
      && (n.prevKey != -1 ==> n.prevKey in at && at[n.prevKey] in nodes && at[n.prevKey].nextKey == n.start)
      && (n.nextKey != limit ==> n.nextKey in at && at[n.nextKey] in nodes && at[n.nextKey].prevKey == n.start
                                 && (n.right == null <==> at[n.nextKey].left != null))
    }

    // no region starts strictly between a node and its neighbours
    ghost predicate Adjacent(n: Region)
      requires n in nodes
      reads this`root, this`nodes, this`at, nodes`start, nodes`left, nodes`right, nodes`parent,
            nodes`lo, nodes`hi, nodes`prevKey, nodes`nextKey
    {
      forall s {:trigger s in at} :: s in at ==> s <= n.prevKey || s == n.start || n.nextKey <= s
    }

    ghost predicate Threads()
      reads this`root, this`nodes, this`at, nodes`start, nodes`left, nodes`right, nodes`parent,
            nodes`lo, nodes`hi, nodes`prevKey, nodes`nextKey
    {
      && (forall n {:trigger Threaded(n)} :: n in nodes ==> Threaded(n))
      && (forall n {:trigger Adjacent(n)} :: n in nodes ==> Adjacent(n))
      && (forall s {:trigger at[s]} :: s in at ==> at[s] in nodes && at[s].start == s)
    }

    // ---------- gaps ----------

    ghost predicate GapOk(n: Region)
      requires n in nodes
      reads this`nodes, nodes`start, nodes`size, nodes`gap, nodes`nextKey
    {
      0 < n.size && 0 <= n.gap && n.gap == n.nextKey - n.End()
    }

    ghost predicate Gaps()
      reads this`nodes, nodes`start, nodes`size, nodes`gap, nodes`nextKey
    {
      forall n {:trigger GapOk(n)} :: n in nodes ==> GapOk(n)
    }

    ghost function MaxOf(n: Region?): int
      requires n != null ==> n in nodes
      reads this`nodes, nodes`maxGap
    {
      if n == null then 0 else n.maxGap
    }

    ghost predicate MaxOk(n: Region)
      requires n in nodes
      reads this`nodes, nodes`left, nodes`right, nodes`gap, nodes`maxGap
    {
      && (n.left != null ==> n.left in nodes) && (n.right != null ==> n.right in nodes)
      && n.maxGap == Max(n.gap, Max(MaxOf(n.left), MaxOf(n.right)))
    }

    ghost predicate Maxes()
      reads this`nodes, nodes`left, nodes`right, nodes`gap, nodes`maxGap
    {
      forall n {:trigger MaxOk(n)} :: n in nodes ==> MaxOk(n)
    }

    // ---------- update_node_metadata ----------

    method UpdateNodeMetadata(x: Region)
      requires x in nodes && Linked(x)
      modifies x`maxGap
      ensures MaxOk(x)
    {
      var leftMax := if x.left != null then x.left.maxGap else 0;
      var rightMax := if x.right != null then x.right.maxGap else 0;
      var curr := leftMax;
      if rightMax > curr {
        curr := rightMax;
      }
      if x.gap > curr {
        curr := x.gap;
      }
      assert x.left != x && x.right != x;
      x.maxGap := curr;
    }

    // x has just become a child of y
    method UpdatePair(x: Region, y: Region)
      requires Links() && x in nodes && y in nodes && x.parent == y
      modifies x`maxGap, y`maxGap
      ensures MaxOk(x) && MaxOk(y)
    {
      assert Linked(x) && Linked(y);
      UpdateNodeMetadata(x);
      UpdateNodeMetadata(y);
    }

    // ---------- rotations ----------

    // the arguments of a two-state fact were all nodes before the change
    twostate predicate InOld(new some: set<Region>, new all: set<Region?>)
    {
      some <= old(nodes) && all <= old(nodes) + {null}
    }

    // n answers for the address of k, so k is n or lies below it
    ghost predicate Covers(n: Region, k: Region?)
      requires n in nodes && (k != null ==> k in nodes)
      reads this`nodes, nodes`lo, nodes`hi, nodes`start
    {
      k != null && n.lo < k.start < n.hi
    }

    // every subtree maximum is exact, except perhaps on the paths from u and from v to the root
    ghost predicate Stale(u: Region?, v: Region?)
      requires (u != null ==> u in nodes) && (v != null ==> v in nodes)
      reads this`nodes, nodes`lo, nodes`hi, nodes`start, nodes`left, nodes`right, nodes`gap, nodes`maxGap
    {
      forall n {:trigger MaxOk(n)} :: n in nodes ==> MaxOk(n) || Covers(n, u) || Covers(n, v)
    }

    twostate predicate RotatedLeft(x: Region, y: Region, p: Region?, b: Region?)
      reads this`root, this`nodes, this`at, nodes`start, nodes`left, nodes`right, nodes`parent,
            nodes`lo, nodes`hi, nodes`prevKey, nodes`nextKey, this`ground
    {
      && nodes == old(nodes) && at == old(at) && ground == old(ground)
      && root == (if p == null then y else old(root))
      && (forall n {:trigger n.left} :: n in nodes ==>
           n.left == (if n == y then x else if n == p && old(n.left) == x then y else old(n.left)))
      && (forall n {:trigger n.right} :: n in nodes ==>
           n.right == (if n == x then b else if n == p && old(n.left) != x then y else old(n.right)))
      && (forall n {:trigger n.parent} :: n in nodes ==>
           n.parent == (if n == x then y else if n == y then p else if n == b then x else old(n.parent)))
      && (forall n {:trigger n.lo} :: n in nodes ==> n.lo == (if n == y then old(x.lo) else old(n.lo)))
      && (forall n {:trigger n.hi} :: n in nodes ==> n.hi == (if n == x then old(y.start) else old(n.hi)))
      && (forall n {:trigger n.start} :: n in nodes ==> n.start == old(n.start))
      && (forall n {:trigger n.prevKey} {:trigger n.nextKey} :: n in nodes ==>
           n.prevKey == old(n.prevKey) && n.nextKey == old(n.nextKey))
    }

    ghost predicate RotLReady(x: Region, y: Region, p: Region?, b: Region?)
      reads this`root, this`nodes, this`at, nodes`start, nodes`left, nodes`right, nodes`parent,
            nodes`lo, nodes`hi, nodes`prevKey, nodes`nextKey
    {
      && Links() && Threads() && x in nodes && y in nodes
      && y == x.right && p == x.parent && b == y.left
    }

    twostate lemma RotLLinked(new x: Region, new y: Region, new p: Region?, new b: Region?, new n: Region)
      requires InOld({x, y, n}, {p, b}) && old(RotLReady(x, y, p, b)) && RotatedLeft(x, y, p, b)
      ensures LeftOk(n) && RightOk(n)
    {
      assert old(Linked(x) && Linked(y) && Linked(n) && Threaded(x) && Threaded(y));
      if p != null { assert old(Linked(p)); }
      if b != null { assert old(Linked(b)); }
    }

    twostate lemma RotLParent(new x: Region, new y: Region, new p: Region?, new b: Region?, new n: Region)
      requires InOld({x, y, n}, {p, b}) && old(RotLReady(x, y, p, b)) && RotatedLeft(x, y, p, b)
      ensures -1 <= n.lo < n.start < n.hi <= limit && ParentOk(n)
    {
      assert old(Linked(x) && Linked(y) && Linked(n));
      if p != null { assert old(Linked(p)); }
      if b != null { assert old(Linked(b)); }
    }

    twostate lemma RotLThreaded(new x: Region, new y: Region, new p: Region?, new b: Region?, new n: Region)
      requires InOld({x, y, n}, {p, b}) && old(RotLReady(x, y, p, b)) && RotatedLeft(x, y, p, b)
      ensures Threaded(n) && Adjacent(n)
    {
      assert old(Linked(x) && Linked(y) && Threaded(n) && Adjacent(n) && Threaded(x) && Threaded(y));
      if p != null { assert old(Linked(p)); }
    }

    twostate lemma RotLKeeps(new x: Region, new y: Region, new p: Region?, new b: Region?)
      requires InOld({x, y}, {p, b}) && old(RotLReady(x, y, p, b)) && RotatedLeft(x, y, p, b)
      ensures Links() && Threads()
    {
      assert old(Linked(x) && Linked(y));
      if p != null { assert old(Linked(p)); }
      forall n | n in nodes ensures Linked(n) && Threaded(n) && Adjacent(n) {
        RotLLinked(x, y, p, b, n);
        RotLParent(x, y, p, b, n);
        RotLThreaded(x, y, p, b, n);
      }
    }

    lemma RotLDistinct(x: Region)
      requires Links() && x in nodes && x.right != null
      ensures x.right in nodes && x.right != x
      ensures x.right.left != null ==> x.right.left in nodes && x.right.left != x && x.right.left != x.right
      ensures x.parent != null ==> x.parent in nodes && x.parent != x && x.parent != x.right && x.parent != x.right.left
      ensures x.parent != null && x != x.parent.left ==> x.parent.right == x
    {
      assert Linked(x) && Linked(x.right);
      if x.parent != null { assert Linked(x.parent); }
    }

    twostate predicate RotLMaxes(x: Region, y: Region)
      reads this`nodes, nodes`left, nodes`right, nodes`gap, nodes`maxGap
    {
      && x in nodes && y in nodes && nodes == old(nodes) && MaxOk(x) && MaxOk(y)
      && (forall m {:trigger m.gap} :: m in nodes ==> m.gap == old(m.gap))
      && (forall m {:trigger m.maxGap} :: m in nodes && m != x && m != y ==> m.maxGap == old(m.maxGap))
    }

    twostate lemma RotLTop(new x: Region, new y: Region, new p: Region?, new b: Region?)
      requires InOld({x, y}, {p, b}) && old(RotLReady(x, y, p, b)) && RotatedLeft(x, y, p, b)
      requires RotLMaxes(x, y) && old(MaxOk(x) && MaxOk(y))
      ensures y.maxGap == old(x.maxGap)
    {
      assert old(Linked(x) && Linked(y));
    }

    twostate lemma RotLStale(new x: Region, new y: Region, new p: Region?, new b: Region?, new u: Region?,
        new v: Region?, new n: Region)
      requires InOld({x, y, n}, {p, b, u, v}) && old(RotLReady(x, y, p, b)) && RotatedLeft(x, y, p, b)
      requires RotLMaxes(x, y) && old(Stale(u, v))
      ensures MaxOk(n) || Covers(n, u) || Covers(n, v)
    {
      if n != x && n != y {
        assert old(Linked(x) && Linked(n));
        if n == p {
          if old(MaxOk(x) && MaxOk(y)) {
            RotLTop(x, y, p, b);
          }
          assert old(Covers(x, u)) ==> Covers(n, u);
        }
        assert old(MaxOk(n)) || !old(MaxOk(n));
      }
    }

    twostate lemma RotLStaleAll(new x: Region, new y: Region, new p: Region?, new b: Region?, new u: Region?,
        new v: Region?)
      requires InOld({x, y}, {p, b, u, v}) && old(RotLReady(x, y, p, b)) && RotatedLeft(x, y, p, b)
      requires RotLMaxes(x, y) && old(Stale(u, v))
      ensures Stale(u, v)
    {
      forall n | n in nodes ensures MaxOk(n) || Covers(n, u) || Covers(n, v) {
        RotLStale(x, y, p, b, u, v, n);
      }
    }

    method RotateLeft(x: Region, ghost u: Region?, ghost v: Region?)
      requires Links() && Threads() && x in nodes && x.right != null
      requires u in nodes + {null} && v in nodes + {null} && Stale(u, v)
      modifies this`root, nodes`left, nodes`right, nodes`parent, nodes`lo, nodes`hi, nodes`maxGap
      ensures Links() && Threads()
      ensures old(x.right) in nodes && RotatedLeft(x, old(x.right), old(x.parent), old(x.right.left))
      ensures Stale(u, v)
    {
      ghost var p, y', b := x.parent, x.right, x.right.left;
      RotLDistinct(x);
      RelinkLeft(x);
      RotLKeeps(x, y', p, b);
      var y := x.parent;
      UpdatePair(x, y);
      RotLStaleAll(x, y, p, b, u, v);
    }

    method RelinkLeft(x: Region)
      requires Links() && x in nodes && x.right != null
      modifies this`root, nodes`left, nodes`right, nodes`parent, nodes`lo, nodes`hi
      ensures old(x.right) in nodes && RotatedLeft(x, old(x.right), old(x.parent), old(x.right.left))
    {
      RotLDistinct(x);
      TurnLeft(x, x.right);
    }

    method TurnLeft(x: Region, y: Region)
      requires x in nodes && y in nodes && y == x.right && x != y && y.left in nodes + {null} - {x, y}
      requires x.parent in nodes + {null} - {x, y} && (x.parent != null ==> x.parent != y.left)
      modifies this`root, nodes`left, nodes`right, nodes`parent, nodes`lo, nodes`hi
      ensures RotatedLeft(x, y, old(x.parent), old(y.left))
    {
      x.right := y.left;
      AdoptLeft(x, y);
      ReplaceLeft(x, y);
      y.left := x;
      x.parent := y;
      x.hi := y.start;
      y.lo := x.lo;
    }

    // the middle subtree goes to x, and y to the node above x
    method AdoptLeft(x: Region, y: Region)
      requires x in nodes && y in nodes && x != y && y.left in nodes + {null} - {x, y}
      modifies nodes`parent
      ensures forall n {:trigger n.parent} :: n in nodes ==>
        n.parent == if n == y then old(x.parent) else if n == y.left then x else old(n.parent)
    {
      if y.left != null {
        y.left.parent := x;
      }
      y.parent := x.parent;
    }

    // y takes the place of x under the node above x
    method ReplaceLeft(x: Region, y: Region)
      requires x.parent in nodes + {null} - {x, y}
      modifies this`root, nodes`left, nodes`right
      ensures root == if x.parent == null then y else old(root)
      ensures forall n {:trigger n.left} :: n in nodes ==> n.left == if n == x.parent && old(n.left) == x then y else old(n.left)
      ensures forall n {:trigger n.right} :: n in nodes ==> n.right == if n == x.parent && old(n.left) != x then y else old(n.right)
    {
      if x.parent == null {
        root := y;
      } else if x == x.parent.left {
        x.parent.left := y;
      } else {
        x.parent.right := y;
      }
    }

    twostate predicate RotatedRight(x: Region, y: Region, p: Region?, b: Region?)
      reads this`root, this`nodes, this`at, nodes`start, nodes`right, nodes`left, nodes`parent,
            nodes`hi, nodes`lo, nodes`nextKey, nodes`prevKey, this`ground
    {
      && nodes == old(nodes) && at == old(at) && ground == old(ground)
      && root == (if p == null then y else old(root))
      && (forall n {:trigger n.right} :: n in nodes ==>
           n.right == (if n == y then x else if n == p && old(n.right) == x then y else old(n.right)))
      && (forall n {:trigger n.left} :: n in nodes ==>
           n.left == (if n == x then b else if n == p && old(n.right) != x then y else old(n.left)))
      && (forall n {:trigger n.parent} :: n in nodes ==>
           n.parent == (if n == x then y else if n == y then p else if n == b then x else old(n.parent)))
      && (forall n {:trigger n.hi} :: n in nodes ==> n.hi == (if n == y then old(x.hi) else old(n.hi)))
      && (forall n {:trigger n.lo} :: n in nodes ==> n.lo == (if n == x then old(y.start) else old(n.lo)))
      && (forall n {:trigger n.start} :: n in nodes ==> n.start == old(n.start))
      && (forall n {:trigger n.nextKey} {:trigger n.prevKey} :: n in nodes ==>
           n.nextKey == old(n.nextKey) && n.prevKey == old(n.prevKey))
    }

    ghost predicate RotRReady(x: Region, y: Region, p: Region?, b: Region?)
      reads this`root, this`nodes, this`at, nodes`start, nodes`right, nodes`left, nodes`parent,
            nodes`hi, nodes`lo, nodes`nextKey, nodes`prevKey
    {
      && Links() && Threads() && x in nodes && y in nodes
      && y == x.left && p == x.parent && b == y.right
    }

    twostate lemma RotRLinked(new x: Region, new y: Region, new p: Region?, new b: Region?, new n: Region)
      requires InOld({x, y, n}, {p, b}) && old(RotRReady(x, y, p, b)) && RotatedRight(x, y, p, b)
      ensures RightOk(n) && LeftOk(n)
    {
      assert old(Linked(x) && Linked(y) && Linked(n) && Threaded(x) && Threaded(y));
      if p != null { assert old(Linked(p)); }
      if b != null { assert old(Linked(b)); }
    }

    twostate lemma RotRParent(new x: Region, new y: Region, new p: Region?, new b: Region?, new n: Region)
      requires InOld({x, y, n}, {p, b}) && old(RotRReady(x, y, p, b)) && RotatedRight(x, y, p, b)
      ensures -1 <= n.lo < n.start < n.hi <= limit && ParentOk(n)
    {
      assert old(Linked(x) && Linked(y) && Linked(n));
      if p != null { assert old(Linked(p)); }
      if b != null { assert old(Linked(b)); }
    }

    twostate lemma RotRThreaded(new x: Region, new y: Region, new p: Region?, new b: Region?, new n: Region)
      requires InOld({x, y, n}, {p, b}) && old(RotRReady(x, y, p, b)) && RotatedRight(x, y, p, b)
      ensures Threaded(n) && Adjacent(n)
    {
      assert old(Linked(x) && Linked(y) && Threaded(n) && Adjacent(n) && Threaded(x) && Threaded(y));
      if p != null { assert old(Linked(p)); }
    }

    twostate lemma RotRKeeps(new x: Region, new y: Region, new p: Region?, new b: Region?)
      requires InOld({x, y}, {p, b}) && old(RotRReady(x, y, p, b)) && RotatedRight(x, y, p, b)
      ensures Links() && Threads()
    {
      assert old(Linked(x) && Linked(y));
      if p != null { assert old(Linked(p)); }
      forall n | n in nodes ensures Linked(n) && Threaded(n) && Adjacent(n) {
        RotRLinked(x, y, p, b, n);
        RotRParent(x, y, p, b, n);
        RotRThreaded(x, y, p, b, n);
      }
    }

    lemma RotRDistinct(x: Region)
      requires Links() && x in nodes && x.left != null
      ensures x.left in nodes && x.left != x
      ensures x.left.right != null ==> x.left.right in nodes && x.left.right != x && x.left.right != x.left
      ensures x.parent != null ==> x.parent in nodes && x.parent != x && x.parent != x.left && x.parent != x.left.right
      ensures x.parent != null && x != x.parent.right ==> x.parent.left == x
    {
      assert Linked(x) && Linked(x.left);
      if x.parent != null { assert Linked(x.parent); }
    }

    twostate predicate RotRMaxes(x: Region, y: Region)
      reads this`nodes, nodes`right, nodes`left, nodes`gap, nodes`maxGap
    {
      && x in nodes && y in nodes && nodes == old(nodes) && MaxOk(x) && MaxOk(y)
      && (forall m {:trigger m.gap} :: m in nodes ==> m.gap == old(m.gap))
      && (forall m {:trigger m.maxGap} :: m in nodes && m != x && m != y ==> m.maxGap == old(m.maxGap))
    }

    twostate lemma RotRTop(new x: Region, new y: Region, new p: Region?, new b: Region?)
      requires InOld({x, y}, {p, b}) && old(RotRReady(x, y, p, b)) && RotatedRight(x, y, p, b)
      requires RotRMaxes(x, y) && old(MaxOk(x) && MaxOk(y))
      ensures y.maxGap == old(x.maxGap)
    {
      assert old(Linked(x) && Linked(y));
    }

    twostate lemma RotRStale(new x: Region, new y: Region, new p: Region?, new b: Region?, new u: Region?,
        new v: Region?, new n: Region)
      requires InOld({x, y, n}, {p, b, u, v}) && old(RotRReady(x, y, p, b)) && RotatedRight(x, y, p, b)
      requires RotRMaxes(x, y) && old(Stale(u, v))
      ensures MaxOk(n) || Covers(n, u) || Covers(n, v)
    {
      if n != x && n != y {
        assert old(Linked(x) && Linked(n));
        if n == p {
          if old(MaxOk(x) && MaxOk(y)) {
            RotRTop(x, y, p, b);
          }
          assert old(Covers(x, u)) ==> Covers(n, u);
        }
        assert old(MaxOk(n)) || !old(MaxOk(n));
      }
    }

    twostate lemma RotRStaleAll(new x: Region, new y: Region, new p: Region?, new b: Region?, new u: Region?,
        new v: Region?)
      requires InOld({x, y}, {p, b, u, v}) && old(RotRReady(x, y, p, b)) && RotatedRight(x, y, p, b)
      requires RotRMaxes(x, y) && old(Stale(u, v))
      ensures Stale(u, v)
    {
      forall n | n in nodes ensures MaxOk(n) || Covers(n, u) || Covers(n, v) {
        RotRStale(x, y, p, b, u, v, n);
      }
    }

    method RotateRight(x: Region, ghost u: Region?, ghost v: Region?)
      requires Links() && Threads() && x in nodes && x.left != null
      requires u in nodes + {null} && v in nodes + {null} && Stale(u, v)
      modifies this`root, nodes`right, nodes`left, nodes`parent, nodes`hi, nodes`lo, nodes`maxGap
      ensures Links() && Threads()
      ensures old(x.left) in nodes && RotatedRight(x, old(x.left), old(x.parent), old(x.left.right))
      ensures Stale(u, v)
    {
      ghost var p, y', b := x.parent, x.left, x.left.right;
      RotRDistinct(x);
      RelinkRight(x);
      RotRKeeps(x, y', p, b);
      var y := x.parent;
      UpdatePair(x, y);
      RotRStaleAll(x, y, p, b, u, v);
    }

    method RelinkRight(x: Region)
      requires Links() && x in nodes && x.left != null
      modifies this`root, nodes`right, nodes`left, nodes`parent, nodes`hi, nodes`lo
      ensures old(x.left) in nodes && RotatedRight(x, old(x.left), old(x.parent), old(x.left.right))
    {
      RotRDistinct(x);
      TurnRight(x, x.left);
    }

    method TurnRight(x: Region, y: Region)
      requires x in nodes && y in nodes && y == x.left && x != y && y.right in nodes + {null} - {x, y}
      requires x.parent in nodes + {null} - {x, y} && (x.parent != null ==> x.parent != y.right)
      modifies this`root, nodes`left, nodes`right, nodes`parent, nodes`lo, nodes`hi
      ensures RotatedRight(x, y, old(x.parent), old(y.right))
    {
      x.left := y.right;
      AdoptRight(x, y);
      ReplaceRight(x, y);
      y.right := x;
      x.parent := y;
      x.lo := y.start;
      y.hi := x.hi;
    }

    // the middle subtree goes to x, and y to the node above x
    method AdoptRight(x: Region, y: Region)
      requires x in nodes && y in nodes && x != y && y.right in nodes + {null} - {x, y}
      modifies nodes`parent
      ensures forall n {:trigger n.parent} :: n in nodes ==>
        n.parent == if n == y then old(x.parent) else if n == y.right then x else old(n.parent)
    {
      if y.right != null {
        y.right.parent := x;
      }
      y.parent := x.parent;
    }

    // y takes the place of x under the node above x
    method ReplaceRight(x: Region, y: Region)
      requires x.parent in nodes + {null} - {x, y}
      modifies this`root, nodes`left, nodes`right
      ensures root == if x.parent == null then y else old(root)
      ensures forall n {:trigger n.right} :: n in nodes ==> n.right == if n == x.parent && old(n.right) == x then y else old(n.right)
      ensures forall n {:trigger n.left} :: n in nodes ==> n.left == if n == x.parent && old(n.right) != x then y else old(n.left)
    {
      if x.parent == null {
        root := y;
      } else if x == x.parent.right {
        x.parent.right := y;
      } else {
        x.parent.left := y;
      }
    }

    // ---------- position in the tree ----------

    // u lies strictly below n
    ghost predicate Inside(u: Region, n: Region)
      requires u in nodes && n in nodes
      reads this`nodes, nodes`lo, nodes`hi, nodes`start
    {
      (n.lo <= u.lo && u.hi <= n.start) || (n.start <= u.lo && u.hi <= n.hi)
    }

    // a region whose start a node answers for is that node or lies below it
    lemma {:induction false} Locate(c: Region, k: Region)
      requires Links() && Threads() && c in nodes && k in nodes && Covers(c, k)
      ensures k == c || Inside(k, c)
      ensures k.start < c.start ==> c.left != null && c.left in nodes && Covers(c.left, k)
      ensures c.start < k.start ==> c.right != null && c.right in nodes && Covers(c.right, k)
      decreases c.hi - c.lo
    {
      assert Linked(c) && Threaded(c) && Adjacent(c) && Threaded(k);
      if k.start < c.start {
        assert Linked(c.left);
        Locate(c.left, k);
      } else if c.start < k.start {
        assert Linked(c.right);
        Locate(c.right, k);
      }
    }

    // the node above u is still below, or is, any node that u lies below
    lemma {:induction false} ParentBelow(u: Region, n: Region)
      requires Links() && Threads() && u in nodes && n in nodes && Inside(u, n)
      ensures u.parent != null && u.parent in nodes && (u.parent == n || Inside(u.parent, n))
      decreases n.hi - n.lo
    {
      assert Linked(u) && Linked(n);
      Locate(n, u);
      var c := if u.start < n.start then n.left else n.right;
      Locate(c, u);
      if u != c {
        assert Linked(c);
        ParentBelow(u, c);
      }
    }

    lemma RootCovers(k: Region)
      requires Links() && Threads() && k in nodes
      ensures root != null && Covers(root, k)
    {
      assert Threaded(k);
    }

    method Predecessor(node: Region) returns (p: Region?)
      requires Links() && Threads() && node in nodes
      ensures p == null ==> node.prevKey == -1
      ensures p != null ==> p in nodes && p.start == node.prevKey
    {
      assert Linked(node) && Threaded(node);
      if node.left != null {
        var curr := node.left;
        assert Linked(curr);
        while curr.right != null
          invariant curr in nodes && Linked(curr) && curr.hi == node.start
          decreases curr.hi - curr.lo
        {
          curr := curr.right;
          assert Linked(curr);
        }
        assert Threaded(curr);
        return curr;
      }
      var curr := node;
      p := node.parent;
      while p != null && curr == p.left
        invariant curr in nodes && Linked(curr) && curr.lo == node.lo && p == curr.parent
        decreases limit - (curr.hi - curr.lo)
      {
        assert Linked(p);
        curr := p;
        p := p.parent;
      }
      if p != null { assert Linked(p); }
    }

    method Successor(node: Region) returns (p: Region?)
      requires Links() && Threads() && node in nodes
      ensures p == null ==> node.nextKey == limit
      ensures p != null ==> p in nodes && p.start == node.nextKey
    {
      assert Linked(node) && Threaded(node);
      if node.right != null {
        var curr := node.right;
        assert Linked(curr);
        while curr.left != null
          invariant curr in nodes && Linked(curr) && curr.lo == node.start
          decreases curr.hi - curr.lo
        {
          curr := curr.left;
          assert Linked(curr);
        }
        assert Threaded(curr);
        return curr;
      }
      var curr := node;
      p := node.parent;
      while p != null && curr == p.right
        invariant curr in nodes && Linked(curr) && curr.hi == node.hi && p == curr.parent
        decreases limit - (curr.hi - curr.lo)
      {
        assert Linked(p);
        curr := p;
        p := p.parent;
      }
      if p != null { assert Linked(p); }
    }

    // ---------- update_path_to_root ----------

    ghost predicate StaleFrom(c: Region?, v: Region?)
      requires c in nodes + {null} && v in nodes + {null}
      reads this`nodes, nodes`lo, nodes`hi, nodes`start, nodes`left, nodes`right, nodes`gap, nodes`maxGap
    {
      forall n {:trigger MaxOk(n)} :: n in nodes ==> MaxOk(n) || Covers(n, v) || (c != null && (n == c || Inside(c, n)))
    }

    twostate lemma StepUp(new c: Region, new v: Region?, new n: Region)
      requires InOld({c, n}, {v}) && nodes == old(nodes) && old(Links() && Threads() && StaleFrom(c, v))
      requires Links() && Threads() && MaxOk(c)
      requires forall m {:trigger m.maxGap} :: m in nodes && m != c ==> m.maxGap == old(m.maxGap)
      requires forall m {:trigger m.gap} {:trigger m.left} {:trigger m.right} :: m in nodes ==>
        m.gap == old(m.gap) && m.left == old(m.left) && m.right == old(m.right)
      requires forall m {:trigger m.lo} {:trigger m.hi} {:trigger m.start} {:trigger m.parent} :: m in nodes ==>
        m.lo == old(m.lo) && m.hi == old(m.hi) && m.start == old(m.start) && m.parent == old(m.parent)
      ensures c.parent in nodes + {null}
      ensures MaxOk(n) || Covers(n, v) || (c.parent != null && (n == c.parent || Inside(c.parent, n)))
    {
      assert Linked(c) && Linked(n);
      if n != c {
        if Inside(c, n) {
          ParentBelow(c, n);
        }
        assert old(MaxOk(n)) || !old(MaxOk(n));
      }
    }

    method UpdatePathToRoot(x: Region, ghost v: Region?)
      requires Links() && Threads() && x in nodes && v in nodes + {null} && Stale(x, v)
      modifies nodes`maxGap
      ensures Stale(v, null)
    {
      var curr: Region? := x;
      forall n | n in nodes && Covers(n, x) ensures n == x || Inside(x, n) {
        Locate(n, x);
      }
      while curr != null
        invariant curr in nodes + {null} && StaleFrom(curr, v)
        decreases if curr == null then 0 else limit + 2 - (curr.hi - curr.lo)
      {
        assert Linked(curr);
        if curr.parent != null { assert Linked(curr.parent); }
        label Before:
        UpdateNodeMetadata(curr);
        forall n | n in nodes
          ensures MaxOk(n) || Covers(n, v) || (curr.parent != null && (n == curr.parent || Inside(curr.parent, n)))
        {
          StepUp@Before(curr, v, n);
        }
        curr := curr.parent;
      }
    }

    // ---------- insertion: finding the place and linking ----------

    // the empty child position of y that a region starting at `start` belongs in
    ghost predicate Slot(y: Region?, start: int)
      requires y in nodes + {null}
      reads this`root, this`nodes, nodes`start, nodes`left, nodes`right, nodes`lo, nodes`hi
    {
      && (y == null ==> root == null)
      && (y != null ==> if start < y.start then y.left == null && y.lo < start else y.right == null && y.start < start < y.hi)
    }

    method FindSlot(start: int) returns (y: Region?)
      requires Links() && Threads() && 0 <= start < limit && start !in at
      ensures y in nodes + {null} && Slot(y, start)
    {
      y := null;
      var x := root;
      while x != null
        invariant y in nodes + {null} && x in nodes + {null}
        invariant x != null ==> x.lo < start < x.hi
        invariant x == null ==> Slot(y, start)
        decreases if x == null then 0 else x.hi - x.lo
      {
        assert Linked(x) && Threaded(x);
        y := x;
        if start < x.start {
          x := x.left;
        } else {
          x := x.right;
        }
        if x != null { assert Linked(x); }
      }
    }

    twostate predicate Attached(new z: Region, new y: Region?)
      reads this`root, this`nodes, this`at, nodes`start, nodes`left, nodes`right, nodes`parent,
            nodes`lo, nodes`hi, nodes`prevKey, nodes`nextKey
    {
      && z !in old(nodes) && y in old(nodes) + {null} && nodes == old(nodes) + {z} && at == old(at)[z.start := z]
      && z.left == null && z.right == null && z.parent == y && z.prevKey == z.lo && z.nextKey == z.hi
      && (if y == null then root == z && z.lo == -1 && z.hi == limit
          else root == old(root) && if z.start < y.start then z.lo == y.lo && z.hi == y.start else z.lo == y.start && z.hi == y.hi)
      && (forall n {:trigger n.left} :: n in old(nodes) ==>
           n.left == (if n == y && z.start < y.start then z else old(n.left)))
      && (forall n {:trigger n.right} :: n in old(nodes) ==>
           n.right == (if n == y && z.start >= y.start then z else old(n.right)))
      && (forall n {:trigger n.prevKey} :: n in old(nodes) ==>
           n.prevKey == (if n.start == z.hi then z.start else old(n.prevKey)))
      && (forall n {:trigger n.nextKey} :: n in old(nodes) ==>
           n.nextKey == (if n.start == z.lo then z.start else old(n.nextKey)))
      && (forall n {:trigger n.parent} {:trigger n.lo} {:trigger n.hi} {:trigger n.start} :: n in old(nodes) ==>
           n.parent == old(n.parent) && n.lo == old(n.lo) && n.hi == old(n.hi) && n.start == old(n.start))
    }

    twostate predicate AttachReady(new z: Region, new y: Region?, s: int)
      reads this`root, this`nodes, this`at, nodes`start, nodes`left, nodes`right, nodes`parent,
            nodes`lo, nodes`hi, nodes`prevKey, nodes`nextKey
    {
      && Attached(z, y) && s == z.start && 0 <= s < limit && s !in old(at)
      && old(Links() && Threads() && y in nodes + {null} && Slot(y, s))
    }

    twostate lemma AttachLinked(new z: Region, new y: Region?, s: int, new n: Region)
      requires z in nodes && AttachReady(z, y, s) && n in nodes
      ensures Linked(n)
    {
      if y != null { assert old(Linked(y) && Threaded(y)); }
      if n != z { assert old(Linked(n) && Threaded(n)); }
    }

    twostate lemma AttachThreaded(new z: Region, new y: Region?, s: int, new n: Region)
      requires z in nodes && AttachReady(z, y, s) && n in nodes
      ensures Threaded(n)
    {
      if y != null { assert old(Linked(y) && Threaded(y)); }
      if n != z { assert old(Threaded(n)); }
    }

    twostate lemma AttachAdjacent(new z: Region, new y: Region?, s: int, new n: Region)
      requires z in nodes && AttachReady(z, y, s) && n in nodes
      ensures Adjacent(n)
    {
      if y != null { assert old(Linked(y) && Threaded(y) && Adjacent(y)); }
      if n != z {
        assert old(Threaded(n) && Adjacent(n));
        assert n.start in old(at);
      }
    }

    twostate lemma AttachLinks(new z: Region, new y: Region?, s: int)
      requires z in nodes && AttachReady(z, y, s)
      ensures Links()
    {
      forall n | n in nodes ensures Linked(n) {
        AttachLinked(z, y, s, n);
      }
    }

    twostate lemma AttachThreads(new z: Region, new y: Region?, s: int)
      requires z in nodes && AttachReady(z, y, s)
      ensures Threads()
    {
      forall n | n in nodes ensures Threaded(n) {
        AttachThreaded(z, y, s, n);
      }
      forall n | n in nodes ensures Adjacent(n) {
        AttachAdjacent(z, y, s, n);
      }
    }

    method Attach(z: Region, y: Region?)
      requires Links() && Threads() && z !in nodes && y in nodes + {null} && 0 <= z.start < limit && z.start !in at
      requires Slot(y, z.start) && z.left == null && z.right == null
      modifies this`root, this`nodes, this`at, nodes`left, nodes`right, nodes`prevKey, nodes`nextKey
      modifies z`parent, z`lo, z`hi, z`prevKey, z`nextKey
      ensures Links() && Threads() && Attached(z, y)
    {
      Hang(z, y);
      AttachLinks(z, y, z.start);
      AttachThreads(z, y, z.start);
    }

    method Hang(z: Region, y: Region?)
      requires z !in nodes && y in nodes + {null} && z.left == null && z.right == null
      modifies this`root, this`nodes, this`at, nodes`left, nodes`right, nodes`prevKey, nodes`nextKey
      modifies z`parent, z`lo, z`hi, z`prevKey, z`nextKey
      ensures Attached(z, y)
    {
      z.parent := y;
      if y == null {
        root := z;
        z.lo, z.hi := -1, limit;
      } else if z.start < y.start {
        y.left := z;
        z.lo, z.hi := y.lo, y.start;
      } else {
        y.right := z;
        z.lo, z.hi := y.start, y.hi;
      }
      z.prevKey, z.nextKey := z.lo, z.hi;
      forall n | n in nodes && n.start == z.hi { n.prevKey := z.start; }
      forall n | n in nodes && n.start == z.lo { n.nextKey := z.start; }
      nodes := nodes + {z};
      at := at[z.start := z];
    }

    // ---------- colours ----------

    ghost predicate IsRed(n: Region?)
      requires n in nodes + {null}
      reads this`nodes, nodes`isRed
    {
      n != null && n.isRed
    }

    // a red node has no red child, z excepted
    ghost predicate RedBut(n: Region, z: Region?)
      requires n in nodes
      reads this`nodes, nodes`left, nodes`right, nodes`isRed
    {
      && n.left in nodes + {null} && n.right in nodes + {null}
      && (n.isRed ==> (n.left == z || !IsRed(n.left)) && (n.right == z || !IsRed(n.right)))
    }

    ghost predicate RedsBut(z: Region?)
      reads this`root, this`nodes, nodes`left, nodes`right, nodes`isRed
    {
      && root in nodes + {null} && (root != z ==> !IsRed(root))
      && forall n {:trigger RedBut(n, z)} :: n in nodes ==> RedBut(n, z)
    }

    // no red node has a red child, and the root is black
    ghost predicate Reds()
      reads this`root, this`nodes, nodes`left, nodes`right, nodes`isRed
    {
      RedsBut(null)
    }

    ghost function Ground(k: int): int
      reads this`ground
    {
      GroundAt(ground, k)
    }

    // the height of the subtree, or what the empty place counts for; the subtree of d counts for one more than it has
    ghost function LeftHeight(n: Region, d: Region?): int
      requires n in nodes && n.left in nodes + {null}
      reads this`nodes, this`ground, nodes`left, nodes`bh, nodes`lo
    {
      if n.left == null then Ground(n.lo) else n.left.bh + if n.left == d then 1 else 0
    }

    ghost function RightHeight(n: Region, d: Region?): int
      requires n in nodes && n.right in nodes + {null}
      reads this`nodes, this`ground, nodes`right, nodes`bh, nodes`start
    {
      if n.right == null then Ground(n.start) else n.right.bh + if n.right == d then 1 else 0
    }

    // every path down from n has as many black nodes, counting what stands at its end
    ghost predicate ShortOk(n: Region, d: Region?)
      requires n in nodes
      reads this`nodes, this`ground, nodes`left, nodes`right, nodes`isRed, nodes`bh, nodes`lo, nodes`start
    {
      && n.left in nodes + {null} && n.right in nodes + {null}
      && LeftHeight(n, d) == RightHeight(n, d)
      && n.bh == LeftHeight(n, d) + if n.isRed then 0 else 1
    }

    // one black node is missing on every path through d
    ghost predicate Short(d: Region?)
      reads this`nodes, this`ground, nodes`left, nodes`right, nodes`isRed, nodes`bh, nodes`lo, nodes`start
    {
      forall n {:trigger ShortOk(n, d)} :: n in nodes ==> ShortOk(n, d)
    }

    ghost predicate BlackOk(n: Region)
      requires n in nodes
      reads this`nodes, this`ground, nodes`left, nodes`right, nodes`isRed, nodes`bh, nodes`lo, nodes`start
    {
      ShortOk(n, null)
    }

    // ground says exactly by how many black nodes the paths differ
    ghost predicate Heights()
      reads this`nodes, this`ground, nodes`left, nodes`right, nodes`isRed, nodes`bh, nodes`lo, nodes`start
    {
      Short(null)
    }

    // one empty place before the first region and one after each
    ghost predicate Places()
      reads this`at, this`ground
    {
      ground.Keys == at.Keys + {-1}
    }

    // every path from the root has the same number of black nodes
    ghost predicate Balanced()
      reads this`nodes, this`ground, nodes`left, nodes`right, nodes`isRed, nodes`bh, nodes`lo, nodes`start
    {
      Heights() && Level(ground)
    }

    // ---------- insert_fixup ----------

    ghost predicate Family(z: Region, p: Region, g: Region, y: Region?)
      reads this`nodes, nodes`left, nodes`right, nodes`parent
    {
      && z in nodes && p in nodes && g in nodes && z.parent == p && p.parent == g
      && ((g.left == p && g.right == y) || (g.right == p && g.left == y))
    }

    twostate predicate Recolored(p: Region, y: Region, g: Region)
      reads this`root, this`nodes, this`ground, nodes`left, nodes`right, nodes`isRed, nodes`bh, nodes`lo, nodes`start
    {
      && nodes == old(nodes) && root == old(root) && ground == old(ground)
      && (forall n {:trigger n.lo} {:trigger n.start} :: n in nodes ==> n.lo == old(n.lo) && n.start == old(n.start))
      && (forall n {:trigger n.left} {:trigger n.right} :: n in nodes ==> n.left == old(n.left) && n.right == old(n.right))
      && (forall n {:trigger n.isRed} :: n in nodes ==> n.isRed == (if n == g then true else if n == p || n == y then false else old(n.isRed)))
      && (forall n {:trigger n.bh} :: n in nodes ==> n.bh == (if n == p || n == y then old(n.bh) + 1 else old(n.bh)))
    }

    twostate lemma RecolorKeeps(new z: Region, new p: Region, new y: Region, new g: Region, new n: Region)
      requires InOld({z, p, y, g, n}, {}) && old(Links() && Family(z, p, g, y) && RedsBut(z) && p.isRed && y.isRed && z.isRed)
      requires Recolored(p, y, g)
      ensures RedBut(n, g) && (old(Heights()) ==> BlackOk(n))
    {
      assert old(Linked(n) && Linked(p) && Linked(g) && Linked(y) && Linked(z));
      assert old(RedBut(n, z) && RedBut(g, z) && RedBut(p, z) && RedBut(y, z));
      if old(Heights()) { assert old(BlackOk(n) && BlackOk(g)); }
    }

    method Recolor(ghost z: Region, p: Region, y: Region, g: Region)
      requires Links() && y in nodes && Family(z, p, g, y) && RedsBut(z) && p.isRed && y.isRed && z.isRed
      modifies nodes`isRed, nodes`bh
      ensures RedsBut(g) && g.isRed
      ensures old(Heights()) ==> Heights()
    {
      assert Linked(p) && Linked(g) && Linked(y);
      p.isRed := false;
      y.isRed := false;
      g.isRed := true;
      p.bh, y.bh := p.bh + 1, y.bh + 1;
      forall n | n in nodes ensures RedBut(n, g) && (old(Heights()) ==> BlackOk(n)) {
        RecolorKeeps(z, p, y, g, n);
      }
    }

    // a red node and its black parent swap colours
    method ExchangeColours(p: Region, g: Region)
      requires p in nodes && g in nodes && p != g
      modifies p`isRed, g`isRed, p`bh, g`bh
      ensures !p.isRed && g.isRed && p.bh == old(p.bh) + 1 && g.bh == old(g.bh) - 1
    {
      p.isRed := false;
      g.isRed := true;
      p.bh, g.bh := p.bh + 1, g.bh - 1;
    }

    // turning a red pair keeps the colours; the lower of the two is now the other node
    twostate lemma TurnLReds(new x: Region, new y: Region, new p: Region?, new b: Region?, new n: Region)
      requires InOld({x, y, n}, {p, b}) && old(RotLReady(x, y, p, b)) && RotatedLeft(x, y, p, b)
      requires old(RedsBut(y) && x.isRed && y.isRed)
      requires forall m {:trigger m.isRed} {:trigger m.bh} :: m in nodes ==> m.isRed == old(m.isRed) && m.bh == old(m.bh)
      ensures RedBut(n, x) && (old(Heights()) ==> BlackOk(n))
    {
      assert old(Linked(x) && Linked(y) && Linked(n));
      assert old(RedBut(n, y) && RedBut(x, y) && RedBut(y, y));
      if p != null { assert old(Linked(p) && RedBut(p, y)); }
      if old(Heights()) { assert old(BlackOk(n) && BlackOk(x) && BlackOk(y)); }
    }

    twostate lemma TurnLRedsAll(new x: Region, new y: Region, new p: Region?, new b: Region?)
      requires InOld({x, y}, {p, b}) && old(RotLReady(x, y, p, b)) && RotatedLeft(x, y, p, b)
      requires old(RedsBut(y) && x.isRed && y.isRed)
      requires forall m {:trigger m.isRed} {:trigger m.bh} :: m in nodes ==> m.isRed == old(m.isRed) && m.bh == old(m.bh)
      ensures RedsBut(x) && (old(Heights()) ==> Heights())
    {
      assert old(Linked(x) && Linked(y));
      forall n | n in nodes ensures RedBut(n, x) && (old(Heights()) ==> BlackOk(n)) {
        TurnLReds(x, y, p, b, n);
      }
    }

    // turning a black parent over a red child, with their colours exchanged, keeps the heights
    twostate lemma FinishLReds(new x: Region, new y: Region, new p: Region?, new b: Region?, new z: Region?,
        new n: Region)
      requires InOld({x, y, n}, {p, b, z}) && old(RotLReady(x, y, p, b)) && RotatedLeft(x, y, p, b)
      requires old(RedsBut(z) && !x.isRed && y.isRed && (z == null || y.right == z) && x.left in nodes + {null} && !IsRed(x.left))
      requires forall m {:trigger m.isRed} :: m in nodes ==> m.isRed == (if m == x then true else if m == y then false else old(m.isRed))
      ensures RedBut(n, null)
    {
      assert old(Linked(x) && Linked(y) && Linked(n));
      assert old(RedBut(n, z) && RedBut(x, z) && RedBut(y, z));
      if p != null { assert old(Linked(p) && RedBut(p, z)); }
    }

    twostate lemma FinishLRedsAll(new x: Region, new y: Region, new p: Region?, new b: Region?, new z: Region?)
      requires InOld({x, y}, {p, b, z}) && old(RotLReady(x, y, p, b)) && RotatedLeft(x, y, p, b)
      requires old(RedsBut(z) && !x.isRed && y.isRed && (z == null || y.right == z) && x.left in nodes + {null} && !IsRed(x.left))
      requires forall m {:trigger m.isRed} :: m in nodes ==> m.isRed == (if m == x then true else if m == y then false else old(m.isRed))
      requires forall m {:trigger m.bh} :: m in nodes ==> m.bh == (if m == x then old(m.bh) - 1 else if m == y then old(m.bh) + 1 else old(m.bh))
      ensures RedsBut(null) && (old(Heights()) ==> Heights())
    {
      assert old(Linked(x) && Linked(y));
      forall n | n in nodes ensures RedBut(n, null) {
        FinishLReds(x, y, p, b, z, n);
      }
      FinishLShortAll(x, y, p, b, null);
    }

    method StraightenLeft(x: Region)
      requires Links() && Threads() && Maxes() && x in nodes && x.right != null && x.isRed && x.right.isRed && RedsBut(x.right)
      modifies this`root, nodes`left, nodes`right, nodes`parent, nodes`lo, nodes`hi, nodes`maxGap
      ensures Links() && Threads() && Maxes() && RedsBut(x) && (old(Heights()) ==> Heights())
      ensures x.parent == old(x.right) && x.parent in nodes && x.parent.right == old(x.right.right)
      ensures old(x.right) in nodes && RotatedLeft(x, old(x.right), old(x.parent), old(x.right.left))
    {
      RotLDistinct(x);
      ghost var p, y, b := x.parent, x.right, x.right.left;
      RotateLeft(x, null, null);
      TurnLRedsAll(x, y, p, b);
    }

    method FinishLeft(ghost z: Region, p: Region, g: Region)
      requires Links() && Threads() && Maxes() && RedsBut(z) && Family(z, p, g, g.left) && g.right == p && p.right == z
      requires !g.isRed && p.isRed && z.isRed && g.left in nodes + {null} && !IsRed(g.left)
      modifies this`root, nodes`left, nodes`right, nodes`parent, nodes`lo, nodes`hi, nodes`maxGap, nodes`isRed, nodes`bh
      ensures Links() && Threads() && Maxes() && (old(Heights()) ==> Heights())
      ensures Reds() && z.isRed && z.parent == p && !p.isRed
    {
      RotLDistinct(g);
      ghost var q, b := g.parent, p.left;
      assert Linked(z) && Linked(p);
      ExchangeColours(p, g);
      RotateLeft(g, null, null);
      FinishLRedsAll(g, p, q, b, z);
    }

    twostate lemma TurnRReds(new x: Region, new y: Region, new p: Region?, new b: Region?, new n: Region)
      requires InOld({x, y, n}, {p, b}) && old(RotRReady(x, y, p, b)) && RotatedRight(x, y, p, b)
      requires old(RedsBut(y) && x.isRed && y.isRed)
      requires forall m {:trigger m.isRed} {:trigger m.bh} :: m in nodes ==> m.isRed == old(m.isRed) && m.bh == old(m.bh)
      ensures RedBut(n, x) && (old(Heights()) ==> BlackOk(n))
    {
      assert old(Linked(x) && Linked(y) && Linked(n));
      assert old(RedBut(n, y) && RedBut(x, y) && RedBut(y, y));
      if p != null { assert old(Linked(p) && RedBut(p, y)); }
      if old(Heights()) { assert old(BlackOk(n) && BlackOk(x) && BlackOk(y)); }
    }

    twostate lemma TurnRRedsAll(new x: Region, new y: Region, new p: Region?, new b: Region?)
      requires InOld({x, y}, {p, b}) && old(RotRReady(x, y, p, b)) && RotatedRight(x, y, p, b)
      requires old(RedsBut(y) && x.isRed && y.isRed)
      requires forall m {:trigger m.isRed} {:trigger m.bh} :: m in nodes ==> m.isRed == old(m.isRed) && m.bh == old(m.bh)
      ensures RedsBut(x) && (old(Heights()) ==> Heights())
    {
      assert old(Linked(x) && Linked(y));
      forall n | n in nodes ensures RedBut(n, x) && (old(Heights()) ==> BlackOk(n)) {
        TurnRReds(x, y, p, b, n);
      }
    }

    twostate lemma FinishRReds(new x: Region, new y: Region, new p: Region?, new b: Region?, new z: Region?,
        new n: Region)
      requires InOld({x, y, n}, {p, b, z}) && old(RotRReady(x, y, p, b)) && RotatedRight(x, y, p, b)
      requires old(RedsBut(z) && !x.isRed && y.isRed && (z == null || y.left == z) && x.right in nodes + {null} && !IsRed(x.right))
      requires forall m {:trigger m.isRed} :: m in nodes ==> m.isRed == (if m == x then true else if m == y then false else old(m.isRed))
      ensures RedBut(n, null)
    {
      assert old(Linked(x) && Linked(y) && Linked(n));
      assert old(RedBut(n, z) && RedBut(x, z) && RedBut(y, z));
      if p != null { assert old(Linked(p) && RedBut(p, z)); }
    }

    twostate lemma FinishRRedsAll(new x: Region, new y: Region, new p: Region?, new b: Region?, new z: Region?)
      requires InOld({x, y}, {p, b, z}) && old(RotRReady(x, y, p, b)) && RotatedRight(x, y, p, b)
      requires old(RedsBut(z) && !x.isRed && y.isRed && (z == null || y.left == z) && x.right in nodes + {null} && !IsRed(x.right))
      requires forall m {:trigger m.isRed} :: m in nodes ==> m.isRed == (if m == x then true else if m == y then false else old(m.isRed))
      requires forall m {:trigger m.bh} :: m in nodes ==> m.bh == (if m == x then old(m.bh) - 1 else if m == y then old(m.bh) + 1 else old(m.bh))
      ensures RedsBut(null) && (old(Heights()) ==> Heights())
    {
      assert old(Linked(x) && Linked(y));
      forall n | n in nodes ensures RedBut(n, null) {
        FinishRReds(x, y, p, b, z, n);
      }
      FinishRShortAll(x, y, p, b, null);
    }

    method StraightenRight(x: Region)
      requires Links() && Threads() && Maxes() && x in nodes && x.left != null && x.isRed && x.left.isRed && RedsBut(x.left)
      modifies this`root, nodes`right, nodes`left, nodes`parent, nodes`hi, nodes`lo, nodes`maxGap
      ensures Links() && Threads() && Maxes() && RedsBut(x) && (old(Heights()) ==> Heights())
      ensures x.parent == old(x.left) && x.parent in nodes && x.parent.left == old(x.left.left)
      ensures old(x.left) in nodes && RotatedRight(x, old(x.left), old(x.parent), old(x.left.right))
    {
      RotRDistinct(x);
      ghost var p, y, b := x.parent, x.left, x.left.right;
      RotateRight(x, null, null);
      TurnRRedsAll(x, y, p, b);
    }

    method FinishRight(ghost z: Region, p: Region, g: Region)
      requires Links() && Threads() && Maxes() && RedsBut(z) && Family(z, p, g, g.right) && g.left == p && p.left == z
      requires !g.isRed && p.isRed && z.isRed && g.right in nodes + {null} && !IsRed(g.right)
      modifies this`root, nodes`right, nodes`left, nodes`parent, nodes`hi, nodes`lo, nodes`maxGap, nodes`isRed, nodes`bh
      ensures Links() && Threads() && Maxes() && (old(Heights()) ==> Heights())
      ensures Reds() && z.isRed && z.parent == p && !p.isRed
    {
      RotRDistinct(g);
      ghost var q, b := g.parent, p.right;
      assert Linked(z) && Linked(p);
      ExchangeColours(p, g);
      RotateRight(g, null, null);
      FinishRRedsAll(g, p, q, b, z);
    }

    lemma RedParent(z: Region)
      requires Links() && z in nodes && RedsBut(z) && z.parent != null && z.parent in nodes && z.parent.isRed
      ensures z.parent.parent != null && z.parent.parent in nodes && !z.parent.parent.isRed && z.parent != z
      ensures z.parent.parent.left == z.parent || z.parent.parent.right == z.parent
      ensures z.parent.left == z || z.parent.right == z
      ensures z.parent.parent.left in nodes + {null} && z.parent.parent.right in nodes + {null}
      ensures z.parent.parent.left == z.parent ==> z.parent.parent.right != z.parent
      ensures z.parent.left == z ==> z.parent.right != z
      ensures z.parent.parent.hi - z.parent.parent.lo > z.hi - z.lo
    {
      var p := z.parent;
      assert Linked(z) && Linked(p);
      assert Linked(p.parent) && RedBut(p.parent, z);
    }

    lemma RedsWeaken(z: Region)
      requires Reds()
      ensures RedsBut(z)
    {
      forall n | n in nodes ensures RedBut(n, z) {
        assert RedBut(n, null);
      }
    }

    // one turn of the loop in insert_fixup
    method FixupStep(z: Region) returns (z': Region)
      requires Links() && Threads() && Maxes() && z in nodes && z.isRed && RedsBut(z)
      requires z.parent != null && z.parent in nodes && z.parent.isRed
      modifies this`root, nodes`left, nodes`right, nodes`parent, nodes`lo, nodes`hi, nodes`maxGap, nodes`isRed, nodes`bh
      ensures Links() && Threads() && Maxes() && z' in nodes && z'.isRed && RedsBut(z') && (old(Heights()) ==> Heights())
      ensures z'.parent == null || !z'.parent.isRed || z'.hi - z'.lo > old(z.hi - z.lo)
    {
      RedParent(z);
      var p, g := z.parent, z.parent.parent;
      if p == g.left {
        var y := g.right;
        if y != null && y.isRed {
          Recolor(z, p, y, g);
          z' := g;
        } else {
          z' := z;
          if z == p.right {
            z' := p;
            StraightenLeft(p);
          }
          FinishRight(z', z'.parent, g);
          RedsWeaken(z');
        }
      } else {
        var y := g.left;
        if y != null && y.isRed {
          Recolor(z, p, y, g);
          z' := g;
        } else {
          z' := z;
          if z == p.left {
            z' := p;
            StraightenRight(p);
          }
          FinishLeft(z', z'.parent, g);
          RedsWeaken(z');
        }
      }
    }

    method BlackenRoot(ghost z: Region)
      requires Links() && z in nodes && RedsBut(z) && root != null && (z.parent != null ==> z.parent in nodes && !z.parent.isRed)
      modifies root`isRed, root`bh
      ensures Reds() && (old(Heights()) ==> Heights())
    {
      assert Linked(root);
      ShortRoot();
      if root.isRed {
        root.bh := root.bh + 1;
      }
      root.isRed := false;
      forall n | n in nodes ensures RedBut(n, null) {
        assert old(Linked(n) && RedBut(n, z));
      }
      if old(Heights()) {
        forall n | n in nodes ensures BlackOk(n) {
          BlackenedHeight(root, n);
        }
      }
    }

    method InsertFixup(z0: Region)
      requires Links() && Threads() && Maxes() && z0 in nodes && z0.isRed && RedsBut(z0)
      modifies this`root, nodes`left, nodes`right, nodes`parent, nodes`lo, nodes`hi, nodes`maxGap, nodes`isRed, nodes`bh
      ensures Links() && Threads() && Maxes() && Reds() && (old(Heights()) ==> Heights())
    {
      var z := z0;
      assert Linked(z);
      while z.parent != null && z.parent.isRed
        invariant Links() && Threads() && Maxes() && z in nodes && z.isRed && RedsBut(z)
        invariant z.parent in nodes + {null}
        invariant old(Heights()) ==> Heights()
        decreases if z.parent != null && z.parent.isRed then limit + 3 - (z.hi - z.lo) else 0
      {
        assert Linked(z);
        z := FixupStep(z);
        assert Linked(z);
      }
      BlackenRoot(z);
    }

    // ---------- insert_region ----------

    ghost predicate Sound()
      reads this`root, this`nodes, this`at, this`ground, nodes
    {
      0 <= limit && Links() && Threads() && Gaps() && Maxes() && Reds() && Heights() && Places()
    }

    ghost predicate Valid()
      reads this, nodes
    {
      Sound() && cursor in nodes + {null}
    }

    // what the tree holds: the region starting at each address
    ghost function Content(): map<int, Info>
      requires Threads()
      reads this`root, this`nodes, this`at, nodes`start, nodes`left, nodes`right, nodes`parent,
            nodes`lo, nodes`hi, nodes`prevKey, nodes`nextKey, nodes`size, nodes`flags, nodes`cache
    {
      map s | s in at :: Info(at[s].size, at[s].flags, at[s].cache)
    }

    // no region meets [s, e)
    ghost predicate Clear(s: int, e: int)
      reads this`nodes, nodes`start, nodes`size
    {
      forall n {:trigger n in nodes} :: n in nodes ==> e <= n.start || n.End() <= s
    }

    // the place that z takes becomes two that count for the same
    twostate predicate Sown(new z: Region)
      reads this`ground, z
    {
      ground == old(ground)[z.start := GroundAt(old(ground), z.prevKey)]
    }

    twostate lemma AttachReds(new z: Region, new y: Region?, s: int, new n: Region)
      requires z in nodes && AttachReady(z, y, s) && n in nodes && z.isRed && old(Reds())
      requires forall m {:trigger m.isRed} :: m in old(nodes) ==> m.isRed == old(m.isRed)
      ensures RedBut(n, z)
    {
      if y != null { assert old(Linked(y)); }
      if n != z { assert old(Linked(n) && RedBut(n, null)); }
    }

    twostate lemma AttachHeight(new z: Region, new y: Region?, s: int, new n: Region)
      requires z in nodes && AttachReady(z, y, s) && n in nodes && z.isRed && old(Heights() && Places())
      requires Sown(z) && z.bh == GroundAt(old(ground), z.prevKey)
      requires forall m {:trigger m.isRed} {:trigger m.bh} :: m in old(nodes) ==> m.isRed == old(m.isRed) && m.bh == old(m.bh)
      ensures BlackOk(n)
    {
      if y != null { assert old(Linked(y) && Threaded(y)); }
      if n != z {
        assert old(Linked(n) && Threaded(n) && BlackOk(n));
      }
    }

    method Place(z: Region)
      requires Links() && Threads() && Reds() && Heights() && Places() && z !in nodes && 0 <= z.start < limit && z.start !in at
      requires z.left == null && z.right == null && z.isRed
      modifies this`root, this`nodes, this`at, this`ground, nodes`left, nodes`right, nodes`prevKey, nodes`nextKey
      modifies z`parent, z`lo, z`hi, z`prevKey, z`nextKey, z`bh
      ensures Links() && Threads() && z in nodes && Attached(z, z.parent)
      ensures RedsBut(z) && Heights() && Places() && Sown(z)
    {
      var y := FindSlot(z.start);
      AttachCounted(z, y);
      AttachRedsAll(z, y, z.start);
      AttachHeights(z, y, z.start);
    }

    method AttachCounted(z: Region, y: Region?)
      requires Links() && Threads() && Places() && z !in nodes && y in nodes + {null} && 0 <= z.start < limit && z.start !in at
      requires Slot(y, z.start) && z.left == null && z.right == null
      modifies this`root, this`nodes, this`at, this`ground, nodes`left, nodes`right, nodes`prevKey, nodes`nextKey
      modifies z`parent, z`lo, z`hi, z`prevKey, z`nextKey, z`bh
      ensures Links() && Threads() && Attached(z, y) && Places() && Sown(z) && z.bh == GroundAt(old(ground), z.prevKey)
    {
      z.bh := Ground(if y == null then -1 else if z.start < y.start then y.lo else y.start);
      ground := ground[z.start := z.bh];
      Attach(z, y);
    }

    twostate lemma AttachRedsAll(new z: Region, new y: Region?, s: int)
      requires z in nodes && AttachReady(z, y, s) && z.isRed && old(Reds())
      requires forall m {:trigger m.isRed} :: m in old(nodes) ==> m.isRed == old(m.isRed)
      ensures RedsBut(z)
    {
      forall n | n in nodes ensures RedBut(n, z) {
        AttachReds(z, y, s, n);
      }
    }

    twostate lemma AttachHeights(new z: Region, new y: Region?, s: int)
      requires z in nodes && AttachReady(z, y, s) && z.isRed && old(Heights() && Places())
      requires Sown(z) && z.bh == GroundAt(old(ground), z.prevKey)
      requires forall m {:trigger m.isRed} {:trigger m.bh} :: m in old(nodes) ==> m.isRed == old(m.isRed) && m.bh == old(m.bh)
      ensures Heights()
    {
      forall n | n in nodes ensures BlackOk(n) {
        AttachHeight(z, y, s, n);
      }
    }

    twostate lemma AttachGaps(new z: Region, new y: Region?)
      requires z in nodes && Attached(z, y) && Threads() && old(Gaps())
      requires forall m {:trigger m.gap} {:trigger m.size} :: m in old(nodes) ==> m.gap == old(m.gap) && m.size == old(m.size)
      ensures forall n {:trigger GapOk(n)} :: n in nodes && n != z && n.start != z.prevKey ==> GapOk(n)
    {
      forall n | n in nodes && n != z && n.start != z.prevKey ensures GapOk(n) {
        assert old(GapOk(n));
      }
    }

    twostate lemma AttachStale(new z: Region, new y: Region?)
      requires z in nodes && Attached(z, y) && Links() && Threads() && old(Maxes())
      requires forall m {:trigger m.gap} {:trigger m.maxGap} :: m in old(nodes) ==> m.gap == old(m.gap) && m.maxGap == old(m.maxGap)
      ensures Stale(z, null)
    {
      forall n | n in nodes ensures MaxOk(n) || Covers(n, z) || Covers(n, null) {
        assert Linked(z) && Linked(n);
        if n != z && n != y {
          assert old(MaxOk(n));
        } else if n == y {
          assert Linked(y);
        }
      }
    }

    // the gaps around a newly linked region
    method SetGaps(z: Region) returns (pred: Region?)
      requires Links() && Threads() && z in nodes
      modifies nodes`gap
      ensures pred in nodes + {null} && (if pred == null then z.prevKey == -1 else pred.start == z.prevKey)
      ensures z.gap == z.nextKey - z.End() && (pred != null ==> pred.gap == pred.nextKey - pred.End())
      ensures forall n {:trigger n.gap} :: n in nodes && n != z && n != pred ==> n.gap == old(n.gap)
    {
      pred := Predecessor(z);
      var succ := Successor(z);
      assert Threaded(z);
      if succ != null {
        z.gap := succ.start - z.End();
      } else {
        z.gap := limit - z.End();
      }
      if pred != null {
        assert Threaded(pred);
        pred.gap := z.start - pred.End();
      }
    }

    // no other region meets z
    ghost predicate Apart(z: Region)
      requires z in nodes
      reads this`nodes, nodes`start, nodes`size
    {
      && 0 < z.size && z.End() <= limit
      && forall n {:trigger n.End()} :: n in nodes && n != z ==> 0 < n.size && (z.End() <= n.start || n.End() <= z.start)
    }

    lemma GapsAround(z: Region, pred: Region?)
      requires Threads() && z in nodes && pred in nodes + {null} && Apart(z)
      requires if pred == null then z.prevKey == -1 else pred.start == z.prevKey
      requires z.gap == z.nextKey - z.End() && (pred != null ==> pred.gap == pred.nextKey - pred.End())
      requires forall n {:trigger GapOk(n)} :: n in nodes && n != z && n != pred ==> GapOk(n)
      ensures Gaps()
    {
      assert Threaded(z);
      if z.nextKey != limit {
        var next := at[z.nextKey];
        assert Threaded(next) && next.End() == next.start + next.size;
      }
      if pred != null {
        assert Threaded(pred) && pred.End() <= z.start;
      }
      forall n | n in nodes ensures GapOk(n) {
      }
    }

    twostate lemma StaleAround(new z: Region, new pred: Region?)
      requires InOld({z}, {pred}) && nodes == old(nodes) && Links() && old(Stale(z, null))
      requires forall n {:trigger n.gap} :: n in nodes && n != z && n != pred ==> n.gap == old(n.gap)
      requires forall n {:trigger n.maxGap} {:trigger n.left} {:trigger n.right} :: n in nodes ==>
        n.maxGap == old(n.maxGap) && n.left == old(n.left) && n.right == old(n.right)
      requires forall n {:trigger n.lo} {:trigger n.hi} {:trigger n.start} :: n in nodes ==>
        n.lo == old(n.lo) && n.hi == old(n.hi) && n.start == old(n.start)
      ensures Stale(pred, z) && (pred == null ==> Stale(z, null))
    {
      forall n | n in nodes ensures MaxOk(n) || Covers(n, pred) || Covers(n, z) {
        assert Linked(n);
        assert old(MaxOk(n)) || !old(MaxOk(n));
      }
    }

    ghost predicate GapsBut(z: Region)
      requires z in nodes
      reads this`nodes, nodes`start, nodes`size, nodes`gap, nodes`nextKey, nodes`prevKey
    {
      forall n {:trigger GapOk(n)} :: n in nodes && n != z && n.start != z.prevKey ==> GapOk(n)
    }

    // link z as a red leaf
    method Link(z: Region)
      requires Sound() && z !in nodes && 0 <= z.start < limit && z.start !in at
      requires z.left == null && z.right == null && z.isRed
      modifies this`root, this`nodes, this`at, this`ground, nodes`left, nodes`right, nodes`prevKey, nodes`nextKey
      modifies z`parent, z`lo, z`hi, z`prevKey, z`nextKey, z`bh
      ensures nodes == old(nodes) + {z} && at == old(at)[z.start := z]
      ensures Links() && Threads() && RedsBut(z) && Heights() && Places() && Sown(z) && GapsBut(z) && Stale(z, null)
    {
      Place(z);
      ghost var y := z.parent;
      AttachGaps(z, y);
      AttachStale(z, y);
    }

    twostate lemma GapsElsewhere(new z: Region, new pred: Region?)
      requires InOld({z}, {pred}) && nodes == old(nodes) && at == old(at) && z in nodes && pred in nodes + {null} && Threads()
      requires old(GapsBut(z)) && (if pred == null then z.prevKey == -1 else pred.start == z.prevKey)
      requires forall n {:trigger n.gap} :: n in nodes && n != z && n != pred ==> n.gap == old(n.gap)
      requires forall n {:trigger n.start} {:trigger n.size} {:trigger n.nextKey} {:trigger n.prevKey} :: n in nodes ==>
        n.start == old(n.start) && n.size == old(n.size) && n.nextKey == old(n.nextKey) && n.prevKey == old(n.prevKey)
      ensures forall n {:trigger GapOk(n)} :: n in nodes && n != z && n != pred ==> GapOk(n)
    {
      forall n | n in nodes && n != z && n != pred ensures GapOk(n) {
        assert Threaded(n) && (pred != null ==> Threaded(pred));
        assert old(GapOk(n));
      }
    }

    // set the two gaps next to z and repair the maxima above them
    method FillGaps(z: Region)
      requires Links() && Threads() && z in nodes && Apart(z) && GapsBut(z) && Stale(z, null)
      modifies nodes`gap, nodes`maxGap
      ensures Gaps() && Maxes()
    {
      var pred := SetGaps(z);
      GapsElsewhere(z, pred);
      GapsAround(z, pred);
      StaleAround(z, pred);
      if pred != null {
        UpdatePathToRoot(pred, z);
      }
      UpdatePathToRoot(z, null);
    }

    // the same for a node that has just been linked
    method FillLinked(z: Region)
      requires Links() && Threads() && RedsBut(z) && Heights() && Places() && z in nodes && Apart(z) && GapsBut(z) && Stale(z, null)
      modifies nodes`gap, nodes`maxGap
      ensures Links() && Threads() && Gaps() && Maxes() && RedsBut(z) && Heights() && Places()
    {
      FillGaps(z);
    }

    lemma ClearKey(s: int, e: int)
      requires Threads() && Gaps() && Clear(s, e) && s < e
      ensures s !in at
      ensures forall n {:trigger n.End()} :: n in nodes ==> 0 < n.size && (e <= n.start || n.End() <= s)
    {
      forall n | n in nodes ensures 0 < n.size {
        assert GapOk(n);
      }
      assert forall n :: n in nodes ==> n.start != s;
    }

    method LinkAndFill(z: Region)
      requires Sound() && z !in nodes && z.left == null && z.right == null && z.isRed
      requires 0 <= z.start && 0 < z.size && z.End() <= limit && Clear(z.start, z.End())
      modifies this`root, this`nodes, this`at, this`ground, nodes`left, nodes`right, nodes`prevKey, nodes`nextKey, nodes`gap, nodes`maxGap
      modifies z`parent, z`lo, z`hi, z`prevKey, z`nextKey, z`bh, z`gap, z`maxGap
      ensures Links() && Threads() && Gaps() && Maxes() && RedsBut(z) && Heights() && Places() && Sown(z)
      ensures at == old(at)[z.start := z] && nodes == old(nodes) + {z}
    {
      ClearKey(z.start, z.End());
      Link(z);
      FillLinked(z);
    }

    method InsertNode(z: Region)
      requires Sound() && z !in nodes && z.left == null && z.right == null && z.isRed
      requires 0 <= z.start && 0 < z.size && z.End() <= limit && Clear(z.start, z.End())
      modifies this`root, this`nodes, this`at, this`ground, nodes`left, nodes`right, nodes`parent, nodes`lo, nodes`hi, nodes`prevKey, nodes`nextKey
      modifies nodes`gap, nodes`maxGap, nodes`isRed, nodes`bh
      modifies z`left, z`right, z`parent, z`lo, z`hi, z`prevKey, z`nextKey, z`gap, z`maxGap, z`isRed, z`bh
      ensures Sound() && Sown(z)
      ensures at == old(at)[z.start := z] && nodes == old(nodes) + {z}
    {
      LinkAndFill(z);
      InsertFixup(z);
    }

    method Insert(start: int, size: int, flags: bv8, cache: CacheType)
      requires Valid() && 0 <= start && 0 < size && start + size <= limit && Clear(start, start + size)
      modifies this, nodes`left, nodes`right, nodes`parent, nodes`lo, nodes`hi, nodes`prevKey, nodes`nextKey
      modifies nodes`gap, nodes`maxGap, nodes`isRed, nodes`bh
      ensures Valid() && (old(Balanced()) ==> Balanced())
      ensures start in at && Sown(at[start])
      ensures start in at && fresh(at[start]) && cursor == at[start] && nodes == old(nodes) + {at[start]}
      ensures Content() == old(Content())[start := Info(size, flags, cache)]
    {
      ghost var content := Content();
      var z := new Region(start, size, flags, cache);
      assert Content() == content;
      InsertAtCursor(z);
    }

    method InsertAtCursor(z: Region)
      requires Sound() && z !in nodes && z.left == null && z.right == null && z.isRed
      requires 0 <= z.start && 0 < z.size && z.End() <= limit && Clear(z.start, z.End())
      modifies this, nodes`left, nodes`right, nodes`parent, nodes`lo, nodes`hi, nodes`prevKey, nodes`nextKey
      modifies nodes`gap, nodes`maxGap, nodes`isRed, nodes`bh
      modifies z`left, z`right, z`parent, z`lo, z`hi, z`prevKey, z`nextKey, z`gap, z`maxGap, z`isRed, z`bh
      ensures Valid() && Sown(z) && (old(Balanced()) ==> Balanced())
      ensures at == old(at)[z.start := z] && nodes == old(nodes) + {z} && cursor == z
      ensures Content() == old(Content())[z.start := Info(z.size, z.flags, z.cache)]
    {
      ghost var content := Content();
      cursor := z;
      assert Content() == content;
      InsertContent(z);
    }

    twostate lemma SownLevel(new z: Region)
      requires z in nodes && Threads() && Sown(z) && at == old(at)[z.start := z] && old(Places() && Level(ground))
      ensures Level(ground)
    {
      assert Threaded(z);
    }

    method InsertContent(z: Region)
      requires Sound() && z !in nodes && z.left == null && z.right == null && z.isRed
      requires 0 <= z.start && 0 < z.size && z.End() <= limit && Clear(z.start, z.End())
      modifies this`root, this`nodes, this`at, this`ground, nodes`left, nodes`right, nodes`parent, nodes`lo, nodes`hi, nodes`prevKey, nodes`nextKey
      modifies nodes`gap, nodes`maxGap, nodes`isRed, nodes`bh
      modifies z`left, z`right, z`parent, z`lo, z`hi, z`prevKey, z`nextKey, z`gap, z`maxGap, z`isRed, z`bh
      ensures Sound() && Sown(z) && (old(Balanced()) ==> Balanced())
      ensures at == old(at)[z.start := z] && nodes == old(nodes) + {z}
      ensures Content() == old(Content())[z.start := Info(z.size, z.flags, z.cache)]
    {
      InsertNode(z);
      AddedContent(z);
      if old(Balanced()) { SownLevel(z); }
    }

    twostate lemma AddedContent(new z: Region)
      requires z in nodes && nodes == old(nodes) + {z} && at == old(at)[z.start := z] && old(Threads()) && Threads()
      requires forall n {:trigger n.size} {:trigger n.flags} {:trigger n.cache} :: n in old(nodes) ==>
        n.size == old(n.size) && n.flags == old(n.flags) && n.cache == old(n.cache)
      ensures Content() == old(Content())[z.start := Info(z.size, z.flags, z.cache)]
    {
      var target := old(Content())[z.start := Info(z.size, z.flags, z.cache)];
      var now, was := Content(), old(Content());
      assert now.Keys == at.Keys;
      assert was.Keys == old(at).Keys;
      assert target.Keys == was.Keys + {z.start};
      assert now.Keys == target.Keys;
      forall s | s in at ensures now[s] == target[s] {
        if s != z.start {
          assert old(at[s] in nodes);
        }
      }
    }

    // ---------- deletion: taking a node out of the links ----------

    // y, which has at most the child x, is replaced by x under its parent q
    twostate predicate Spliced(new y: Region, new x: Region?, new q: Region?)
      reads this`root, this`nodes, nodes`left, nodes`right, nodes`parent
    {
      && y in old(nodes) && nodes == old(nodes) - {y}
      && root == (if q == null then x else old(root))
      && (forall n {:trigger n.left} :: n in nodes ==>
           n.left == (if n == q && old(n.left) == y then x else old(n.left)))
      && (forall n {:trigger n.right} :: n in nodes ==>
           n.right == (if n == q && old(n.left) != y then x else old(n.right)))
      && (forall n {:trigger n.parent} :: n in nodes ==> n.parent == (if n == x then q else old(n.parent)))
    }

    // z itself was spliced out
    twostate predicate Removed(new z: Region, s: int, lo: int, hi: int, prev: int, next: int)
      reads this`nodes, this`at, nodes`start, nodes`lo, nodes`hi, nodes`prevKey, nodes`nextKey
    {
      && nodes <= old(nodes) && at == old(at) - {s}
      && (forall n {:trigger n.start} :: n in nodes ==> n.start == old(n.start))
      && (forall n {:trigger n.lo} :: n in nodes ==> n.lo == (if old(n.lo) == s then lo else old(n.lo)))
      && (forall n {:trigger n.hi} :: n in nodes ==> n.hi == (if old(n.hi) == s then hi else old(n.hi)))
      && (forall n {:trigger n.prevKey} :: n in nodes ==> n.prevKey == (if n.start == next then prev else old(n.prevKey)))
      && (forall n {:trigger n.nextKey} :: n in nodes ==> n.nextKey == (if n.start == prev then next else old(n.nextKey)))
    }

    ghost predicate Removable(z: Region, x: Region?, q: Region?)
      reads this`root, this`nodes, this`at, nodes`start, nodes`left, nodes`right, nodes`parent,
            nodes`lo, nodes`hi, nodes`prevKey, nodes`nextKey
    {
      && Links() && Threads() && z in nodes && q == z.parent
      && ((z.left == null && x == z.right) || (z.right == null && x == z.left))
    }

    twostate predicate RemovedReady(new z: Region, new x: Region?, new q: Region?)
      reads this`root, this`nodes, this`at, nodes`start, nodes`left, nodes`right, nodes`parent,
            nodes`lo, nodes`hi, nodes`prevKey, nodes`nextKey
    {
      && InOld({z}, {x, q}) && old(Removable(z, x, q)) && Spliced(z, x, q)
      && Removed(z, old(z.start), old(z.lo), old(z.hi), old(z.prevKey), old(z.nextKey))
    }

    twostate lemma RemovedLinked(new z: Region, new x: Region?, new q: Region?, new n: Region)
      requires RemovedReady(z, x, q) && n in nodes
      ensures LeftOk(n) && RightOk(n)
    {
      assert old(Linked(z) && Threaded(z) && Linked(n) && Threaded(n));
      if q != null { assert old(Linked(q) && Threaded(q)); }
      if x != null { assert old(Linked(x)); }
    }

    twostate lemma RemovedParent(new z: Region, new x: Region?, new q: Region?, new n: Region)
      requires RemovedReady(z, x, q) && n in nodes
      ensures -1 <= n.lo < n.start < n.hi <= limit && ParentOk(n)
    {
      assert old(Linked(z) && Linked(n));
      if q != null { assert old(Linked(q)); }
      if x != null { assert old(Linked(x)); }
    }

    twostate lemma RemovedThreaded(new z: Region, new x: Region?, new q: Region?, new n: Region)
      requires RemovedReady(z, x, q) && n in nodes
      ensures Threaded(n) && Adjacent(n)
    {
      assert old(Linked(z) && Threaded(z) && Adjacent(z) && Threaded(n) && Adjacent(n));
      if q != null { assert old(Linked(q) && Threaded(q)); }
    }

    // z has taken over the region of its successor y, which was spliced out
    twostate predicate Moved(new z: Region, s: int, prev: int, s': int, next': int)
      reads this`nodes, this`at, nodes`start, nodes`lo, nodes`hi, nodes`prevKey, nodes`nextKey
    {
      && nodes <= old(nodes) && at == (old(at) - {s})[s' := z]
      && (forall n {:trigger n.start} :: n in nodes ==> n.start == (if n == z then s' else old(n.start)))
      && (forall n {:trigger n.lo} :: n in nodes ==> n.lo == (if old(n.lo) == s then s' else old(n.lo)))
      && (forall n {:trigger n.hi} :: n in nodes ==> n.hi == (if old(n.hi) == s then s' else old(n.hi)))
      && (forall n {:trigger n.prevKey} :: n in nodes ==> n.prevKey == old(n.prevKey))
      && (forall n {:trigger n.nextKey} :: n in nodes ==>
           n.nextKey == (if n == z then next' else if old(n.start) == prev then s' else old(n.nextKey)))
    }

    ghost predicate Movable(z: Region, y: Region, x: Region?, q: Region?)
      reads this`root, this`nodes, this`at, nodes`start, nodes`left, nodes`right, nodes`parent,
            nodes`lo, nodes`hi, nodes`prevKey, nodes`nextKey
    {
      && Links() && Threads() && z in nodes && y in nodes && z != y && y.left == null && y.start == z.nextKey
      && z.left != null && z.right != null && x == y.right && q == y.parent
    }

    twostate predicate MovedReady(new z: Region, new y: Region, new x: Region?, new q: Region?)
      reads this`root, this`nodes, this`at, nodes`start, nodes`left, nodes`right, nodes`parent,
            nodes`lo, nodes`hi, nodes`prevKey, nodes`nextKey
    {
      && InOld({z, y}, {x, q}) && old(Movable(z, y, x, q)) && Spliced(y, x, q) && z in nodes
      && Moved(z, old(z.start), old(z.prevKey), old(y.start), old(y.nextKey))
    }

    twostate lemma MovedLinked(new z: Region, new y: Region, new x: Region?, new q: Region?, new n: Region)
      requires MovedReady(z, y, x, q) && n in nodes
      ensures LeftOk(n) && RightOk(n)
    {
      assert old(Linked(z) && Threaded(z) && Linked(y) && Threaded(y) && Linked(n) && Threaded(n));
      if q != null { assert old(Linked(q) && Threaded(q)); }
      if x != null { assert old(Linked(x)); }
    }

    twostate lemma MovedParent(new z: Region, new y: Region, new x: Region?, new q: Region?, new n: Region)
      requires MovedReady(z, y, x, q) && n in nodes
      ensures -1 <= n.lo < n.start < n.hi <= limit && ParentOk(n)
    {
      assert old(Linked(z) && Linked(y) && Threaded(z) && Threaded(y) && Linked(n) && Threaded(n) && Adjacent(z));
      assert old(Linked(z.right) && Threaded(z.right));
      if q != null { assert old(Linked(q)); }
      if x != null { assert old(Linked(x)); }
    }

    twostate lemma MovedThreaded(new z: Region, new y: Region, new x: Region?, new q: Region?, new n: Region)
      requires MovedReady(z, y, x, q) && n in nodes
      ensures Threaded(n)
    {
      assert old(Linked(z) && Threaded(z) && Adjacent(z) && Linked(y) && Threaded(y) && Adjacent(y));
      assert old(Threaded(n) && Adjacent(n));
      if q != null { assert old(Linked(q) && Threaded(q)); }
    }

    twostate lemma MovedAdjacent(new z: Region, new y: Region, new x: Region?, new q: Region?, new n: Region)
      requires MovedReady(z, y, x, q) && n in nodes
      ensures Adjacent(n)
    {
      assert old(Threaded(z) && Adjacent(z) && Threaded(y) && Adjacent(y) && Threaded(n) && Adjacent(n));
    }

    twostate lemma RemovedKeeps(new z: Region, new x: Region?, new q: Region?)
      requires RemovedReady(z, x, q)
      requires q == null && x == null ==> old(nodes) == {z}
      ensures Links() && Threads()
    {
      assert old(Linked(z) && Threaded(z));
      if x != null { assert old(Linked(x)); }
      forall n | n in nodes ensures Linked(n) && Threaded(n) && Adjacent(n) {
        RemovedLinked(z, x, q, n);
        RemovedParent(z, x, q, n);
        RemovedThreaded(z, x, q, n);
      }
      forall s | s in at ensures at[s] in nodes && at[s].start == s {
        assert old(at[s] in nodes && at[s].start == s);
      }
    }

    twostate lemma MovedAt(new z: Region, new y: Region, new x: Region?, new q: Region?)
      requires MovedReady(z, y, x, q)
      ensures forall s {:trigger at[s]} :: s in at ==> at[s] in nodes && at[s].start == s
    {
      assert old(Threaded(z) && Threaded(y));
      forall s | s in at ensures at[s] in nodes && at[s].start == s {
        if s != z.start {
          assert old(at[s] in nodes && at[s].start == s);
        }
      }
    }

    twostate lemma MovedRoot(new z: Region, new y: Region, new x: Region?, new q: Region?)
      requires MovedReady(z, y, x, q)
      ensures RootOk()
    {
      assert old(Linked(z) && Linked(y) && Threaded(z) && Threaded(y));
    }

    twostate lemma MovedKeeps(new z: Region, new y: Region, new x: Region?, new q: Region?)
      requires MovedReady(z, y, x, q)
      ensures Links() && Threads()
    {
      MovedAt(z, y, x, q);
      MovedRoot(z, y, x, q);
      forall n | n in nodes ensures Linked(n) && Threaded(n) && Adjacent(n) {
        MovedLinked(z, y, x, q, n);
        MovedParent(z, y, x, q, n);
        MovedThreaded(z, y, x, q, n);
        MovedAdjacent(z, y, x, q, n);
      }
    }

    lemma SpliceDistinct(y: Region, x: Region?)
      requires Links() && y in nodes && ((y.left == null && x == y.right) || (y.right == null && x == y.left))
      ensures x in nodes + {null} && y.parent in nodes + {null} && x != y && y.parent != y
      ensures x != null ==> x != y.parent
      ensures y.parent != null && y.parent.left != y ==> y.parent.right == y
    {
      assert Linked(y);
      if y.parent != null { assert Linked(y.parent); }
    }

    // the pointer surgery of delete_node
    method SpliceOut(y: Region) returns (x: Region?)
      requires Links() && y in nodes && (y.left == null || y.right == null)
      modifies this`root, this`nodes, nodes`left, nodes`right, nodes`parent
      ensures x == if old(y.left) != null then old(y.left) else old(y.right)
      ensures Spliced(y, x, old(y.parent))
    {
      if y.left != null {
        x := y.left;
      } else {
        x := y.right;
      }
      SpliceDistinct(y, x);
      if x != null {
        x.parent := y.parent;
      }
      if y.parent == null {
        root := x;
      } else if y == y.parent.left {
        y.parent.left := x;
      } else {
        y.parent.right := x;
      }
      nodes := nodes - {y};
    }

    lemma OnlyRoot(z: Region)
      requires Links() && Threads() && z in nodes && z.parent == null && z.left == null && z.right == null
      ensures nodes == {z}
    {
      assert Linked(z);
      forall n | n in nodes ensures n == z {
        RootCovers(n);
        Locate(z, n);
        assert Threaded(n) && Threaded(z);
      }
    }

    method Remove(z: Region) returns (x: Region?)
      requires Links() && Threads() && z in nodes && (z.left == null || z.right == null)
      modifies this`root, this`nodes, this`at, nodes`left, nodes`right, nodes`parent
      modifies nodes`lo, nodes`hi, nodes`prevKey, nodes`nextKey
      ensures Links() && Threads()
      ensures x == if old(z.left) != null then old(z.left) else old(z.right)
      ensures RemovedReady(z, x, old(z.parent))
    {
      ghost var q := z.parent;
      assert Linked(z);
      if z.parent == null && z.left == null && z.right == null {
        OnlyRoot(z);
      }
      x := SpliceOut(z);
      Relabel(z);
      RemovedKeeps(z, x, q);
    }

    ghost method Relabel(z: Region)
      requires z !in nodes
      modifies this`at, nodes`lo, nodes`hi, nodes`prevKey, nodes`nextKey
      ensures Removed(z, z.start, z.lo, z.hi, z.prevKey, z.nextKey)
    {
      at := at - {z.start};
      forall n | n in nodes && n.lo == z.start { n.lo := z.lo; }
      forall n | n in nodes && n.hi == z.start { n.hi := z.hi; }
      forall n | n in nodes && n.start == z.nextKey { n.prevKey := z.prevKey; }
      forall n | n in nodes && n.start == z.prevKey { n.nextKey := z.nextKey; }
    }

    // z takes over the region of y
    method CopyPayload(z: Region, y: Region)
      requires z != y
      modifies z`start, z`size, z`flags, z`cache, z`gap
      ensures z.start == y.start && z.size == y.size && z.flags == y.flags && z.cache == y.cache && z.gap == y.gap
    {
      z.start := y.start;
      z.size := y.size;
      z.flags := y.flags;
      z.cache := y.cache;
      z.gap := y.gap;
    }

    ghost method RelabelMoved(z: Region, s: int, prev: int, s': int, next': int)
      requires z in nodes && s < s'
      modifies this`at, nodes`lo, nodes`hi, nodes`nextKey
      ensures at == (old(at) - {s})[s' := z]
      ensures forall n {:trigger n.lo} :: n in nodes ==> n.lo == (if old(n.lo) == s then s' else old(n.lo))
      ensures forall n {:trigger n.hi} :: n in nodes ==> n.hi == (if old(n.hi) == s then s' else old(n.hi))
      ensures forall n {:trigger n.nextKey} :: n in nodes ==>
        n.nextKey == (if n == z then next' else if old(n.start) == prev then s' else old(n.nextKey))
    {
      at := (at - {s})[s' := z];
      forall n | n in nodes && n.lo == s { n.lo := s'; }
      forall n | n in nodes && n.hi == s { n.hi := s'; }
      forall n | n in nodes && n.start == prev { n.nextKey := s'; }
      z.nextKey := next';
    }

    method MoveUp(z: Region, y: Region) returns (x: Region?)
      requires Movable(z, y, y.right, y.parent)
      modifies this`root, this`nodes, this`at, nodes`left, nodes`right, nodes`parent
      modifies nodes`lo, nodes`hi, nodes`nextKey, z`start, z`size, z`flags, z`cache, z`gap
      ensures Links() && Threads() && x == old(y.right) && MovedReady(z, y, x, old(y.parent))
      ensures z.size == y.size && z.flags == y.flags && z.cache == y.cache && z.gap == y.gap
    {
      ghost var q := y.parent;
      assert Linked(y) && Threaded(z) && Threaded(y);
      x := SpliceOut(y);
      TakeOver(z, y);
      MovedKeeps(z, y, x, q);
    }

    method TakeOver(z: Region, y: Region)
      requires z in nodes && y !in nodes && z.start < y.start
      modifies this`at, nodes`lo, nodes`hi, nodes`nextKey, z`start, z`size, z`flags, z`cache, z`gap
      ensures Moved(z, old(z.start), old(z.prevKey), y.start, y.nextKey)
      ensures z.size == y.size && z.flags == y.flags && z.cache == y.cache && z.gap == y.gap
    {
      RelabelMoved(z, z.start, z.prevKey, y.start, y.nextKey);
      CopyPayload(z, y);
    }

    // ---------- delete_fixup ----------

    // no red node has a red child, apart from x and the children of x
    ghost predicate RedsAround(x: Region)
      reads this`root, this`nodes, nodes`left, nodes`right, nodes`isRed
    {
      && root in nodes + {null} && (root != x ==> !IsRed(root))
      && forall n {:trigger RedBut(n, x)} :: n in nodes && n != x ==> RedBut(n, x)
    }

    lemma AroundBlack(x: Region)
      requires Links() && x in nodes && RedsAround(x) && !x.isRed
      ensures Reds()
    {
      forall n | n in nodes ensures RedBut(n, null) {
        assert Linked(n);
        assert n != x ==> RedBut(n, x);
      }
    }

    twostate lemma FinishLPair(new x: Region, new y: Region, new p: Region?, new b: Region?, new d: Region?, new n: Region)
      requires InOld({x, y, n}, {p, b, d}) && old(RotLReady(x, y, p, b)) && RotatedLeft(x, y, p, b)
      requires old(!x.isRed && y.isRed && Short(d)) && d != x && d != y
      requires forall m {:trigger m.isRed} :: m in nodes ==> m.isRed == (if m == x then true else if m == y then false else old(m.isRed))
      requires forall m {:trigger m.bh} :: m in nodes ==> m.bh == (if m == x then old(m.bh) - 1 else if m == y then old(m.bh) + 1 else old(m.bh))
      requires n == x || n == y
      ensures ShortOk(n, d)
    {
      assert old(Linked(x) && Linked(y) && ShortOk(x, d) && ShortOk(y, d));
    }

    twostate lemma FinishLRest(new x: Region, new y: Region, new p: Region?, new b: Region?, new d: Region?, new n: Region)
      requires InOld({x, y, n}, {p, b, d}) && old(RotLReady(x, y, p, b)) && RotatedLeft(x, y, p, b)
      requires old(!x.isRed && y.isRed && Short(d)) && d != x && d != y
      requires forall m {:trigger m.isRed} :: m in nodes ==> m.isRed == (if m == x then true else if m == y then false else old(m.isRed))
      requires forall m {:trigger m.bh} :: m in nodes ==> m.bh == (if m == x then old(m.bh) - 1 else if m == y then old(m.bh) + 1 else old(m.bh))
      requires n != x && n != y
      ensures ShortOk(n, d)
    {
      assert old(Linked(x) && Linked(y) && Linked(n) && ShortOk(n, d));
      if n == p {
        assert old(ShortOk(x, d));
      } else {
        assert n.left == old(n.left) && n.right == old(n.right);
      }
    }

    twostate lemma FinishLShort(new x: Region, new y: Region, new p: Region?, new b: Region?, new d: Region?, new n: Region)
      requires InOld({x, y, n}, {p, b, d}) && old(RotLReady(x, y, p, b)) && RotatedLeft(x, y, p, b)
      requires old(!x.isRed && y.isRed && Short(d)) && d != x && d != y
      requires forall m {:trigger m.isRed} :: m in nodes ==> m.isRed == (if m == x then true else if m == y then false else old(m.isRed))
      requires forall m {:trigger m.bh} :: m in nodes ==> m.bh == (if m == x then old(m.bh) - 1 else if m == y then old(m.bh) + 1 else old(m.bh))
      ensures ShortOk(n, d)
    {
      if n == x || n == y {
        FinishLPair(x, y, p, b, d, n);
      } else {
        FinishLRest(x, y, p, b, d, n);
      }
    }

    twostate lemma FinishLShortAll(new x: Region, new y: Region, new p: Region?, new b: Region?, new d: Region?)
      requires InOld({x, y}, {p, b, d}) && old(RotLReady(x, y, p, b)) && RotatedLeft(x, y, p, b)
      requires old(!x.isRed && y.isRed) && d != x && d != y
      requires forall m {:trigger m.isRed} :: m in nodes ==> m.isRed == (if m == x then true else if m == y then false else old(m.isRed))
      requires forall m {:trigger m.bh} :: m in nodes ==> m.bh == (if m == x then old(m.bh) - 1 else if m == y then old(m.bh) + 1 else old(m.bh))
      ensures old(Short(d)) ==> Short(d)
    {
      if old(Short(d)) {
        forall n | n in nodes ensures ShortOk(n, d) {
          FinishLShort(x, y, p, b, d, n);
        }
      }
    }

    twostate lemma LiftLPair(new x: Region, new y: Region, new p: Region?, new b: Region?, new r: Region, new d: Region, new n: Region)
      requires InOld({x, y, r, d, n}, {p, b}) && old(RotLReady(x, y, p, b)) && RotatedLeft(x, y, p, b)
      requires old(!y.isRed && y.right == r && r.isRed && x.left == d && Short(d))
      requires forall m {:trigger m.isRed} :: m in nodes ==>
        m.isRed == (if m == y then old(x.isRed) else if m == x || m == r then false else old(m.isRed))
      requires forall m {:trigger m.bh} :: m in nodes ==>
        m.bh == (if m == y then old(x.bh) else if m == x then old(y.bh) else if m == r then old(m.bh) + 1 else old(m.bh))
      requires n == x || n == y || n == r
      ensures BlackOk(n)
    {
      assert old(Linked(x) && Linked(y) && Linked(r) && Linked(d));
      assert old(ShortOk(x, d) && ShortOk(y, d) && ShortOk(r, d));
    }

    twostate lemma LiftLRest(new x: Region, new y: Region, new p: Region?, new b: Region?, new r: Region, new d: Region, new n: Region)
      requires InOld({x, y, r, d, n}, {p, b}) && old(RotLReady(x, y, p, b)) && RotatedLeft(x, y, p, b)
      requires old(!y.isRed && y.right == r && r.isRed && x.left == d && Short(d))
      requires forall m {:trigger m.isRed} :: m in nodes ==>
        m.isRed == (if m == y then old(x.isRed) else if m == x || m == r then false else old(m.isRed))
      requires forall m {:trigger m.bh} :: m in nodes ==>
        m.bh == (if m == y then old(x.bh) else if m == x then old(y.bh) else if m == r then old(m.bh) + 1 else old(m.bh))
      requires n != x && n != y && n != r
      ensures BlackOk(n)
    {
      assert old(Linked(x) && Linked(y) && Linked(n) && Linked(r) && Linked(d) && ShortOk(n, d));
      if n != p {
        assert n.left == old(n.left) && n.right == old(n.right);
      }
    }

    // the sibling's red child turns black under it, and the node that was short comes below one more
    twostate lemma LiftLShort(new x: Region, new y: Region, new p: Region?, new b: Region?, new r: Region, new d: Region, new n: Region)
      requires InOld({x, y, r, d, n}, {p, b}) && old(RotLReady(x, y, p, b)) && RotatedLeft(x, y, p, b)
      requires old(!y.isRed && y.right == r && r.isRed && x.left == d && Short(d))
      requires forall m {:trigger m.isRed} :: m in nodes ==>
        m.isRed == (if m == y then old(x.isRed) else if m == x || m == r then false else old(m.isRed))
      requires forall m {:trigger m.bh} :: m in nodes ==>
        m.bh == (if m == y then old(x.bh) else if m == x then old(y.bh) else if m == r then old(m.bh) + 1 else old(m.bh))
      ensures BlackOk(n)
    {
      if n == x || n == y || n == r {
        LiftLPair(x, y, p, b, r, d, n);
      } else {
        LiftLRest(x, y, p, b, r, d, n);
      }
    }

    twostate lemma LiftLShortAll(new x: Region, new y: Region, new p: Region?, new b: Region?, new r: Region, new d: Region)
      requires InOld({x, y, r, d}, {p, b}) && old(RotLReady(x, y, p, b)) && RotatedLeft(x, y, p, b)
      requires old(!y.isRed && y.right == r && r.isRed && x.left == d)
      requires forall m {:trigger m.isRed} :: m in nodes ==>
        m.isRed == (if m == y then old(x.isRed) else if m == x || m == r then false else old(m.isRed))
      requires forall m {:trigger m.bh} :: m in nodes ==>
        m.bh == (if m == y then old(x.bh) else if m == x then old(y.bh) else if m == r then old(m.bh) + 1 else old(m.bh))
      ensures old(Short(d)) ==> Heights()
    {
      if old(Short(d)) {
        forall n | n in nodes ensures BlackOk(n) {
          LiftLShort(x, y, p, b, r, d, n);
        }
      }
    }

    // the sibling is red: it moves up, black, over a red parent
    method RaiseSiblingLeft(x: Region, p: Region, w: Region, ghost u: Region?, ghost v: Region?)
      requires Links() && Threads() && Reds() && u in nodes + {null} && v in nodes + {null} && Stale(u, v)
      requires x in nodes && p in nodes && w in nodes && p.left == x && p.right == w && !x.isRed && w.isRed
      modifies this`root, nodes`left, nodes`right, nodes`parent, nodes`lo, nodes`hi, nodes`maxGap, nodes`isRed, nodes`bh
      ensures Links() && Threads() && Reds() && Stale(u, v)
      ensures x.parent == p && p.left == x && p.right == old(w.left) && p.isRed && !x.isRed && p.right in nodes + {null} && !IsRed(p.right)
      ensures old(Short(x)) ==> Short(x)
    {
      RotLDistinct(p);
      assert Linked(p) && Linked(w) && RedBut(p, null);
      ghost var q, b := p.parent, w.left;
      ExchangeColours(w, p);
      RotateLeft(p, u, v);
      FinishLRedsAll(p, w, q, b, null);
      FinishLShortAll(p, w, q, b, x);
      assert Linked(p) && RedBut(p, null);
    }

    // the nearer nephew is red and the other is not: the nephew becomes the sibling
    method RaiseNephewLeft(x: Region, p: Region, w: Region, ghost u: Region?, ghost v: Region?)
      requires Links() && Threads() && Reds() && u in nodes + {null} && v in nodes + {null} && Stale(u, v)
      requires x in nodes && p in nodes && w in nodes && p.left == x && p.right == w && !x.isRed && !w.isRed
      requires w.left != null && w.left in nodes && w.left.isRed && w.right in nodes + {null} && !IsRed(w.right)
      modifies this`root, nodes`left, nodes`right, nodes`parent, nodes`lo, nodes`hi, nodes`maxGap, nodes`isRed, nodes`bh
      ensures Links() && Threads() && Reds() && Stale(u, v)
      ensures x.parent == p && p.left == x && !x.isRed && p.isRed == old(p.isRed)
      ensures p.right == old(w.left) && p.right in nodes && !p.right.isRed && p.right.right == w && w.isRed
      ensures old(Short(x)) ==> Short(x)
    {
      RotRDistinct(w);
      assert Linked(p) && Linked(w) && Linked(x) && Linked(w.left);
      ghost var y, b := w.left, w.left.right;
      ExchangeColours(w.left, w);
      RotateRight(w, u, v);
      FinishRRedsAll(w, y, p, b, null);
      FinishRShortAll(w, y, p, b, x);
    }

    // the farther nephew r is red: the sibling takes the parent's place and colour
    twostate lemma LiftLReds(new x: Region, new y: Region, new p: Region?, new b: Region?, new r: Region, new n: Region)
      requires InOld({x, y, r, n}, {p, b}) && old(RotLReady(x, y, p, b)) && RotatedLeft(x, y, p, b)
      requires old(Reds() && !y.isRed && y.right == r)
      requires forall m {:trigger m.isRed} :: m in nodes ==>
        m.isRed == (if m == y then old(x.isRed) else if m == x || m == r then false else old(m.isRed))
      ensures RedBut(n, null)
    {
      assert old(Linked(x) && Linked(y) && Linked(n));
      assert old(RedBut(n, null) && RedBut(x, null));
      if p != null { assert old(Linked(p) && RedBut(p, null)); }
    }

    twostate lemma LiftLRedsAll(new x: Region, new y: Region, new p: Region?, new b: Region?, new r: Region)
      requires InOld({x, y, r}, {p, b}) && old(RotLReady(x, y, p, b)) && RotatedLeft(x, y, p, b)
      requires old(Reds() && !y.isRed && y.right == r)
      requires forall m {:trigger m.isRed} :: m in nodes ==>
        m.isRed == (if m == y then old(x.isRed) else if m == x || m == r then false else old(m.isRed))
      ensures Reds()
    {
      assert old(Linked(x) && Linked(y));
      forall n | n in nodes ensures RedBut(n, null) {
        LiftLReds(x, y, p, b, r, n);
      }
    }

    method LiftColours(p: Region, w: Region, r: Region)
      requires p != w && p != r && w != r
      modifies p`isRed, w`isRed, r`isRed, p`bh, w`bh, r`bh
      ensures w.isRed == old(p.isRed) && !p.isRed && !r.isRed
      ensures w.bh == old(p.bh) && p.bh == old(w.bh) && r.bh == old(r.bh) + 1
    {
      w.isRed := p.isRed;
      p.isRed := false;
      r.isRed := false;
      w.bh, p.bh, r.bh := p.bh, w.bh, r.bh + 1;
    }

    method LiftSiblingLeft(ghost x: Region, p: Region, w: Region, ghost u: Region?, ghost v: Region?)
      requires Links() && Threads() && Reds() && u in nodes + {null} && v in nodes + {null} && Stale(u, v)
      requires x in nodes && p in nodes && w in nodes && p.left == x && p.right == w && !w.isRed
      requires w.right != null && w.right in nodes && w.right.isRed
      modifies this`root, nodes`left, nodes`right, nodes`parent, nodes`lo, nodes`hi, nodes`maxGap, nodes`isRed, nodes`bh
      ensures Links() && Threads() && Reds() && Stale(u, v) && root != null && root in nodes && (old(Short(x)) ==> Heights())
    {
      RotLDistinct(p);
      assert Linked(p) && Linked(w);
      ghost var q, b, r := p.parent, w.left, w.right;
      LiftColours(p, w, w.right);
      RotateLeft(p, u, v);
      LiftLRedsAll(p, w, q, b, r);
      LiftLShortAll(p, w, q, b, r, x);
    }

    ghost function Sibling(x: Region): Region?
      requires x.parent != null
      reads x`parent, x.parent`left, x.parent`right
    {
      if x == x.parent.left then x.parent.right else x.parent.left
    }

    // the sibling reads of one turn of delete_fixup meet no null pointer
    ghost predicate SiblingOk(x: Region)
      requires Links() && x in nodes && x.parent != null
      reads this`root, this`nodes, this`at, nodes`start, nodes`left, nodes`right, nodes`parent,
            nodes`lo, nodes`hi, nodes`prevKey, nodes`nextKey, nodes`isRed
    {
      assert Linked(x) && Linked(x.parent);
      var w := Sibling(x);
      w != null && (w.isRed ==> (if x == x.parent.left then w.left else w.right) != null)
    }

    // that turn only reddens the sibling and passes the problem to the parent
    ghost predicate PassesUp(x: Region)
      requires Links() && x in nodes && x.parent != null
      reads this`root, this`nodes, this`at, nodes`start, nodes`left, nodes`right, nodes`parent,
            nodes`lo, nodes`hi, nodes`prevKey, nodes`nextKey, nodes`isRed
    {
      assert Linked(x) && Linked(x.parent);
      var w := Sibling(x);
      if w != null then
        assert Linked(w);
        !w.isRed && !IsRed(w.left) && !IsRed(w.right)
      else
        false
    }

    // delete_fixup started at x reads no null sibling
    ghost predicate FixupSafe(x: Region)
      requires Links() && x in nodes
      reads this`root, this`nodes, this`at, nodes`start, nodes`left, nodes`right, nodes`parent,
            nodes`lo, nodes`hi, nodes`prevKey, nodes`nextKey, nodes`isRed
      decreases limit + 1 - (x.hi - x.lo)
    {
      x == root || x.isRed ||
      (assert Linked(x) && Linked(x.parent);
       SiblingOk(x) && (PassesUp(x) ==> FixupSafe(x.parent)))
    }

    // where all places count for the same, no subtree counts for less
    lemma {:induction false} AboveGround(n: Region, d: Region?)
      requires Links() && Threads() && Places() && Level(ground) && n in nodes
      requires forall m {:trigger ShortOk(m, d)} :: m in nodes ==> ShortOk(m, d)
      ensures n.bh >= ground[-1]
      decreases n.hi - n.lo
    {
      assert Linked(n) && Threaded(n) && ShortOk(n, d);
      if n.left != null {
        assert Linked(n.left);
        AboveGround(n.left, d);
      }
    }

    // the sibling of a short black node is there then, and if it is red so are its children
    lemma ShortSibling(x: Region)
      requires Links() && Threads() && x in nodes && !x.isRed && x.parent != null
      ensures Short(x) && Places() && Level(ground) ==> SiblingOk(x)
    {
      assert Linked(x) && Linked(x.parent) && Threaded(x) && Threaded(x.parent);
      if Short(x) && Places() && Level(ground) {
        assert ShortOk(x, x) && ShortOk(x.parent, x);
        if x.left != null { AboveGround(x.left, x); }
        var w := Sibling(x);
        if w != null { assert Linked(w) && Threaded(w) && ShortOk(w, x); }
      }
    }

    // the root is nobody's child
    lemma ShortRoot()
      requires Links() && root != null
      ensures Short(root) <==> Heights()
    {
      forall n | n in nodes ensures ShortOk(n, root) <==> BlackOk(n) {
        assert Linked(n) && Linked(root);
      }
    }

    twostate lemma PushedShort(new x: Region, new p: Region, new w: Region, new n: Region)
      requires InOld({x, p, w, n}, {}) && nodes == old(nodes) && ground == old(ground) && x != w && old(!w.isRed && !x.isRed && x.parent == p && w.parent == p)
      requires old(Links() && Short(x))
      requires forall m {:trigger m.left} {:trigger m.right} :: m in nodes ==> m.left == old(m.left) && m.right == old(m.right)
      requires forall m {:trigger m.lo} {:trigger m.start} :: m in nodes ==> m.lo == old(m.lo) && m.start == old(m.start)
      requires forall m {:trigger m.isRed} :: m in nodes ==> m.isRed == (m == w || old(m.isRed))
      requires forall m {:trigger m.bh} :: m in nodes ==> m.bh == old(m.bh) - if m == w || m == p then 1 else 0
      ensures ShortOk(n, p)
    {
      assert old(Linked(x) && Linked(p) && Linked(w) && Linked(n));
      assert old(ShortOk(n, x) && ShortOk(p, x) && ShortOk(w, x) && ShortOk(x, x));
      if old(x.left) != null { assert old(ShortOk(x.left, x)); }
    }

    // the sibling and its children are black: the sibling turns red
    method PushRed(ghost x: Region, p: Region, w: Region)
      requires Links() && Reds() && p in nodes && w in nodes && w.parent == p && !w.isRed
      requires x in nodes && x.parent == p && x != w && !x.isRed
      requires w.left in nodes + {null} && w.right in nodes + {null} && !IsRed(w.left) && !IsRed(w.right)
      modifies w`isRed, w`bh, p`bh
      ensures RedsAround(p) && w.isRed && (old(Short(x)) ==> Short(p))
    {
      assert Linked(w);
      w.isRed := true;
      w.bh, p.bh := w.bh - 1, p.bh - 1;
      forall n | n in nodes && n != p ensures RedBut(n, p) {
        assert old(Linked(n) && RedBut(n, null));
      }
      if old(Short(x)) {
        forall n | n in nodes ensures ShortOk(n, p) {
          PushedShort(x, p, w, n);
        }
      }
    }

    method DeleteStepLeft(x: Region, ghost u: Region?, ghost v: Region?) returns (ok: bool, x': Region)
      requires Links() && Threads() && Reds() && u in nodes + {null} && v in nodes + {null} && Stale(u, v)
      requires x in nodes && !x.isRed && x.parent != null && x.parent in nodes && x.parent.left == x
      modifies this`root, nodes`left, nodes`right, nodes`parent, nodes`lo, nodes`hi, nodes`maxGap, nodes`isRed, nodes`bh
      ensures ok == old(SiblingOk(x))
      ensures ok ==> Links() && Threads() && Stale(u, v) && x' in nodes && RedsAround(x')
      ensures ok && !old(PassesUp(x)) ==> x' == root || x'.isRed
      ensures ok && old(PassesUp(x)) ==> x' == old(x.parent) && OnlyReddened(old(x.parent.right), old(x.parent))
      ensures old(Short(x)) && ok ==> Short(x')
      ensures old(Short(x) && Places() && Level(ground)) ==> ok
    {
      ok, x' := true, x;
      var p := x.parent;
      assert Linked(x) && Linked(p);
      var w := p.right;
      ShortSibling(x);
      if w == null {
        return false, x;
      }
      if w.isRed {
        if w.left == null {
          return false, x;
        }
        RaiseSiblingLeft(x, p, w, u, v);
        w := p.right;
      }
      assert Linked(p) && Linked(w);
      x' := BlackSiblingLeft(x, p, w, u, v);
    }

    // the sibling is black
    method BlackSiblingLeft(x: Region, p: Region, w: Region, ghost u: Region?, ghost v: Region?) returns (x': Region)
      requires Links() && Threads() && Reds() && u in nodes + {null} && v in nodes + {null} && Stale(u, v)
      requires x in nodes && p in nodes && w in nodes && p.left == x && p.right == w && !x.isRed && !w.isRed
      requires w.left in nodes + {null} && w.right in nodes + {null}
      modifies this`root, nodes`left, nodes`right, nodes`parent, nodes`lo, nodes`hi, nodes`maxGap, nodes`isRed, nodes`bh
      ensures Links() && Threads() && Stale(u, v) && x' in nodes && RedsAround(x')
      ensures if old(IsRed(w.left) || IsRed(w.right)) then x' == root else x' == p && OnlyReddened(w, p)
      ensures old(Short(x)) ==> Short(x')
    {
      assert Linked(p) && Linked(x) && Linked(w);
      if !(w.left != null && w.left.isRed) && !(w.right != null && w.right.isRed) {
        PushRed(x, p, w);
        x' := p;
      } else {
        x' := LiftStepLeft(x, p, w, u, v);
        ShortRoot();
      }
    }

    // the sibling is black and a nephew is red: the last step
    method LiftStepLeft(x: Region, p: Region, w: Region, ghost u: Region?, ghost v: Region?) returns (x': Region)
      requires Links() && Threads() && Reds() && u in nodes + {null} && v in nodes + {null} && Stale(u, v)
      requires x in nodes && p in nodes && w in nodes && p.left == x && p.right == w && !x.isRed && !w.isRed
      requires w.left in nodes + {null} && w.right in nodes + {null} && (IsRed(w.left) || IsRed(w.right))
      modifies this`root, nodes`left, nodes`right, nodes`parent, nodes`lo, nodes`hi, nodes`maxGap, nodes`isRed, nodes`bh
      ensures Links() && Threads() && Stale(u, v) && x' in nodes && x' == root && RedsAround(x')
      ensures old(Short(x)) ==> Heights()
    {
      var w' := w;
      if !(w.right != null && w.right.isRed) {
        RaiseNephewLeft(x, p, w, u, v);
        w' := p.right;
      }
      LiftSiblingLeft(x, p, w', u, v);
      x' := root;
      RedsAroundAny(x');
    }

    lemma RedsAroundAny(x: Region)
      requires Reds()
      ensures RedsAround(x)
    {
      forall n | n in nodes && n != x ensures RedBut(n, x) {
        assert RedBut(n, null);
      }
    }

    twostate predicate OnlyReddened(new w: Region?, new p: Region)
      reads this`root, this`nodes, nodes`left, nodes`right, nodes`parent, nodes`isRed, nodes`lo, nodes`hi
    {
      && nodes == old(nodes) && root == old(root) && w != null && w in nodes && old(w.parent) == p
      && (forall n {:trigger n.left} {:trigger n.right} {:trigger n.parent} :: n in nodes ==>
           n.left == old(n.left) && n.right == old(n.right) && n.parent == old(n.parent))
      && (forall n {:trigger n.lo} {:trigger n.hi} :: n in nodes ==> n.lo == old(n.lo) && n.hi == old(n.hi))
      && (forall n {:trigger n.isRed} :: n in nodes && n != w ==> n.isRed == old(n.isRed))
    }

    twostate lemma FinishRPair(new x: Region, new y: Region, new p: Region?, new b: Region?, new d: Region?, new n: Region)
      requires InOld({x, y, n}, {p, b, d}) && old(RotRReady(x, y, p, b)) && RotatedRight(x, y, p, b)
      requires old(!x.isRed && y.isRed && Short(d)) && d != x && d != y
      requires forall m {:trigger m.isRed} :: m in nodes ==> m.isRed == (if m == x then true else if m == y then false else old(m.isRed))
      requires forall m {:trigger m.bh} :: m in nodes ==> m.bh == (if m == x then old(m.bh) - 1 else if m == y then old(m.bh) + 1 else old(m.bh))
      requires n == x || n == y
      ensures ShortOk(n, d)
    {
      assert old(Linked(x) && Linked(y) && ShortOk(x, d) && ShortOk(y, d));
    }

    twostate lemma FinishRRest(new x: Region, new y: Region, new p: Region?, new b: Region?, new d: Region?, new n: Region)
      requires InOld({x, y, n}, {p, b, d}) && old(RotRReady(x, y, p, b)) && RotatedRight(x, y, p, b)
      requires old(!x.isRed && y.isRed && Short(d)) && d != x && d != y
      requires forall m {:trigger m.isRed} :: m in nodes ==> m.isRed == (if m == x then true else if m == y then false else old(m.isRed))
      requires forall m {:trigger m.bh} :: m in nodes ==> m.bh == (if m == x then old(m.bh) - 1 else if m == y then old(m.bh) + 1 else old(m.bh))
      requires n != x && n != y
      ensures ShortOk(n, d)
    {
      assert old(Linked(x) && Linked(y) && Linked(n) && ShortOk(n, d));
      if n == p {
        assert old(ShortOk(x, d));
      } else {
        assert n.left == old(n.left) && n.right == old(n.right);
      }
    }

    twostate lemma FinishRShort(new x: Region, new y: Region, new p: Region?, new b: Region?, new d: Region?, new n: Region)
      requires InOld({x, y, n}, {p, b, d}) && old(RotRReady(x, y, p, b)) && RotatedRight(x, y, p, b)
      requires old(!x.isRed && y.isRed && Short(d)) && d != x && d != y
      requires forall m {:trigger m.isRed} :: m in nodes ==> m.isRed == (if m == x then true else if m == y then false else old(m.isRed))
      requires forall m {:trigger m.bh} :: m in nodes ==> m.bh == (if m == x then old(m.bh) - 1 else if m == y then old(m.bh) + 1 else old(m.bh))
      ensures ShortOk(n, d)
    {
      if n == x || n == y {
        FinishRPair(x, y, p, b, d, n);
      } else {
        FinishRRest(x, y, p, b, d, n);
      }
    }

    twostate lemma FinishRShortAll(new x: Region, new y: Region, new p: Region?, new b: Region?, new d: Region?)
      requires InOld({x, y}, {p, b, d}) && old(RotRReady(x, y, p, b)) && RotatedRight(x, y, p, b)
      requires old(!x.isRed && y.isRed) && d != x && d != y
      requires forall m {:trigger m.isRed} :: m in nodes ==> m.isRed == (if m == x then true else if m == y then false else old(m.isRed))
      requires forall m {:trigger m.bh} :: m in nodes ==> m.bh == (if m == x then old(m.bh) - 1 else if m == y then old(m.bh) + 1 else old(m.bh))
      ensures old(Short(d)) ==> Short(d)
    {
      if old(Short(d)) {
        forall n | n in nodes ensures ShortOk(n, d) {
          FinishRShort(x, y, p, b, d, n);
        }
      }
    }

    twostate lemma LiftRPair(new x: Region, new y: Region, new p: Region?, new b: Region?, new r: Region, new d: Region, new n: Region)
      requires InOld({x, y, r, d, n}, {p, b}) && old(RotRReady(x, y, p, b)) && RotatedRight(x, y, p, b)
      requires old(!y.isRed && y.left == r && r.isRed && x.right == d && Short(d))
      requires forall m {:trigger m.isRed} :: m in nodes ==>
        m.isRed == (if m == y then old(x.isRed) else if m == x || m == r then false else old(m.isRed))
      requires forall m {:trigger m.bh} :: m in nodes ==>
        m.bh == (if m == y then old(x.bh) else if m == x then old(y.bh) else if m == r then old(m.bh) + 1 else old(m.bh))
      requires n == x || n == y || n == r
      ensures BlackOk(n)
    {
      assert old(Linked(x) && Linked(y) && Linked(r) && Linked(d));
      assert old(ShortOk(x, d) && ShortOk(y, d) && ShortOk(r, d));
    }

    twostate lemma LiftRRest(new x: Region, new y: Region, new p: Region?, new b: Region?, new r: Region, new d: Region, new n: Region)
      requires InOld({x, y, r, d, n}, {p, b}) && old(RotRReady(x, y, p, b)) && RotatedRight(x, y, p, b)
      requires old(!y.isRed && y.left == r && r.isRed && x.right == d && Short(d))
      requires forall m {:trigger m.isRed} :: m in nodes ==>
        m.isRed == (if m == y then old(x.isRed) else if m == x || m == r then false else old(m.isRed))
      requires forall m {:trigger m.bh} :: m in nodes ==>
        m.bh == (if m == y then old(x.bh) else if m == x then old(y.bh) else if m == r then old(m.bh) + 1 else old(m.bh))
      requires n != x && n != y && n != r
      ensures BlackOk(n)
    {
      assert old(Linked(x) && Linked(y) && Linked(n) && Linked(r) && Linked(d) && ShortOk(n, d));
      if n != p {
        assert n.left == old(n.left) && n.right == old(n.right);
      }
    }

    // the sibling's red child turns black under it, and the node that was short comes below one more
    twostate lemma LiftRShort(new x: Region, new y: Region, new p: Region?, new b: Region?, new r: Region, new d: Region, new n: Region)
      requires InOld({x, y, r, d, n}, {p, b}) && old(RotRReady(x, y, p, b)) && RotatedRight(x, y, p, b)
      requires old(!y.isRed && y.left == r && r.isRed && x.right == d && Short(d))
      requires forall m {:trigger m.isRed} :: m in nodes ==>
        m.isRed == (if m == y then old(x.isRed) else if m == x || m == r then false else old(m.isRed))
      requires forall m {:trigger m.bh} :: m in nodes ==>
        m.bh == (if m == y then old(x.bh) else if m == x then old(y.bh) else if m == r then old(m.bh) + 1 else old(m.bh))
      ensures BlackOk(n)
    {
      if n == x || n == y || n == r {
        LiftRPair(x, y, p, b, r, d, n);
      } else {
        LiftRRest(x, y, p, b, r, d, n);
      }
    }

    twostate lemma LiftRShortAll(new x: Region, new y: Region, new p: Region?, new b: Region?, new r: Region, new d: Region)
      requires InOld({x, y, r, d}, {p, b}) && old(RotRReady(x, y, p, b)) && RotatedRight(x, y, p, b)
      requires old(!y.isRed && y.left == r && r.isRed && x.right == d)
      requires forall m {:trigger m.isRed} :: m in nodes ==>
        m.isRed == (if m == y then old(x.isRed) else if m == x || m == r then false else old(m.isRed))
      requires forall m {:trigger m.bh} :: m in nodes ==>
        m.bh == (if m == y then old(x.bh) else if m == x then old(y.bh) else if m == r then old(m.bh) + 1 else old(m.bh))
      ensures old(Short(d)) ==> Heights()
    {
      if old(Short(d)) {
        forall n | n in nodes ensures BlackOk(n) {
          LiftRShort(x, y, p, b, r, d, n);
        }
      }
    }

    method RaiseSiblingRight(x: Region, p: Region, w: Region, ghost u: Region?, ghost v: Region?)
      requires Links() && Threads() && Reds() && u in nodes + {null} && v in nodes + {null} && Stale(u, v)
      requires x in nodes && p in nodes && w in nodes && p.right == x && p.left == w && !x.isRed && w.isRed
      modifies this`root, nodes`right, nodes`left, nodes`parent, nodes`hi, nodes`lo, nodes`maxGap, nodes`isRed, nodes`bh
      ensures Links() && Threads() && Reds() && Stale(u, v)
      ensures x.parent == p && p.right == x && p.left == old(w.right) && p.isRed && !x.isRed && p.left in nodes + {null} && !IsRed(p.left)
      ensures old(Short(x)) ==> Short(x)
    {
      RotRDistinct(p);
      assert Linked(p) && Linked(w) && RedBut(p, null);
      ghost var q, b := p.parent, w.right;
      ExchangeColours(w, p);
      RotateRight(p, u, v);
      FinishRRedsAll(p, w, q, b, null);
      FinishRShortAll(p, w, q, b, x);
      assert Linked(p) && RedBut(p, null);
    }

    method RaiseNephewRight(x: Region, p: Region, w: Region, ghost u: Region?, ghost v: Region?)
      requires Links() && Threads() && Reds() && u in nodes + {null} && v in nodes + {null} && Stale(u, v)
      requires x in nodes && p in nodes && w in nodes && p.right == x && p.left == w && !x.isRed && !w.isRed
      requires w.right != null && w.right in nodes && w.right.isRed && w.left in nodes + {null} && !IsRed(w.left)
      modifies this`root, nodes`right, nodes`left, nodes`parent, nodes`hi, nodes`lo, nodes`maxGap, nodes`isRed, nodes`bh
      ensures Links() && Threads() && Reds() && Stale(u, v)
      ensures x.parent == p && p.right == x && !x.isRed && p.isRed == old(p.isRed)
      ensures p.left == old(w.right) && p.left in nodes && !p.left.isRed && p.left.left == w && w.isRed
      ensures old(Short(x)) ==> Short(x)
    {
      RotLDistinct(w);
      assert Linked(p) && Linked(w) && Linked(x) && Linked(w.right);
      ghost var y, b := w.right, w.right.left;
      ExchangeColours(w.right, w);
      RotateLeft(w, u, v);
      FinishLRedsAll(w, y, p, b, null);
      FinishLShortAll(w, y, p, b, x);
    }

    twostate lemma LiftRReds(new x: Region, new y: Region, new p: Region?, new b: Region?, new r: Region, new n: Region)
      requires InOld({x, y, r, n}, {p, b}) && old(RotRReady(x, y, p, b)) && RotatedRight(x, y, p, b)
      requires old(Reds() && !y.isRed && y.left == r)
      requires forall m {:trigger m.isRed} :: m in nodes ==>
        m.isRed == (if m == y then old(x.isRed) else if m == x || m == r then false else old(m.isRed))
      ensures RedBut(n, null)
    {
      assert old(Linked(x) && Linked(y) && Linked(n));
      assert old(RedBut(n, null) && RedBut(x, null));
      if p != null { assert old(Linked(p) && RedBut(p, null)); }
    }

    twostate lemma LiftRRedsAll(new x: Region, new y: Region, new p: Region?, new b: Region?, new r: Region)
      requires InOld({x, y, r}, {p, b}) && old(RotRReady(x, y, p, b)) && RotatedRight(x, y, p, b)
      requires old(Reds() && !y.isRed && y.left == r)
      requires forall m {:trigger m.isRed} :: m in nodes ==>
        m.isRed == (if m == y then old(x.isRed) else if m == x || m == r then false else old(m.isRed))
      ensures Reds()
    {
      assert old(Linked(x) && Linked(y));
      forall n | n in nodes ensures RedBut(n, null) {
        LiftRReds(x, y, p, b, r, n);
      }
    }

    method LiftSiblingRight(ghost x: Region, p: Region, w: Region, ghost u: Region?, ghost v: Region?)
      requires Links() && Threads() && Reds() && u in nodes + {null} && v in nodes + {null} && Stale(u, v)
      requires x in nodes && p in nodes && w in nodes && p.right == x && p.left == w && !w.isRed
      requires w.left != null && w.left in nodes && w.left.isRed
      modifies this`root, nodes`right, nodes`left, nodes`parent, nodes`hi, nodes`lo, nodes`maxGap, nodes`isRed, nodes`bh
      ensures Links() && Threads() && Reds() && Stale(u, v) && root != null && root in nodes && (old(Short(x)) ==> Heights())
    {
      RotRDistinct(p);
      assert Linked(p) && Linked(w);
      ghost var q, b, r := p.parent, w.right, w.left;
      LiftColours(p, w, w.left);
      RotateRight(p, u, v);
      LiftRRedsAll(p, w, q, b, r);
      LiftRShortAll(p, w, q, b, r, x);
    }

    method DeleteStepRight(x: Region, ghost u: Region?, ghost v: Region?) returns (ok: bool, x': Region)
      requires Links() && Threads() && Reds() && u in nodes + {null} && v in nodes + {null} && Stale(u, v)
      requires x in nodes && !x.isRed && x.parent != null && x.parent in nodes && x.parent.right == x
      modifies this`root, nodes`right, nodes`left, nodes`parent, nodes`hi, nodes`lo, nodes`maxGap, nodes`isRed, nodes`bh
      ensures ok == old(SiblingOk(x))
      ensures ok ==> Links() && Threads() && Stale(u, v) && x' in nodes && RedsAround(x')
      ensures ok && !old(PassesUp(x)) ==> x' == root || x'.isRed
      ensures ok && old(PassesUp(x)) ==> x' == old(x.parent) && OnlyReddened(old(x.parent.left), old(x.parent))
      ensures old(Short(x)) && ok ==> Short(x')
      ensures old(Short(x) && Places() && Level(ground)) ==> ok
    {
      ok, x' := true, x;
      var p := x.parent;
      assert Linked(x) && Linked(p);
      var w := p.left;
      ShortSibling(x);
      if w == null {
        return false, x;
      }
      if w.isRed {
        if w.right == null {
          return false, x;
        }
        RaiseSiblingRight(x, p, w, u, v);
        w := p.left;
      }
      assert Linked(p) && Linked(w);
      x' := BlackSiblingRight(x, p, w, u, v);
    }

    // the sibling is black
    method BlackSiblingRight(x: Region, p: Region, w: Region, ghost u: Region?, ghost v: Region?) returns (x': Region)
      requires Links() && Threads() && Reds() && u in nodes + {null} && v in nodes + {null} && Stale(u, v)
      requires x in nodes && p in nodes && w in nodes && p.right == x && p.left == w && !x.isRed && !w.isRed
      requires w.left in nodes + {null} && w.right in nodes + {null}
      modifies this`root, nodes`left, nodes`right, nodes`parent, nodes`lo, nodes`hi, nodes`maxGap, nodes`isRed, nodes`bh
      ensures Links() && Threads() && Stale(u, v) && x' in nodes && RedsAround(x')
      ensures if old(IsRed(w.left) || IsRed(w.right)) then x' == root else x' == p && OnlyReddened(w, p)
      ensures old(Short(x)) ==> Short(x')
    {
      assert Linked(p) && Linked(x) && Linked(w);
      if !(w.right != null && w.right.isRed) && !(w.left != null && w.left.isRed) {
        PushRed(x, p, w);
        x' := p;
      } else {
        x' := LiftStepRight(x, p, w, u, v);
        ShortRoot();
      }
    }

    // the sibling is black and a nephew is red: the last step
    method LiftStepRight(x: Region, p: Region, w: Region, ghost u: Region?, ghost v: Region?) returns (x': Region)
      requires Links() && Threads() && Reds() && u in nodes + {null} && v in nodes + {null} && Stale(u, v)
      requires x in nodes && p in nodes && w in nodes && p.right == x && p.left == w && !x.isRed && !w.isRed
      requires w.right in nodes + {null} && w.left in nodes + {null} && (IsRed(w.right) || IsRed(w.left))
      modifies this`root, nodes`left, nodes`right, nodes`parent, nodes`lo, nodes`hi, nodes`maxGap, nodes`isRed, nodes`bh
      ensures Links() && Threads() && Stale(u, v) && x' in nodes && x' == root && RedsAround(x')
      ensures old(Short(x)) ==> Heights()
    {
      var w' := w;
      if !(w.left != null && w.left.isRed) {
        RaiseNephewRight(x, p, w, u, v);
        w' := p.left;
      }
      LiftSiblingRight(x, p, w', u, v);
      x' := root;
      RedsAroundAny(x');
    }

    // reddening the sibling of a child of p changes nothing for the nodes at or above p
    twostate lemma ReddenSame(new a: Region, new p: Region, new w: Region)
      requires InOld({a, p, w}, {}) && old(Links() && (a == p || Inside(p, a))) && Links() && OnlyReddened(w, p) && a != root
      ensures a.parent != null && a.parent in nodes && old(Inside(p, a.parent))
      ensures SiblingOk(a) == old(SiblingOk(a)) && PassesUp(a) == old(PassesUp(a))
    {
      assert old(Linked(a) && Linked(p) && Linked(w));
      assert old(Linked(a.parent));
      var s := Sibling(a);
      if s != null { assert old(Linked(s)); }
    }

    twostate lemma {:induction false} SafeKeeps(new a: Region, new p: Region, new w: Region)
      requires InOld({a, p, w}, {}) && old(Links() && (a == p || Inside(p, a))) && Links() && OnlyReddened(w, p)
      ensures a != w ==> FixupSafe(a) == old(FixupSafe(a))
      decreases limit + 1 - (a.hi - a.lo)
    {
      assert Linked(a);
      if a != root && !a.isRed {
        ReddenSame(a, p, w);
        assert Linked(a.parent) && old(Linked(w) && Linked(a.parent) && Linked(p));
        SafeKeeps(a.parent, p, w);
      }
    }

    // x alone turned black
    twostate predicate OnlyBlackened(new x: Region)
      reads this`root, this`nodes, nodes`left, nodes`right, nodes`parent, nodes`isRed, nodes`bh
    {
      && nodes == old(nodes) && root == old(root)
      && (forall n {:trigger n.left} {:trigger n.right} {:trigger n.parent} :: n in nodes ==>
           n.left == old(n.left) && n.right == old(n.right) && n.parent == old(n.parent))
      && (forall n {:trigger n.isRed} :: n in nodes ==> n.isRed == (n != x && old(n.isRed)))
      && (forall n {:trigger n.bh} :: n in nodes ==> n.bh == (if n == x && old(n.isRed) then old(n.bh) + 1 else old(n.bh)))
    }

    method BlackenAround(x: Region)
      requires Links() && x in nodes && RedsAround(x)
      modifies x`isRed, x`bh
      ensures Reds() && !x.isRed && x.bh == old(x.bh) + (if old(x.isRed) then 1 else 0)
      ensures old(Short(x) && (x == root || x.isRed)) ==> Heights()
    {
      if x.isRed {
        x.bh := x.bh + 1;
      }
      x.isRed := false;
      forall n | n in nodes ensures RedBut(n, null) {
        assert Linked(n);
        assert n != x ==> old(RedBut(n, x));
      }
      if old(Short(x) && (x == root || x.isRed)) {
        forall n | n in nodes ensures BlackOk(n) {
          BlackenedHeight(x, n);
        }
      }
    }

    twostate lemma BlackenedHeight(new x: Region, new n: Region)
      requires InOld({x, n}, {}) && OnlyBlackened(x) && ground == old(ground) && old(Links() && Short(x) && (x == root || x.isRed))
      requires forall m {:trigger m.lo} {:trigger m.start} :: m in nodes ==> m.lo == old(m.lo) && m.start == old(m.start)
      ensures BlackOk(n)
    {
      assert old(Linked(n) && Linked(x) && ShortOk(n, x));
    }

    method DeleteFixup(x0: Region, ghost u: Region?, ghost v: Region?) returns (ok: bool)
      requires Links() && Threads() && RedsAround(x0) && x0 in nodes
      requires u in nodes + {null} && v in nodes + {null} && Stale(u, v)
      modifies this`root, nodes`left, nodes`right, nodes`parent, nodes`lo, nodes`hi, nodes`maxGap, nodes`isRed, nodes`bh
      ensures ok == old(FixupSafe(x0))
      ensures ok ==> Links() && Threads() && Reds() && Stale(u, v)
      ensures old(x0 == root || x0.isRed) ==> OnlyBlackened(x0)
      ensures old(Short(x0)) && ok ==> Heights()
      ensures old(Short(x0) && Places() && Level(ground)) ==> ok
    {
      var x;
      ok, x := Climb(x0, u, v);
      if ok {
        BlackenAround(x);
      }
    }

    // the loop of delete_fixup
    method Climb(x0: Region, ghost u: Region?, ghost v: Region?) returns (ok: bool, x: Region)
      requires Links() && Threads() && RedsAround(x0) && x0 in nodes
      requires u in nodes + {null} && v in nodes + {null} && Stale(u, v)
      modifies this`root, nodes`left, nodes`right, nodes`parent, nodes`lo, nodes`hi, nodes`maxGap, nodes`isRed, nodes`bh
      ensures ok == old(FixupSafe(x0))
      ensures ok ==> Links() && Threads() && Stale(u, v) && x in nodes && RedsAround(x) && (x == root || x.isRed)
      ensures old(x0 == root || x0.isRed) ==> x == x0 && unchanged(this, nodes)
      ensures old(Short(x0)) && ok ==> Short(x)
      ensures old(Short(x0) && Places() && Level(ground)) ==> ok
    {
      x, ok := x0, true;
      ghost var safe := FixupSafe(x);
      assert Linked(x);
      while x != root && !x.isRed
        invariant Links() && Threads() && RedsAround(x) && x in nodes && Stale(u, v) && FixupSafe(x) == safe
        invariant x.hi - x.lo <= limit + 1 && (old(Short(x0)) ==> Short(x))
        invariant old(x0 == root || x0.isRed) ==> x == x0 && unchanged(this, nodes)
        decreases if x == root || x.isRed then 0 else limit + 3 - (x.hi - x.lo)
      {
        ok, x := DeleteStep(x, u, v);
        if !ok {
          return;
        }
        assert Linked(x);
      }
      ok := true;
    }

    method DeleteStep(x: Region, ghost u: Region?, ghost v: Region?) returns (ok: bool, x': Region)
      requires Links() && Threads() && RedsAround(x) && u in nodes + {null} && v in nodes + {null} && Stale(u, v)
      requires x in nodes && !x.isRed && x != root
      modifies this`root, nodes`left, nodes`right, nodes`parent, nodes`lo, nodes`hi, nodes`maxGap, nodes`isRed, nodes`bh
      ensures ok ==> Links() && Threads() && Stale(u, v) && x' in nodes && RedsAround(x')
      ensures if ok then FixupSafe(x') == old(FixupSafe(x)) else !old(FixupSafe(x))
      ensures old(Short(x)) && ok ==> Short(x')
      ensures old(Short(x) && Places() && Level(ground)) ==> ok
      ensures ok ==> x' == root || x'.isRed || x'.hi - x'.lo > old(x.hi - x.lo)
    {
      assert Linked(x) && Linked(x.parent);
      AroundBlack(x);
      ghost var p := x.parent;
      ghost var w := Sibling(x);
      if x == x.parent.left {
        ok, x' := DeleteStepLeft(x, u, v);
      } else {
        ok, x' := DeleteStepRight(x, u, v);
      }
      if ok && old(PassesUp(x)) && !p.isRed {
        SafeKeeps(p, p, w);
      }
    }

    // ---------- delete_node ----------

    // the gap before z already includes z and the gap after it
    ghost predicate Merged(z: Region, pred: Region?)
      requires z in nodes
      reads this`nodes, nodes`start, nodes`size, nodes`gap, nodes`nextKey, nodes`prevKey, nodes`left, nodes`right, nodes`maxGap
    {
      && pred in nodes + {null} && pred != z && GapOk(z)
      && (pred == null ==> z.prevKey == -1)
      && (pred != null ==> pred.start == z.prevKey && 0 < pred.size && 0 <= pred.gap == z.nextKey - pred.End())
      && (forall n {:trigger GapOk(n)} :: n in nodes && n != pred ==> GapOk(n))
      && (forall n {:trigger MaxOk(n)} :: n in nodes && n != pred ==> MaxOk(n))
    }

    twostate lemma RemovedGaps(new z: Region, new x: Region?, new q: Region?, new pred: Region?)
      requires RemovedReady(z, x, q) && Threads() && InOld({}, {pred}) && old(Merged(z, pred))
      requires forall n {:trigger n.gap} {:trigger n.size} :: n in nodes ==> n.gap == old(n.gap) && n.size == old(n.size)
      ensures Gaps()
    {
      if pred != null { assert old(Threaded(pred)); }
      forall n | n in nodes ensures GapOk(n) {
        assert old(Threaded(z) && Threaded(n)) && Threaded(n);
        if n != pred { assert old(GapOk(n)); }
      }
    }

    twostate lemma MovedGaps(new z: Region, new y: Region, new x: Region?, new q: Region?, new pred: Region?)
      requires MovedReady(z, y, x, q) && Threads() && InOld({}, {pred}) && old(Merged(z, pred))
      requires forall n {:trigger n.gap} {:trigger n.size} :: n in nodes && n != z ==> n.gap == old(n.gap) && n.size == old(n.size)
      requires z.gap == old(y.gap) && z.size == old(y.size)
      ensures Gaps()
    {
      if pred != null { assert old(Threaded(pred)); }
      forall n | n in nodes ensures GapOk(n) {
        assert old(Threaded(z) && Threaded(n) && Threaded(y)) && Threaded(n);
        if n == z {
          assert old(GapOk(y));
        } else if n != pred {
          assert old(GapOk(n));
        }
      }
    }

    twostate lemma RemovedStale(new z: Region, new x: Region?, new q: Region?, new pred: Region?)
      requires RemovedReady(z, x, q) && Links() && InOld({}, {pred}) && old(Merged(z, pred))
      requires forall n {:trigger n.gap} {:trigger n.maxGap} :: n in nodes ==> n.gap == old(n.gap) && n.maxGap == old(n.maxGap)
      ensures q in nodes + {null} && pred in nodes + {null} && Stale(q, pred)
    {
      assert old(Linked(z));
      if q != null { assert old(Linked(q)); }
      forall n | n in nodes ensures MaxOk(n) || Covers(n, q) || Covers(n, pred) {
        assert Linked(n) && old(Linked(n));
        if n != pred { assert old(MaxOk(n)); }
      }
    }

    lemma BelowSpliced(z: Region, y: Region)
      requires Links() && Threads() && z in nodes && y in nodes && z != y && y.start == z.nextKey && z.right != null
      ensures y.parent != null && y.parent in nodes && (y.parent == z || Inside(y.parent, z))
      ensures y.parent != z ==> z.start < y.parent.start < z.hi
    {
      assert Linked(z) && Linked(z.right) && Threaded(z) && Threaded(z.right) && Adjacent(z) && Threaded(y) && Linked(y);
      Locate(z, y);
      ParentBelow(y, z);
      assert Linked(y.parent) && Threaded(y.parent);
    }

    twostate lemma MovedStale(new z: Region, new y: Region, new x: Region?, new q: Region?, new pred: Region?)
      requires MovedReady(z, y, x, q) && Links() && InOld({}, {pred}) && old(Merged(z, pred))
      requires old(q != null && (q == z || z.start < q.start < z.hi))
      requires forall n {:trigger n.gap} :: n in nodes && n != z ==> n.gap == old(n.gap)
      requires forall n {:trigger n.maxGap} :: n in nodes ==> n.maxGap == old(n.maxGap)
      ensures q in nodes && pred in nodes + {null} && Stale(q, pred)
    {
      assert old(Linked(z) && Linked(y) && Linked(q) && Threaded(z) && Threaded(y));
      forall n | n in nodes ensures MaxOk(n) || Covers(n, q) || Covers(n, pred) {
        assert Linked(n) && old(Linked(n));
        if n != pred { assert old(MaxOk(n)); }
      }
    }

    twostate lemma SplicedReds(new y: Region, new x: Region?, new q: Region?)
      requires InOld({y}, {x, q}) && Spliced(y, x, q) && old(Links() && Reds()) && Links()
      requires old(q == y.parent && ((y.left == null && x == y.right) || (y.right == null && x == y.left)))
      requires forall n {:trigger n.isRed} :: n in nodes ==> n.isRed == old(n.isRed)
      ensures RedsBut(x) && (old(y.isRed) ==> Reds())
    {
      assert old(Linked(y) && RedBut(y, null));
      if q != null { assert old(Linked(q)); }
      forall n | n in nodes ensures RedBut(n, x) && (old(y.isRed) ==> RedBut(n, null)) {
        assert Linked(n) && old(Linked(n) && RedBut(n, null));
      }
    }

    // the node that delete_node takes out of the links
    ghost function Victim(z: Region): Region
      requires Links() && Threads() && z in nodes
      reads this`root, this`nodes, this`at, nodes`start, nodes`left, nodes`right, nodes`parent,
            nodes`lo, nodes`hi, nodes`prevKey, nodes`nextKey
      ensures Victim(z) in nodes && (Victim(z) != z ==> Victim(z).start == z.nextKey && Victim(z).left == null)
      ensures Victim(z) == z ==> z.left == null || z.right == null
    {
      assert Threaded(z) && Linked(z) && Adjacent(z);
      if z.left == null || z.right == null then z
      else
        assert Linked(z.right) && Threaded(z.right);
        at[z.nextKey]
    }

    method FindVictim(z: Region) returns (y: Region)
      requires Links() && Threads() && z in nodes
      ensures y == Victim(z) && (y.left == null || y.right == null)
      ensures y != z ==> Movable(z, y, y.right, y.parent)
    {
      assert Linked(z) && Threaded(z);
      if z.left == null || z.right == null {
        y := z;
      } else {
        y := z.right;
        assert Linked(y);
        while y.left != null
          invariant y in nodes && Linked(y) && y.lo == z.start
          decreases y.hi - y.lo
        {
          y := y.left;
          assert Linked(y);
        }
        assert Threaded(y);
      }
    }

    // what the places count for once z is deleted: those on both sides of it become one, and where a leaf is
    // spliced out the place that it leaves counts for what the leaf did
    ghost function NewGround(z: Region): map<int, int>
      requires Links() && Threads() && z in nodes
      reads this`root, this`nodes, this`at, this`ground, nodes`start, nodes`left, nodes`right, nodes`parent,
            nodes`lo, nodes`hi, nodes`prevKey, nodes`nextKey, nodes`bh
    {
      var y, g := Victim(z), ground - {z.start};
      if y.left == null && y.right == null then g[(if y == z then z.prevKey else y.start) := y.bh]
      else if y == z && z.left == null then g[z.prevKey := Ground(z.start)]
      else g
    }

    // the empty places of other nodes are not those on both sides of z, unless z has the child that lies between
    twostate lemma LeftPlaceApart(new z: Region, new n: Region)
      requires old(Links() && Threads()) && z in old(nodes) && n in old(nodes) && n != z && old(n.left == null)
      ensures old(n.lo) != old(z.prevKey) && (old(n.lo == z.start) ==> old(z.right) != null)
    {
      assert old(Linked(n) && Threaded(n) && Adjacent(n) && Threaded(z) && Adjacent(z));
    }

    twostate lemma RightPlaceApart(new z: Region, new n: Region)
      requires old(Links() && Threads()) && z in old(nodes) && n in old(nodes) && n != z && old(n.right == null)
      ensures old(n.start) != old(z.start) && (old(n.start) == old(z.prevKey) ==> old(z.left) != null)
    {
      assert old(Linked(n) && Threaded(n) && Threaded(z));
    }

    // the heights on both sides of n are kept, counting one more for the child x of a black node
    twostate lemma RemovedLeft(new z: Region, new x: Region?, new q: Region?, new n: Region)
      requires RemovedReady(z, x, q) && n in nodes && old(Heights() && Places()) && ground == old(NewGround(z))
      requires forall m {:trigger m.isRed} {:trigger m.bh} :: m in nodes ==> m.isRed == old(m.isRed) && m.bh == old(m.bh)
      requires old(n.left in nodes + {null})
      ensures n.left in nodes + {null} && LeftHeight(n, if old(z.isRed) then null else x) == old(LeftHeight(n, null))
    {
      if old(n.left) == z {
        assert old(Linked(z) && Threaded(z) && BlackOk(z) && Linked(n));
      } else if old(n.left) == null {
        LeftPlaceApart(z, n);
        assert old(Linked(z) && Threaded(z) && BlackOk(z) && Linked(n));
      } else {
        assert old(Linked(z) && Linked(n));
      }
    }

    twostate lemma RemovedRight(new z: Region, new x: Region?, new q: Region?, new n: Region)
      requires RemovedReady(z, x, q) && n in nodes && old(Heights() && Places()) && ground == old(NewGround(z))
      requires forall m {:trigger m.isRed} {:trigger m.bh} :: m in nodes ==> m.isRed == old(m.isRed) && m.bh == old(m.bh)
      requires old(n.right in nodes + {null})
      ensures n.right in nodes + {null} && RightHeight(n, if old(z.isRed) then null else x) == old(RightHeight(n, null))
    {
      if old(n.right) == z {
        assert old(Linked(z) && Threaded(z) && BlackOk(z) && Linked(n));
      } else if old(n.right) == null {
        RightPlaceApart(z, n);
        assert old(Linked(z) && Threaded(z) && BlackOk(z) && Linked(n));
      } else {
        assert old(Linked(z) && Linked(n));
      }
    }

    twostate lemma MovedLeft(new z: Region, new y: Region, new x: Region?, new q: Region?, new n: Region)
      requires MovedReady(z, y, x, q) && n in nodes && old(Heights() && Places()) && ground == old(NewGround(z))
      requires forall m {:trigger m.isRed} {:trigger m.bh} :: m in nodes ==> m.isRed == old(m.isRed) && m.bh == old(m.bh)
      requires old(n.left in nodes + {null})
      ensures n.left in nodes + {null} && LeftHeight(n, if old(y.isRed) then null else x) == old(LeftHeight(n, null))
    {
      assert old(Linked(z) && Threaded(z) && Linked(y) && Threaded(y) && BlackOk(y) && Linked(n) && Threaded(n));
      if q != null { assert old(Linked(q) && Threaded(q)); }
      if x != null { assert old(Linked(x)); }
    }

    twostate lemma MovedRight(new z: Region, new y: Region, new x: Region?, new q: Region?, new n: Region)
      requires MovedReady(z, y, x, q) && n in nodes && old(Heights() && Places()) && ground == old(NewGround(z))
      requires forall m {:trigger m.isRed} {:trigger m.bh} :: m in nodes ==> m.isRed == old(m.isRed) && m.bh == old(m.bh)
      requires old(n.right in nodes + {null})
      ensures n.right in nodes + {null} && RightHeight(n, if old(y.isRed) then null else x) == old(RightHeight(n, null))
    {
      assert old(Linked(z) && Threaded(z) && Linked(y) && Threaded(y) && BlackOk(y) && Linked(n) && Threaded(n));
      if q != null { assert old(Linked(q) && Threaded(q)); }
      if x != null { assert old(Linked(x)); }
    }

    // what a splice leaves: a black node's child is short, and otherwise all paths are accounted for
    ghost predicate HeightsOrShort(x: Region?, yRed: bool)
      reads this`nodes, this`ground, nodes`left, nodes`right, nodes`isRed, nodes`bh, nodes`lo, nodes`start
    {
      if yRed || x == null then Heights() else Short(x)
    }

    twostate lemma RemovedHeights(new z: Region, new x: Region?, new q: Region?)
      requires RemovedReady(z, x, q) && old(Heights() && Places()) && ground == old(NewGround(z))
      requires forall m {:trigger m.isRed} {:trigger m.bh} :: m in nodes ==> m.isRed == old(m.isRed) && m.bh == old(m.bh)
      ensures Places() && HeightsOrShort(x, old(z.isRed))
    {
      assert old(Threaded(z));
      forall n | n in nodes ensures ShortOk(n, if old(z.isRed) then null else x) {
        assert old(Linked(n) && BlackOk(n));
        RemovedLeft(z, x, q, n);
        RemovedRight(z, x, q, n);
      }
    }

    twostate lemma MovedHeights(new z: Region, new y: Region, new x: Region?, new q: Region?)
      requires MovedReady(z, y, x, q) && old(Heights() && Places()) && ground == old(NewGround(z))
      requires forall m {:trigger m.isRed} {:trigger m.bh} :: m in nodes ==> m.isRed == old(m.isRed) && m.bh == old(m.bh)
      ensures Places() && HeightsOrShort(x, old(y.isRed))
    {
      assert old(Threaded(z) && Threaded(y));
      forall n | n in nodes ensures ShortOk(n, if old(y.isRed) then null else x) {
        assert old(Linked(n) && BlackOk(n));
        MovedLeft(z, y, x, q, n);
        MovedRight(z, y, x, q, n);
      }
    }

    method RemoveCounted(z: Region) returns (x: Region?)
      requires Links() && Threads() && Heights() && Places() && z in nodes && (z.left == null || z.right == null)
      modifies this`root, this`nodes, this`at, this`ground, nodes`left, nodes`right, nodes`parent
      modifies nodes`lo, nodes`hi, nodes`prevKey, nodes`nextKey
      ensures Links() && Threads() && RemovedReady(z, x, old(z.parent))
      ensures x == if old(z.left) != null then old(z.left) else old(z.right)
      ensures ground == old(NewGround(z)) && Places() && HeightsOrShort(x, old(z.isRed))
    {
      ghost var q := z.parent;
      ground := NewGround(z);
      x := Remove(z);
      RemovedHeights(z, x, q);
    }

    method MoveUpCounted(z: Region, y: Region) returns (x: Region?)
      requires Heights() && Places() && Movable(z, y, y.right, y.parent)
      modifies this`root, this`nodes, this`at, this`ground, nodes`left, nodes`right, nodes`parent
      modifies nodes`lo, nodes`hi, nodes`nextKey, z`start, z`size, z`flags, z`cache, z`gap
      ensures Links() && Threads() && x == old(y.right) && MovedReady(z, y, x, old(y.parent))
      ensures z.size == y.size && z.flags == y.flags && z.cache == y.cache && z.gap == y.gap
      ensures ground == old(NewGround(z)) && Places() && HeightsOrShort(x, old(y.isRed))
    {
      ghost var q := y.parent;
      ground := NewGround(z);
      x := MoveUp(z, y);
      MovedHeights(z, y, x, q);
    }

    method UnlinkSelf(z: Region, ghost pred: Region?) returns (x: Region?)
      requires Links() && Threads() && Reds() && Heights() && Places()
      requires z in nodes && Merged(z, pred) && (z.left == null || z.right == null)
      modifies this`root, this`nodes, this`at, this`ground, nodes`left, nodes`right, nodes`parent
      modifies nodes`lo, nodes`hi, nodes`prevKey, nodes`nextKey
      ensures SplicedLinks(z, x, old(z.parent)) && TookOut(z, z) && x in nodes + {null}
      ensures ground == old(NewGround(z)) && Places() && HeightsOrShort(x, old(z.isRed))
      ensures Threads() && Gaps() && RedsBut(x) && (old(z.isRed) ==> Reds())
      ensures old(z.parent) in nodes + {null} && pred in nodes + {null} && Stale(old(z.parent), pred)
    {
      ghost var q := z.parent;
      assert Linked(z) && Threaded(z);
      x := RemoveCounted(z);
      SelfUnlinked(z, x, q, pred);
    }

    twostate lemma SelfUnlinked(new z: Region, new x: Region?, new q: Region?, new pred: Region?)
      requires RemovedReady(z, x, q) && Links() && Threads() && InOld({}, {pred}) && old(Reds() && Merged(z, pred))
      requires forall n {:trigger n.gap} {:trigger n.maxGap} :: n in nodes ==> n.gap == old(n.gap) && n.maxGap == old(n.maxGap)
      requires forall n {:trigger n.size} {:trigger n.flags} {:trigger n.cache} {:trigger n.isRed} :: n in nodes ==>
        n.size == old(n.size) && n.flags == old(n.flags) && n.cache == old(n.cache) && n.isRed == old(n.isRed)
      ensures SplicedLinks(z, x, q) && TookOut(z, z) && Gaps() && RedsBut(x) && (old(z.isRed) ==> Reds())
      ensures q in nodes + {null} && pred in nodes + {null} && Stale(q, pred)
    {
      assert old(Linked(z) && Threaded(z));
      RemovedGaps(z, x, q, pred);
      RemovedStale(z, x, q, pred);
      SplicedReds(z, x, q);
    }

    method UnlinkSuccessor(z: Region, y: Region, ghost pred: Region?) returns (x: Region?)
      requires Reds() && Heights() && Places() && z in nodes && Merged(z, pred) && Movable(z, y, y.right, y.parent)
      modifies this`root, this`nodes, this`at, this`ground, nodes`left, nodes`right, nodes`parent
      modifies nodes`lo, nodes`hi, nodes`nextKey, z`start, z`size, z`flags, z`cache, z`gap
      ensures SplicedLinks(y, x, old(y.parent)) && TookOut(z, y) && x in nodes + {null}
      ensures ground == old(NewGround(z)) && Places() && HeightsOrShort(x, old(y.isRed))
      ensures Threads() && Gaps() && RedsBut(x) && (old(y.isRed) ==> Reds())
      ensures old(y.parent) in nodes && pred in nodes + {null} && Stale(old(y.parent), pred)
    {
      ghost var q := y.parent;
      assert Linked(y) && Threaded(y) && Threaded(z);
      BelowSpliced(z, y);
      x := MoveUpCounted(z, y);
      MovedGaps(z, y, x, q, pred);
      MovedStale(z, y, x, q, pred);
      SplicedReds(y, x, q);
    }

    // deleting z reads no null sibling
    ghost predicate DeleteSafe(z: Region)
      requires Links() && Threads() && z in nodes
      reads this`root, this`nodes, this`at, nodes`start, nodes`left, nodes`right, nodes`parent,
            nodes`lo, nodes`hi, nodes`prevKey, nodes`nextKey, nodes`isRed
    {
      var y := Victim(z);
      assert Linked(y);
      y.isRed || (y.left == null && y.right == null) || IsRed(y.left) || IsRed(y.right) || FixupSafe(y)
    }

    twostate predicate SplicedLinks(new y: Region, new x: Region?, new q: Region?)
      reads this`root, this`nodes, this`at, nodes`start, nodes`left, nodes`right, nodes`parent,
            nodes`lo, nodes`hi, nodes`prevKey, nodes`nextKey, nodes`isRed
    {
      && InOld({y}, {x, q}) && Spliced(y, x, q) && Links() && old(Links())
      && old(q == y.parent && ((y.left == null && x == y.right) || (y.right == null && x == y.left)))
      && (forall n {:trigger n.isRed} :: n in nodes ==> n.isRed == old(n.isRed))
    }

    twostate lemma SpliceAbove(new a: Region, new y: Region, new x: Region?, new q: Region)
      requires SplicedLinks(y, x, q) && a in nodes && old(a == q || Inside(q, a)) && a != root
      ensures a.parent != null && a.parent == old(a.parent) && a.parent in nodes && old(Inside(q, a.parent))
    {
      assert old(Linked(a) && Linked(q) && Linked(y)) && Linked(a);
      assert old(Linked(a.parent));
    }

    twostate lemma SpliceSame(new a: Region, new y: Region, new x: Region?, new q: Region)
      requires SplicedLinks(y, x, q) && a in nodes && old(a == q || Inside(q, a)) && a != root
      requires a.parent != null && a.parent == old(a.parent) && a.parent in nodes && old(Inside(q, a.parent))
      ensures SiblingOk(a) == old(SiblingOk(a)) && PassesUp(a) == old(PassesUp(a))
    {
      assert old(Linked(a) && Linked(q) && Linked(y)) && Linked(a);
      assert old(Linked(a.parent));
      var s := Sibling(a);
      if s != null { assert old(Linked(s)); }
    }

    twostate lemma {:induction false} SpliceSafe(new a: Region, new y: Region, new x: Region?, new q: Region,
        width: int)
      requires SplicedLinks(y, x, q) && a in nodes && old(a == q || Inside(q, a)) && width == a.hi - a.lo
      ensures FixupSafe(a) == old(FixupSafe(a))
      decreases limit + 1 - width
    {
      assert Linked(a);
      if a != root && !a.isRed {
        SpliceAbove(a, y, x, q);
        SpliceSame(a, y, x, q);
        assert Linked(a.parent);
        SpliceSafe(a.parent, y, x, q, a.parent.hi - a.parent.lo);
      }
    }

    twostate lemma SpliceSafeTop(new y: Region, new x: Region, new q: Region?)
      requires SplicedLinks(y, x, q) && x in nodes && !x.isRed && old(!y.isRed)
      ensures FixupSafe(x) == old(FixupSafe(y))
    {
      assert old(Linked(x) && Linked(y)) && Linked(x);
      if q != null {
        assert old(Linked(q)) && Linked(q);
        var s := Sibling(x);
        if s != null { assert old(Linked(s)) && Linked(s); }
        SpliceSafe(q, y, x, q, q.hi - q.lo);
        assert SiblingOk(x) == old(SiblingOk(y)) && PassesUp(x) == old(PassesUp(y));
      }
    }

    // in a balanced tree an only child is red
    lemma OnlyChildRed(y: Region)
      requires Links() && Threads() && Places() && Balanced() && y in nodes && (y.left == null || y.right == null)
      ensures y.left in nodes + {null} && y.right in nodes + {null}
      ensures (y.left != null ==> y.left.isRed) && (y.right != null ==> y.right.isRed)
    {
      assert Linked(y) && Threaded(y) && BlackOk(y);
      forall m | m in nodes ensures ShortOk(m, null) {
        assert BlackOk(m);
      }
      var x := if y.left != null then y.left else y.right;
      if x != null {
        assert Linked(x) && Threaded(x) && BlackOk(x);
        if x.left != null { AboveGround(x.left, null); }
      }
    }

    lemma BalancedSafe(z: Region)
      requires Links() && Threads() && Places() && Balanced() && z in nodes
      ensures DeleteSafe(z)
    {
      var y := Victim(z);
      assert Linked(y);
      OnlyChildRed(y);
    }

    // y was spliced out and, unless y was red, its child x turned black; nothing else changed
    twostate predicate SplicedRepaired(new y: Region, new x: Region?, new q: Region?)
      reads this`root, this`nodes, nodes`left, nodes`right, nodes`parent, nodes`isRed
    {
      && InOld({y}, {x, q}) && Spliced(y, x, q)
      && old(q == y.parent && ((y.left == null && x == y.right) || (y.right == null && x == y.left)))
      && (forall n {:trigger n.isRed} :: n in nodes ==> n.isRed == (old(n.isRed) && (n != x || old(y.isRed))))
    }

    // z's region and the gap after it become part of the gap before it
    method MergeGap(z: Region) returns (pred: Region?)
      requires Links() && Threads() && Gaps() && Maxes() && z in nodes
      modifies nodes`gap
      ensures Merged(z, pred)
    {
      pred := Predecessor(z);
      assert Threaded(z) && GapOk(z);
      if pred != null {
        assert Threaded(pred) && GapOk(pred);
        pred.gap := pred.gap + z.size + z.gap;
      }
      forall n | n in nodes && n != pred ensures GapOk(n) && MaxOk(n) {
        assert old(GapOk(n) && MaxOk(n));
      }
    }

    // z's region is gone and every other region is where it was
    twostate predicate TookOut(new z: Region, new y: Region)
      reads this`nodes, this`at, nodes`start, nodes`size, nodes`flags, nodes`cache
    {
      && z in old(nodes) && y in old(nodes) && nodes == old(nodes) - {y}
      && old(z.start) in old(at) && old(at[z.start]) == z && old(y.start) in old(at) && old(at[y.start]) == y
      && at == (if y == z then old(at) - {old(z.start)} else (old(at) - {old(z.start)})[old(y.start) := z])
      && (y != z ==> z in nodes && z.start == old(y.start) && z.size == old(y.size) && z.flags == old(y.flags) && z.cache == old(y.cache))
      && (forall n {:trigger n.size} {:trigger n.flags} {:trigger n.cache} {:trigger n.start} :: n in nodes && n != z ==>
           n.start == old(n.start) && n.size == old(n.size) && n.flags == old(n.flags) && n.cache == old(n.cache))
    }

    method Unlink(z: Region, ghost pred: Region?) returns (x: Region?, y: Region, u: Region?, yRed: bool)
      requires Links() && Threads() && Reds() && Heights() && Places() && z in nodes && Merged(z, pred)
      modifies this`root, this`nodes, this`at, this`ground, nodes`left, nodes`right, nodes`parent
      modifies nodes`lo, nodes`hi, nodes`prevKey, nodes`nextKey, z`start, z`size, z`flags, z`cache, z`gap
      ensures y == old(Victim(z)) && yRed == old(y.isRed) && u == old(y.parent)
      ensures ground == old(NewGround(z)) && Places() && HeightsOrShort(x, yRed)
      ensures SplicedLinks(y, x, u) && TookOut(z, y) && x in nodes + {null}
      ensures Threads() && Gaps() && RedsBut(x) && (yRed ==> Reds())
      ensures u in nodes + {null} && pred in nodes + {null} && Stale(u, pred)
    {
      y := FindVictim(z);
      u, yRed := y.parent, y.isRed;
      if y == z {
        x := UnlinkSelf(z, pred);
      } else {
        x := UnlinkSuccessor(z, y, pred);
      }
    }

    lemma RedsButAround(x: Region)
      requires RedsBut(x)
      ensures RedsAround(x)
    {
    }

    method RefreshPaths(u: Region?, pred: Region?)
      requires Links() && Threads() && u in nodes + {null} && pred in nodes + {null} && Stale(u, pred)
      modifies nodes`maxGap
      ensures Maxes()
    {
      if u != null {
        UpdatePathToRoot(u, pred);
      }
      if pred != null {
        UpdatePathToRoot(pred, null);
      }
    }

    // colours and heights are as they were, apart from x turning black unless y was red
    twostate predicate OnlyRepaired(new x: Region?, yRed: bool)
      reads this`root, this`nodes, nodes`left, nodes`right, nodes`parent, nodes`isRed, nodes`bh
    {
      && nodes == old(nodes) && root == old(root)
      && (forall n {:trigger n.left} {:trigger n.right} {:trigger n.parent} :: n in nodes ==>
           n.left == old(n.left) && n.right == old(n.right) && n.parent == old(n.parent))
      && (forall n {:trigger n.isRed} :: n in nodes ==> n.isRed == (old(n.isRed) && (n != x || yRed)))
      && (forall n {:trigger n.bh} :: n in nodes ==> n.bh == (if n == x && !yRed && old(n.isRed) then old(n.bh) + 1 else old(n.bh)))
    }

    // the fixup that delete_node runs when it took out a black node with a child, then the two path updates
    method Settle(x: Region?, yRed: bool, u: Region?, pred: Region?) returns (ok: bool)
      requires Links() && Threads() && RedsBut(x) && (yRed ==> Reds()) && x in nodes + {null}
      requires u in nodes + {null} && pred in nodes + {null} && Stale(u, pred)
      modifies this`root, nodes`left, nodes`right, nodes`parent, nodes`lo, nodes`hi, nodes`maxGap, nodes`isRed, nodes`bh
      ensures ok == (yRed || x == null || old(FixupSafe(x)))
      ensures ok ==> Links() && Threads() && Reds() && Maxes()
      ensures yRed || x == null || old(x == root || x.isRed) ==> OnlyRepaired(x, yRed)
      ensures ok && old(HeightsOrShort(x, yRed)) ==> Heights()
      ensures !yRed && x != null && old(Short(x) && Places() && Level(ground)) ==> ok
    {
      ok := true;
      if !yRed && x != null {
        RedsButAround(x);
        ok := DeleteFixup(x, u, pred);
        if !ok {
          return;
        }
      }
      RefreshPaths(u, pred);
    }

    // the gaps and the places stay as they are
    method SettleKept(x: Region?, yRed: bool, u: Region?, pred: Region?) returns (ok: bool)
      requires Links() && Threads() && RedsBut(x) && (yRed ==> Reds()) && x in nodes + {null} && Gaps() && Places()
      requires u in nodes + {null} && pred in nodes + {null} && Stale(u, pred) && HeightsOrShort(x, yRed)
      modifies this`root, nodes`left, nodes`right, nodes`parent, nodes`lo, nodes`hi, nodes`maxGap, nodes`isRed, nodes`bh
      ensures ok == (yRed || x == null || old(FixupSafe(x)))
      ensures ok ==> Links() && Threads() && Gaps() && Maxes() && Reds() && Heights() && Places()
      ensures yRed || x == null || old(x == root || x.isRed) ==> OnlyRepaired(x, yRed)
      ensures Level(ground) ==> ok
    {
      ok := Settle(x, yRed, u, pred);
    }

    twostate lemma UnlinkVerdict(new z: Region, new y: Region, new x: Region?, new q: Region?)
      requires InOld({z, y}, {}) && old(Links() && Threads() && y == Victim(z)) && SplicedLinks(y, x, q) && x in nodes + {null}
      ensures old(DeleteSafe(z)) == (old(y.isRed) || x == null || FixupSafe(x))
    {
      assert old(Linked(y));
      if x != null && !x.isRed && old(!y.isRed) {
        SpliceSafeTop(y, x, q);
      }
    }

    // taking the node out of the links leaves a balanced tree
    ghost predicate KeepsBalance(z: Region)
      requires Links() && Threads() && z in nodes
      reads this`root, this`nodes, this`at, nodes`start, nodes`left, nodes`right, nodes`parent,
            nodes`lo, nodes`hi, nodes`prevKey, nodes`nextKey, nodes`isRed
    {
      var y := Victim(z);
      y.isRed || y.left != null || y.right != null || y == root
    }

    // z is spliced out with no repair: it is red, or it has no child
    ghost predicate Plain(z: Region)
      reads z`left, z`right, z`isRed
    {
      (z.left == null || z.right == null) && (z.isRed || (z.left == null && z.right == null))
    }

    // z is gone, its children hang from its parent, and nothing else about links and colours has changed
    twostate predicate Cut(new z: Region)
      reads this`nodes, nodes`start, nodes`parent, nodes`isRed
    {
      && z in old(nodes) && nodes == old(nodes) - {z}
      && (forall n {:trigger n.start} {:trigger n.isRed} :: n in nodes ==> n.start == old(n.start) && n.isRed == old(n.isRed))
      && (forall n {:trigger n.parent} :: n in nodes ==> n.parent == if old(n.parent) == z then old(z.parent) else old(n.parent))
    }

    twostate lemma CutBySplice(new z: Region, new x: Region?, new q: Region?)
      requires SplicedRepaired(z, x, q) && TookOut(z, z) && old(Links() && Plain(z))
      ensures Cut(z)
    {
      assert old(Linked(z));
      forall n | n in nodes ensures n.parent == if old(n.parent) == z then old(z.parent) else old(n.parent) {
        assert old(Linked(n));
      }
    }

    method UnlinkAndSettle(z: Region, pred: Region?) returns (ok: bool, y: Region, ghost x: Region?)
      requires Links() && Threads() && Reds() && Heights() && Places() && z in nodes && Merged(z, pred)
      modifies this`root, this`nodes, this`at, this`ground, nodes`left, nodes`right, nodes`parent, nodes`isRed, nodes`bh
      modifies nodes`lo, nodes`hi, nodes`prevKey, nodes`nextKey, nodes`maxGap, z`start, z`size, z`flags, z`cache, z`gap
      ensures y == old(Victim(z)) && ok == old(DeleteSafe(z)) && TookOut(z, y) && pred in nodes + {null}
      ensures ok ==> Links() && Threads() && Gaps() && Maxes() && Reds() && Heights() && Places()
      ensures ground == old(NewGround(z)) && (Level(ground) ==> ok)
      ensures old(Plain(z)) ==> ok && SplicedRepaired(y, x, old(y.parent))
    {
      var x', u, yRed;
      x', y, u, yRed := UnlinkJudged(z, pred);
      x := x';
      ok := SettleKept(x', yRed, u, pred);
    }

    method UnlinkJudged(z: Region, ghost pred: Region?) returns (x: Region?, y: Region, u: Region?, yRed: bool)
      requires Links() && Threads() && Reds() && Heights() && Places() && z in nodes && Merged(z, pred)
      modifies this`root, this`nodes, this`at, this`ground, nodes`left, nodes`right, nodes`parent
      modifies nodes`lo, nodes`hi, nodes`prevKey, nodes`nextKey, z`start, z`size, z`flags, z`cache, z`gap
      ensures y == old(Victim(z)) && yRed == old(y.isRed) && u == old(y.parent)
      ensures ground == old(NewGround(z)) && Places() && HeightsOrShort(x, yRed)
      ensures SplicedLinks(y, x, u) && TookOut(z, y) && x in nodes + {null}
      ensures Threads() && Gaps() && RedsBut(x) && (yRed ==> Reds())
      ensures u in nodes + {null} && pred in nodes + {null} && Stale(u, pred)
      ensures old(DeleteSafe(z)) == (yRed || x == null || FixupSafe(x))
      ensures old(Plain(z)) ==> yRed || x == null
    {
      x, y, u, yRed := Unlink(z, pred);
      UnlinkVerdict(z, y, x, u);
    }

    // ---------- balance for some assignment of heights ----------

    ghost function HeightBy(n: Region?, h: map<int, int>): int
      reads n
    {
      if n == null then 0 else if n.start in h then h[n.start] else -1
    }

    ghost predicate BlackOkBy(n: Region, h: map<int, int>)
      reads n, n.left, n.right
    {
      && HeightBy(n.left, h) == HeightBy(n.right, h)
      && HeightBy(n, h) == HeightBy(n.left, h) + if n.isRed then 0 else 1
    }

    // h gives every subtree its number of black nodes, the same on every path
    ghost predicate BalancedBy(h: map<int, int>)
      reads this`nodes, nodes
    {
      forall n {:trigger BlackOkBy(n, h)} :: n in nodes ==>
        n.left in nodes + {null} && n.right in nodes + {null} && BlackOkBy(n, h)
    }

    ghost predicate Balanceable()
      reads this`nodes, nodes
    {
      exists h :: BalancedBy(h)
    }

    lemma LevelBalanceable()
      requires Links() && Threads() && Places() && Balanced()
      ensures Balanceable()
    {
      var h: map<int, int> := map s: int | s in at :: at[s].bh - ground[-1];
      forall n | n in nodes ensures HeightBy(n, h) == n.bh - ground[-1] {
        assert Threaded(n);
      }
      forall n | n in nodes ensures n.left in nodes + {null} && n.right in nodes + {null} && BlackOkBy(n, h) {
        assert Linked(n) && Threaded(n) && BlackOk(n);
      }
      assert BalancedBy(h);
    }

    // the places below a node that has one height count for what its own height exceeds that by
    lemma {:induction false} GroundBelow(n: Region, h: map<int, int>, k: int)
      requires Links() && Threads() && Places() && Heights() && BalancedBy(h) && n in nodes && k in ground && n.lo <= k < n.hi
      ensures ground[k] == n.bh - HeightBy(n, h)
      decreases n.hi - n.lo
    {
      assert Linked(n) && Threaded(n) && Adjacent(n) && BlackOk(n) && BlackOkBy(n, h);
      if k < n.start {
        if n.left != null {
          assert Linked(n.left);
          GroundBelow(n.left, h, k);
        }
      } else if n.right != null {
        assert Linked(n.right);
        GroundBelow(n.right, h, k);
      }
    }

    // the paths have equally many black nodes exactly when all places count for the same
    lemma LevelExact()
      requires Links() && Threads() && Places() && Heights()
      ensures Balanceable() <==> Level(ground)
    {
      if Level(ground) {
        LevelBalanceable();
      }
      if h :| BalancedBy(h) {
        forall k | k in ground ensures ground[k] == ground[-1] {
          if root != null {
            assert Linked(root) && (k != -1 ==> Threaded(at[k]));
            GroundBelow(root, h, k);
            GroundBelow(root, h, -1);
          }
        }
      }
    }

    // from a balanced tree
    lemma KeepsBalanceExact(z: Region)
      requires Links() && Threads() && Places() && Balanced() && z in nodes
      ensures Level(NewGround(z)) <==> KeepsBalance(z)
    {
      var y, g := Victim(z), NewGround(z);
      assert Linked(y) && Threaded(y) && BlackOk(y) && Linked(z) && Threaded(z);
      var merged := if y == z then z.prevKey else y.start;
      if !KeepsBalance(z) {
        assert g[merged] == ground[-1] + 1;
        if merged != -1 {
          assert g[-1] == ground[-1];
        } else {
          assert Linked(y.parent) && Threaded(y.parent) && y.parent.start in g;
        }
      } else if y.left == null && y.right == null && !y.isRed {
        OnlyRoot(y);
      }
    }

    twostate lemma TookOutContent(new z: Region, new y: Region)
      requires TookOut(z, y) && old(Threads()) && Threads()
      ensures Content() == old(Content()) - {old(z.start)}
    {
      assert old(at[y.start]) == y;
      forall s | s in at ensures Content()[s] == old(Content())[s] {
        assert old(at[s] in nodes && at[s].start == s);
      }
    }

    // the verdict on the colours after a deletion, from any tree and from a balanced one
    twostate predicate Verdict(new z: Region)
      requires z in old(nodes) && old(Links() && Threads())
      reads this`root, this`nodes, this`at, this`ground, nodes
    {
      && ground == old(NewGround(z)) && (Balanceable() <==> Level(ground)) && (Level(ground) ==> Balanced())
      && (old(Balanced()) ==> (Balanceable() <==> old(KeepsBalance(z))))
    }

    twostate lemma VerdictHolds(new z: Region)
      requires z in old(nodes) && old(Links() && Threads() && Places()) && ground == old(NewGround(z))
      requires old(Balanced()) ==> (old(Level(NewGround(z))) <==> old(KeepsBalance(z)))
      requires Links() && Threads() && Places() && Heights()
      ensures Verdict(z)
    {
      LevelExact();
    }

    // delete_node without the cursor
    method DeleteRegion(z: Region) returns (ok: bool, y: Region, pred: Region?)
      requires Sound() && z in nodes
      modifies this`root, this`nodes, this`at, this`ground, nodes
      ensures ok == old(DeleteSafe(z)) && pred in nodes + {null} && y in old(nodes) && nodes == old(nodes) - {y}
      ensures ok ==> Sound() && Content() == old(Content()) - {old(z.start)} && Verdict(z)
      ensures old(Balanced() || Level(NewGround(z)) || Plain(z)) ==> ok
      ensures old(Plain(z)) ==> Cut(z)
    {
      if Balanced() {
        BalancedSafe(z);
        KeepsBalanceExact(z);
      }
      ok, y, pred := MergeAndDelete(z);
      if ok {
        VerdictHolds(z);
      }
    }

    method MergeAndDelete(z: Region) returns (ok: bool, y: Region, pred: Region?)
      requires Sound() && z in nodes
      modifies this`root, this`nodes, this`at, this`ground, nodes
      ensures ok == old(DeleteSafe(z)) && pred in nodes + {null} && y in old(nodes) && nodes == old(nodes) - {y}
      ensures ok ==> Sound() && Content() == old(Content()) - {old(z.start)}
      ensures ground == old(NewGround(z)) && (Level(ground) ==> ok)
      ensures old(Plain(z)) ==> ok && Cut(z)
    {
      pred := MergeGap(z);
      assert Content() == old(Content()) && NewGround(z) == old(NewGround(z)) && DeleteSafe(z) == old(DeleteSafe(z));
      ok, y := DeleteMerged(z, pred);
    }

    method DeleteMerged(z: Region, pred: Region?) returns (ok: bool, y: Region)
      requires 0 <= limit && Links() && Threads() && Reds() && Heights() && Places() && z in nodes && Merged(z, pred)
      modifies this`root, this`nodes, this`at, this`ground, nodes
      ensures ok == old(DeleteSafe(z)) && pred in nodes + {null} && y in old(nodes) && nodes == old(nodes) - {y}
      ensures ok ==> Sound() && Content() == old(Content()) - {old(z.start)}
      ensures ground == old(NewGround(z)) && (Level(ground) ==> ok)
      ensures old(Plain(z)) ==> ok && Cut(z)
    {
      ghost var q := Victim(z).parent;
      assert Linked(Victim(z));
      ghost var x;
      ok, y, x := UnlinkAndSettle(z, pred);
      if ok {
        TookOutContent(z, y);
        if old(Plain(z)) {
          CutBySplice(z, x, q);
        }
      }
    }

    method Delete(z: Region) returns (ok: bool)
      requires Valid() && z in nodes
      modifies this, nodes
      ensures ok == old(DeleteSafe(z))
      ensures ok ==> Valid() && nodes <= old(nodes) && Content() == old(Content()) - {old(z.start)} && Verdict(z)
      ensures old(Balanced() || Level(NewGround(z)) || Plain(z)) ==> ok
      ensures old(Plain(z)) ==> Cut(z)
    {
      var y, pred;
      ok, y, pred := DeleteRegion(z);
      if cursor == z || cursor == y {
        cursor := pred;
      }
    }

    // ---------- what the places say about paths ----------

    // the number of black nodes from the root down to n
    ghost function Blacks(n: Region): nat
      requires Links() && n in nodes
      reads this`root, this`nodes, this`at, nodes`start, nodes`left, nodes`right, nodes`parent,
            nodes`lo, nodes`hi, nodes`prevKey, nodes`nextKey, nodes`isRed
      decreases limit + 1 - (n.hi - n.lo)
    {
      assert Linked(n);
      (if n.isRed then 0 else 1) +
      if n.parent == null then 0
      else
        assert Linked(n.parent);
        Blacks(n.parent)
    }

    lemma {:induction false} BlacksAbove(n: Region)
      requires Links() && Heights() && n in nodes
      ensures root != null && n.left in nodes + {null} && n.right in nodes + {null}
      ensures Blacks(n) + LeftHeight(n, null) == root.bh && LeftHeight(n, null) == RightHeight(n, null)
      decreases limit + 1 - (n.hi - n.lo)
    {
      assert Linked(n) && BlackOk(n);
      if n.parent != null {
        assert Linked(n.parent) && BlackOk(n.parent);
        BlacksAbove(n.parent);
      }
    }

    // two paths from the root to empty places differ in black nodes by as much as the places, the other way
    lemma PathsDiffer(m: Region, n: Region)
      requires Links() && Heights() && m in nodes && n in nodes
      ensures m.left == null && n.left == null ==> Blacks(m) - Blacks(n) == Ground(n.lo) - Ground(m.lo)
      ensures m.left == null && n.right == null ==> Blacks(m) - Blacks(n) == Ground(n.start) - Ground(m.lo)
      ensures m.right == null && n.right == null ==> Blacks(m) - Blacks(n) == Ground(n.start) - Ground(m.start)
    {
      BlacksAbove(m);
      BlacksAbove(n);
    }

    // ---------- paths from the root ----------

    ghost predicate IsPath(path: seq<Region>)
      reads this`nodes, nodes`parent
    {
      && (forall i {:trigger path[i]} :: 0 <= i < |path| ==> path[i] in nodes)
      && (forall i {:trigger Above(path, i)} :: 0 <= i < |path| ==> path[i].parent == Above(path, i))
    }

    twostate predicate WasPath(new path: seq<Region>)
    {
      && (forall i {:trigger path[i]} :: 0 <= i < |path| ==> path[i] in old(nodes))
      && (forall i {:trigger Above(path, i)} :: 0 <= i < |path| ==> old(path[i].parent) == Above(path, i))
    }

    twostate lemma CutOff(new z: Region, new path: seq<Region>)
      requires WasPath(path) && z !in path && Cut(z)
      ensures IsPath(path)
    {
      forall i | 0 <= i < |path| ensures path[i] in nodes && path[i].parent == Above(path, i) {
        assert old(path[i].parent) == Above(path, i);
      }
    }

    twostate lemma CutOn(new path: seq<Region>, i: nat)
      requires WasPath(path) && Distinct(path) && i < |path| && Cut(path[i])
      ensures IsPath(path[..i] + path[i + 1..])
    {
      var rest := path[..i] + path[i + 1..];
      forall k | 0 <= k < |rest|
        ensures rest[k] in nodes && rest[k].parent == Above(rest, k)
      {
        var j := if k < i then k else k + 1;
        assert rest[k] == path[j] && old(path[j].parent) == Above(path, j);
        assert old(path[i].parent) == Above(path, i);
      }
    }

    // ---------- lookups ----------

    lemma RootCoversAll()
      requires Links() && Threads()
      ensures forall n {:trigger n in nodes} :: n in nodes ==> root != null && Covers(root, n)
    {
      forall n | n in nodes ensures root != null && Covers(root, n) {
        RootCovers(n);
      }
    }

    method FindNode(start: int) returns (r: Region?)
      requires Links() && Threads()
      ensures r != null <==> start in at
      ensures r != null ==> r == at[start] && r in nodes
    {
      RootCoversAll();
      r := root;
      while r != null
        invariant r in nodes + {null}
        invariant start in at ==> r != null && Covers(r, at[start])
        decreases if r == null then 0 else r.hi - r.lo
      {
        assert Linked(r) && Threaded(r);
        if start == r.start {
          return;
        }
        if start in at {
          Locate(r, at[start]);
        }
        r := if start < r.start then r.left else r.right;
        if r != null { assert Linked(r); }
      }
    }

    method FindRegionContaining(addr: int) returns (r: Region?)
      requires Links() && Threads() && Gaps()
      ensures r != null ==> r in nodes && r.start <= addr < r.End()
      ensures r == null ==> forall n {:trigger n.End()} :: n in nodes ==> !(n.start <= addr < n.End())
    {
      RootCoversAll();
      r := root;
      while r != null
        invariant r in nodes + {null}
        invariant forall n {:trigger n.End()} :: n in nodes && n.start <= addr < n.End() ==> r != null && Covers(r, n)
        decreases if r == null then 0 else r.hi - r.lo
      {
        assert Linked(r);
        if r.start <= addr < r.End() {
          return;
        }
        forall n | n in nodes && n.start <= addr < n.End() && Covers(r, n)
          ensures var c := if addr < r.start then r.left else r.right; c != null && c in nodes && Covers(c, n)
        {
          Locate(r, n);
          Ordered(r, n);
        }
        r := if addr < r.start then r.left else r.right;
        if r != null { assert Linked(r); }
      }
    }

    // of two regions, the one that starts first also ends first
    lemma Ordered(m: Region, n: Region)
      requires Threads() && Gaps() && m in nodes && n in nodes
      ensures 0 < m.size && 0 < n.size && (m.start == n.start ==> m == n)
      ensures m == n || m.End() <= n.start || n.End() <= m.start
      ensures m.start < n.start ==> m.End() + m.gap <= n.start
      ensures n.start < m.start ==> n.End() + n.gap <= m.start
    {
      assert Threaded(m) && Threaded(n) && Adjacent(m) && Adjacent(n) && GapOk(m) && GapOk(n);
    }

    ghost predicate Meets(n: Region, s: int, e: int)
      requires n in nodes
      reads this`nodes, nodes`start, nodes`size
    {
      s < n.End() && n.start < e
    }

    method CheckOverlap(start: int, size: int) returns (b: bool)
      requires Links() && Threads() && Gaps() && 0 <= size
      ensures b <==> exists n :: n in nodes && Meets(n, start, start + size)
    {
      var end := start + size;
      var curr := root;
      RootCoversAll();
      while curr != null
        invariant curr in nodes + {null}
        invariant forall n {:trigger Meets(n, start, end)} :: n in nodes && Meets(n, start, end) ==> curr != null && Covers(curr, n)
        decreases if curr == null then 0 else curr.hi - curr.lo
      {
        assert Linked(curr);
        if start < curr.End() && end > curr.start {
          assert Meets(curr, start, end);
          return true;
        }
        forall n | n in nodes && Meets(n, start, end) && Covers(curr, n)
          ensures var c := if start < curr.start then curr.left else curr.right; c != null && c in nodes && Covers(c, n)
        {
          Locate(curr, n);
          Ordered(curr, n);
        }
        curr := if start < curr.start then curr.left else curr.right;
        if curr != null { assert Linked(curr); }
      }
      return false;
    }

    // ---------- find_hole ----------

    // where a request would be placed after n
    function Candidate(n: Region, alignment: int): int
      requires 0 <= n.End() && 0 < alignment
      reads n`start, n`size
    {
      AlignUp(n.End(), alignment)
    }

    // the gap after n holds the request once its start is aligned
    ghost predicate Fits(n: Region, size: int, alignment: int)
      requires 0 < alignment
      reads n`start, n`size, n`gap
    {
      0 <= n.End() && Candidate(n, alignment) + size <= n.End() + n.gap
    }

    // find_hole below one node: it skips subtrees whose largest gap is too small
    function FindHoleFrom(node: Region?, size: int, alignment: int): int
      requires Links() && Threads() && Gaps() && node in nodes + {null} && 0 < alignment
      reads this`root, this`nodes, this`at, nodes`start, nodes`left, nodes`right, nodes`parent,
            nodes`lo, nodes`hi, nodes`prevKey, nodes`nextKey, nodes`size, nodes`gap, nodes`maxGap
      decreases if node == null then 0 else node.hi - node.lo
    {
      if node == null then 0
      else if node.maxGap < size then 0
      else
        assert Linked(node) && Threaded(node) && GapOk(node);
        assert node.left != null ==> Linked(node.left);
        assert node.right != null ==> Linked(node.right);
        var left := if node.left != null && node.left.maxGap >= size then FindHoleFrom(node.left, size, alignment) else 0;
        if left != 0 then left
        else
          var candidate := Candidate(node, alignment);
          if node.gap >= size + (candidate - node.End()) then candidate
          else if node.right != null && node.right.maxGap >= size then FindHoleFrom(node.right, size, alignment)
          else 0
    }

    // a subtree's maximum bounds every gap in it
    lemma {:induction false} GapBelowMax(c: Region, k: Region)
      requires Links() && Threads() && Gaps() && Maxes() && c in nodes && k in nodes && Covers(c, k)
      ensures k.gap <= c.maxGap
      decreases c.hi - c.lo
    {
      assert Linked(c) && MaxOk(c) && Threaded(c) && Threaded(k);
      Locate(c, k);
      if k.start < c.start {
        assert Linked(c.left);
        GapBelowMax(c.left, k);
      } else if c.start < k.start {
        assert Linked(c.right);
        GapBelowMax(c.right, k);
      }
    }

    // addr is the place after the lowest region, among those node answers for, whose gap fits
    ghost predicate FirstFit(node: Region, size: int, alignment: int, addr: int)
      requires node in nodes && 0 < alignment
      reads this`nodes, nodes
    {
      exists n :: n in nodes && Covers(node, n) && Fits(n, size, alignment) && addr == Candidate(n, alignment)
        && forall m {:trigger Fits(m, size, alignment)} :: m in nodes && Covers(node, m) && m.start < n.start ==> !Fits(m, size, alignment)
    }

    ghost predicate NoFit(node: Region, size: int, alignment: int)
      requires node in nodes && 0 < alignment
      reads this`nodes, nodes
    {
      forall m {:trigger Fits(m, size, alignment)} :: m in nodes && Covers(node, m) ==> !Fits(m, size, alignment)
    }

    // what node answers for is node itself and what its children answer for
    lemma Parts(node: Region, k: Region)
      requires Links() && Threads() && node in nodes && k in nodes
      ensures Covers(node, k) <==> k == node || (node.left != null && node.left in nodes && Covers(node.left, k))
                                             || (node.right != null && node.right in nodes && Covers(node.right, k))
      ensures node.left != null && node.left in nodes && Covers(node.left, k) ==> k.start < node.start
      ensures node.right != null && node.right in nodes && Covers(node.right, k) ==> node.start < k.start
    {
      assert Linked(node) && Threaded(node) && Threaded(k);
      if node.left != null { assert Linked(node.left); }
      if node.right != null { assert Linked(node.right); }
      if Covers(node, k) {
        Locate(node, k);
      }
    }

    ghost predicate NoFitBelow(child: Region?, size: int, alignment: int)
      requires child in nodes + {null} && 0 < alignment
      reads this`nodes, nodes
    {
      child != null ==> NoFit(child, size, alignment)
    }

    lemma PrunedNoFit(c: Region, size: int, alignment: int)
      requires Links() && Threads() && Gaps() && Maxes() && c in nodes && 0 < alignment && c.maxGap < size
      ensures NoFit(c, size, alignment)
    {
      forall m | m in nodes && Covers(c, m) ensures !Fits(m, size, alignment) {
        GapBelowMax(c, m);
      }
    }

    lemma NoFitParts(node: Region, size: int, alignment: int)
      requires Links() && Threads() && node in nodes && 0 < alignment && node.left in nodes + {null} && node.right in nodes + {null}
      requires NoFitBelow(node.left, size, alignment) && !Fits(node, size, alignment) && NoFitBelow(node.right, size, alignment)
      ensures NoFit(node, size, alignment)
    {
      forall m | m in nodes && Covers(node, m) ensures !Fits(m, size, alignment) {
        Parts(node, m);
      }
    }

    lemma FitLeft(node: Region, size: int, alignment: int, addr: int)
      requires Links() && Threads() && node in nodes && 0 < alignment && node.left != null && node.left in nodes
      requires FirstFit(node.left, size, alignment, addr)
      ensures FirstFit(node, size, alignment, addr)
    {
      var n :| n in nodes && Covers(node.left, n) && Fits(n, size, alignment) && addr == Candidate(n, alignment)
        && forall m {:trigger Fits(m, size, alignment)} :: m in nodes && Covers(node.left, m) && m.start < n.start ==> !Fits(m, size, alignment);
      Parts(node, n);
      forall m | m in nodes && Covers(node, m) && m.start < n.start ensures !Fits(m, size, alignment) {
        Parts(node, m);
      }
    }

    lemma FitHere(node: Region, size: int, alignment: int)
      requires Links() && Threads() && node in nodes && 0 < alignment && node.left in nodes + {null}
      requires NoFitBelow(node.left, size, alignment) && Fits(node, size, alignment)
      ensures FirstFit(node, size, alignment, Candidate(node, alignment))
    {
      Parts(node, node);
      forall m | m in nodes && Covers(node, m) && m.start < node.start ensures !Fits(m, size, alignment) {
        Parts(node, m);
      }
    }

    lemma FitRight(node: Region, size: int, alignment: int, addr: int)
      requires Links() && Threads() && node in nodes && 0 < alignment && node.right != null && node.right in nodes
      requires node.left in nodes + {null} && NoFitBelow(node.left, size, alignment) && !Fits(node, size, alignment)
      requires FirstFit(node.right, size, alignment, addr)
      ensures FirstFit(node, size, alignment, addr)
    {
      var n :| n in nodes && Covers(node.right, n) && Fits(n, size, alignment) && addr == Candidate(n, alignment)
        && forall m {:trigger Fits(m, size, alignment)} :: m in nodes && Covers(node.right, m) && m.start < n.start ==> !Fits(m, size, alignment);
      Parts(node, n);
      forall m | m in nodes && Covers(node, m) && m.start < n.start ensures !Fits(m, size, alignment) {
        Parts(node, m);
      }
    }

    // the pruned search is a first-fit scan in address order
    lemma {:induction false} FindHoleFirstFit(node: Region, size: int, alignment: int)
      requires Links() && Threads() && Gaps() && Maxes() && node in nodes && 0 < size && 0 < alignment
      ensures var r := FindHoleFrom(node, size, alignment);
        if r == 0 then NoFit(node, size, alignment) else FirstFit(node, size, alignment, r)
      decreases node.hi - node.lo
    {
      assert Linked(node) && Threaded(node) && GapOk(node);
      var r := FindHoleFrom(node, size, alignment);
      if node.maxGap < size {
        PrunedNoFit(node, size, alignment);
        return;
      }
      if node.left != null {
        assert Linked(node.left);
        if node.left.maxGap < size {
          PrunedNoFit(node.left, size, alignment);
        } else {
          FindHoleFirstFit(node.left, size, alignment);
          var left := FindHoleFrom(node.left, size, alignment);
          if left != 0 {
            FitLeft(node, size, alignment, left);
            return;
          }
        }
      }
      if Fits(node, size, alignment) {
        FitHere(node, size, alignment);
        return;
      }
      if node.right != null {
        assert Linked(node.right);
        if node.right.maxGap < size {
          PrunedNoFit(node.right, size, alignment);
        } else {
          FindHoleFirstFit(node.right, size, alignment);
          if r != 0 {
            FitRight(node, size, alignment, r);
            return;
          }
        }
      }
      NoFitParts(node, size, alignment);
    }

    // the user variant of find_hole also checks the end of the address space
    function FindBoundedHoleFrom(node: Region?, size: int, alignment: int): int
      requires Links() && Threads() && Gaps() && node in nodes + {null} && 0 < alignment
      reads this`root, this`nodes, this`at, nodes`start, nodes`left, nodes`right, nodes`parent,
            nodes`lo, nodes`hi, nodes`prevKey, nodes`nextKey, nodes`size, nodes`gap, nodes`maxGap
      decreases if node == null then 0 else node.hi - node.lo
    {
      if node == null then 0
      else if node.maxGap < size then 0
      else
        assert Linked(node) && Threaded(node) && GapOk(node);
        assert node.left != null ==> Linked(node.left);
        assert node.right != null ==> Linked(node.right);
        var left := if node.left != null && node.left.maxGap >= size then FindBoundedHoleFrom(node.left, size, alignment) else 0;
        if left != 0 then left
        else
          var candidate := Candidate(node, alignment);
          if node.gap >= size + (candidate - node.End()) && candidate + size <= limit then candidate
          else if node.right != null && node.right.maxGap >= size then FindBoundedHoleFrom(node.right, size, alignment)
          else 0
    }

    // a gap that fits never reaches past the end, so the extra check changes nothing
    lemma {:induction false} BoundRedundant(node: Region?, size: int, alignment: int)
      requires Links() && Threads() && Gaps() && node in nodes + {null} && 0 < alignment
      ensures FindBoundedHoleFrom(node, size, alignment) == FindHoleFrom(node, size, alignment)
      decreases if node == null then 0 else node.hi - node.lo
    {
      if node != null {
        assert Linked(node) && Threaded(node) && GapOk(node);
        if node.left != null { assert Linked(node.left); }
        if node.right != null { assert Linked(node.right); }
        BoundRedundant(node.left, size, alignment);
        BoundRedundant(node.right, size, alignment);
      }
    }

    // a request placed in a gap that fits meets no region and stays below the limit
    lemma FitClear(n: Region, size: int, alignment: int)
      requires Threads() && Gaps() && n in nodes && 0 < size && 0 < alignment && Fits(n, size, alignment)
      ensures var c := Candidate(n, alignment); Clear(c, c + size) && n.start < c && c + size <= limit && c % alignment == 0
    {
      assert Threaded(n) && GapOk(n);
      forall m | m in nodes ensures Candidate(n, alignment) + size <= m.start || m.End() <= Candidate(n, alignment) {
        Ordered(n, m);
      }
    }

    method LastRegion() returns (max: Region)
      requires Links() && Threads() && Gaps() && root != null
      ensures max in nodes && max.nextKey == limit
      ensures forall n {:trigger n.End()} :: n in nodes ==> n.End() <= max.End()
    {
      max := root;
      while max.right != null
        invariant max in nodes && max.hi == limit
        decreases max.hi - max.lo
      {
        assert Linked(max) && Linked(max.right);
        max := max.right;
      }
      assert Linked(max);
      forall n | n in nodes ensures n.End() <= max.End() {
        Ordered(max, n);
        assert Threaded(n) && Threaded(max) && Adjacent(max);
        assert n.start in at;
      }
    }

    // some gap holds the request
    ghost predicate SomeFit(size: int, alignment: int)
      requires 0 < alignment
      reads this`nodes, nodes
    {
      exists n :: n in nodes && Fits(n, size, alignment)
    }

    // after the last region the request fits only if the last gap holds it
    lemma TailFit(max: Region, size: int, alignment: int)
      requires Threads() && Gaps() && max in nodes && max.nextKey == limit && 0 < size && 0 < alignment
      requires forall n {:trigger n.End()} :: n in nodes ==> n.End() <= max.End()
      ensures Threaded(max) && GapOk(max) && 0 <= max.End()
      ensures var c := Candidate(max, alignment); Clear(c, c + size) && max.start < c && c % alignment == 0
      ensures Candidate(max, alignment) + size <= limit ==> SomeFit(size, alignment)
    {
      assert Threaded(max) && GapOk(max);
      var c := Candidate(max, alignment);
      assert c + size <= limit ==> Fits(max, size, alignment);
    }

    lemma FirstFitClear(size: int, alignment: int, addr: int) returns (n: Region)
      requires Links() && Threads() && Gaps() && root != null && root in nodes && 0 < size && 0 < alignment
      requires FirstFit(root, size, alignment, addr)
      ensures SomeFit(size, alignment) && Clear(addr, addr + size) && addr + size <= limit && addr % alignment == 0
      ensures n in nodes && n.start < addr
    {
      n :| n in nodes && Covers(root, n) && Fits(n, size, alignment) && addr == Candidate(n, alignment);
      FitClear(n, size, alignment);
    }

    lemma KeyOf(n: Region)
      requires Threads() && n in nodes
      ensures n.start in Content()
    {
      assert Threaded(n);
    }

    // ---------- holes, without the search ----------

    // size free bytes start at the aligned address a, which lies at or above the end of some region
    ghost predicate Hole(a: int, size: int, alignment: int)
      requires 0 < alignment
      reads this`nodes, nodes
    {
      a % alignment == 0 && Clear(a, a + size) && a + size <= limit && exists n :: n in nodes && n.End() <= a
    }

    ghost predicate LowestHole(addr: int, size: int, alignment: int)
      requires 0 < alignment
      reads this`nodes, nodes
    {
      Hole(addr, size, alignment) && forall a {:trigger Hole(a, size, alignment)} :: Hole(a, size, alignment) ==> addr <= a
    }

    // the same in the gap after c
    ghost predicate GapHole(c: Region, a: int, size: int, alignment: int)
      requires 0 < alignment
      reads c`start, c`size, c`gap
    {
      a % alignment == 0 && c.End() <= a && a + size <= c.End() + c.gap
    }

    // the candidate is the lowest aligned address in the gap
    lemma FitsExact(n: Region, a: int, size: int, alignment: int)
      requires 0 < alignment && 0 <= n.End()
      ensures GapHole(n, a, size, alignment) ==> Fits(n, size, alignment) && Candidate(n, alignment) <= a
      ensures Fits(n, size, alignment) ==> GapHole(n, Candidate(n, alignment), size, alignment)
    {
      var c := Candidate(n, alignment);
      if GapHole(n, a, size, alignment) && a < c {
        AlignedApart(a, c, alignment);
      }
    }

    // the region before a hole has the hole in its gap
    lemma {:induction false} BeforeHole(n: Region, a: int, size: int, alignment: int) returns (m: Region)
      requires Threads() && Gaps() && n in nodes && n.End() <= a && 0 < size && 0 < alignment
      requires a % alignment == 0 && Clear(a, a + size) && a + size <= limit
      ensures m in nodes && 0 <= m.End() && GapHole(m, a, size, alignment)
      decreases limit - n.start
    {
      assert Threaded(n) && GapOk(n);
      if n.nextKey == limit {
        m := n;
      } else {
        var next := at[n.nextKey];
        assert Threaded(next) && GapOk(next);
        if next.End() <= a {
          m := BeforeHole(next, a, size, alignment);
        } else {
          m := n;
        }
      }
    }

    lemma FitHole(n: Region, size: int, alignment: int)
      requires Threads() && Gaps() && n in nodes && 0 < size && 0 < alignment && Fits(n, size, alignment)
      ensures Hole(Candidate(n, alignment), size, alignment)
    {
      FitClear(n, size, alignment);
    }

    // there is room exactly when there is a hole
    lemma SomeFitExact(size: int, alignment: int)
      requires Threads() && Gaps() && 0 < size && 0 < alignment
      ensures SomeFit(size, alignment) <==> exists a :: Hole(a, size, alignment)
    {
      if n :| n in nodes && Fits(n, size, alignment) {
        FitHole(n, size, alignment);
      }
      if a :| Hole(a, size, alignment) {
        var n :| n in nodes && n.End() <= a;
        var m := BeforeHole(n, a, size, alignment);
        FitsExact(m, a, size, alignment);
      }
    }

    // the first fit is the lowest hole
    lemma FirstFitLowest(size: int, alignment: int, addr: int)
      requires Links() && Threads() && Gaps() && root != null && root in nodes && 0 < size && 0 < alignment
      requires FirstFit(root, size, alignment, addr)
      ensures LowestHole(addr, size, alignment)
    {
      var n :| n in nodes && Covers(root, n) && Fits(n, size, alignment) && addr == Candidate(n, alignment)
        && forall m {:trigger Fits(m, size, alignment)} :: m in nodes && Covers(root, m) && m.start < n.start ==> !Fits(m, size, alignment);
      FitHole(n, size, alignment);
      forall a | Hole(a, size, alignment) ensures addr <= a {
        var k :| k in nodes && k.End() <= a;
        var m := BeforeHole(k, a, size, alignment);
        FitsExact(m, a, size, alignment);
        RootCovers(m);
        assert Threaded(n) && GapOk(n);
        Ordered(n, m);
      }
    }

    // the search finds the lowest hole, and 0 only if there is none
    lemma FindHoleLowest(size: int, alignment: int)
      requires Sound() && root != null && 0 < size && 0 < alignment
      ensures var r := FindHoleFrom(root, size, alignment);
        if r == 0 then forall a {:trigger Hole(a, size, alignment)} :: !Hole(a, size, alignment) else LowestHole(r, size, alignment)
    {
      assert Linked(root);
      FindHoleFirstFit(root, size, alignment);
      if FindHoleFrom(root, size, alignment) == 0 {
        NoFitNone(size, alignment);
        SomeFitExact(size, alignment);
      } else {
        FirstFitLowest(size, alignment, FindHoleFrom(root, size, alignment));
      }
    }

    // where a request goes: into the gap after the cursor if it has a hole, and else into the lowest hole
    ghost predicate Chosen(size: int, alignment: int, addr: int)
      requires 0 < alignment
      reads this`nodes, this`cursor, nodes, cursor
    {
      if cursor != null && exists a :: GapHole(cursor, a, size, alignment) then
        && GapHole(cursor, addr, size, alignment)
        && forall a {:trigger GapHole(cursor, a, size, alignment)} :: GapHole(cursor, a, size, alignment) ==> addr <= a
      else LowestHole(addr, size, alignment)
    }

    lemma ChosenByFit(size: int, alignment: int, addr: int)
      requires Valid() && root != null && 0 < size && 0 < alignment && SomeFit(size, alignment)
      requires if cursor != null && Fits(cursor, size, alignment) then addr == Candidate(cursor, alignment)
        else root in nodes && FirstFit(root, size, alignment, addr)
      ensures Chosen(size, alignment, addr)
    {
      if cursor != null {
        assert Threaded(cursor) && GapOk(cursor);
        forall a ensures GapHole(cursor, a, size, alignment) ==> Fits(cursor, size, alignment) && Candidate(cursor, alignment) <= a {
          FitsExact(cursor, a, size, alignment);
        }
        FitsExact(cursor, addr, size, alignment);
      }
      if !(cursor != null && Fits(cursor, size, alignment)) {
        FirstFitLowest(size, alignment, addr);
      }
    }

    lemma NoFitNone(size: int, alignment: int)
      requires Links() && Threads() && (root == null || (root in nodes && 0 < alignment && NoFit(root, size, alignment))) && 0 < alignment
      ensures !SomeFit(size, alignment)
    {
      RootCoversAll();
    }
  }
}
