/** The 4-ary min-heap, for timer events ordered by expiry. */
module TimerHeap {
  const D := 4

  datatype Mode = TscDeadline | OneShot | Periodic

  // job stands for the callback and its data
  datatype Event = Event(expiry: nat, interval: nat, mode: Mode, job: nat, id: nat)

  predicate Less(a: Event, b: Event)
  {
    a.expiry < b.expiry
  }

  function Parent(i: nat): (p: nat)
    requires 0 < i
    ensures p < i && D * p + 1 <= i <= D * p + D
  {
    (i - 1) / D
  }

  // the edge from i up to its parent is in order
  ghost predicate Edge(s: seq<Event>, i: int)
    requires 0 < i < |s|
  {
    !Less(s[i], s[Parent(i)])
  }

  // edges below nodes from lo on are in order
  ghost predicate HeapFrom(s: seq<Event>, lo: nat)
  {
    forall i {:trigger Edge(s, i)} :: 0 < i < |s| && lo <= Parent(i) ==> Edge(s, i)
  }

  ghost predicate IsHeap(s: seq<Event>)
  {
    HeapFrom(s, 0)
  }

  // in order except for the edge above h, over which h's children could be lifted
  ghost predicate HeapAbove(s: seq<Event>, h: nat)
  {
    && (forall i {:trigger Edge(s, i)} :: 0 < i < |s| && i != h ==> Edge(s, i))
    && (forall i {:trigger s[i]} :: 0 < i < |s| && Parent(i) == h && 0 < h < |s| ==> !Less(s[i], s[Parent(h)]))
  }

  // in order from lo on except for the edges below h, over which h's children could be lifted
  ghost predicate HeapBelow(s: seq<Event>, lo: nat, h: nat)
  {
    && (forall i {:trigger Edge(s, i)} :: 0 < i < |s| && lo <= Parent(i) && Parent(i) != h ==> Edge(s, i))
    && (forall i {:trigger s[i]} :: 0 < i < |s| && Parent(i) == h && 0 < h < |s| && lo <= Parent(h) ==> !Less(s[i], s[Parent(h)]))
  }

  function Swap(s: seq<Event>, i: nat, j: nat): seq<Event>
    requires i < |s| && j < |s|
  {
    s[i := s[j]][j := s[i]]
  }

  lemma SwapSame(s: seq<Event>, i: nat, j: nat)
    requires i < |s| && j < |s|
    ensures multiset(Swap(s, i, j)) == multiset(s)
  {
  }

  // the root is a least element
  lemma {:induction false} RootLeast(s: seq<Event>, i: nat)
    requires IsHeap(s) && i < |s|
    ensures s[0].expiry <= s[i].expiry
  {
    if i > 0 {
      assert Edge(s, i);
      RootLeast(s, Parent(i));
    }
  }

  lemma LiftKeeps(s: seq<Event>, h: nat)
    requires 0 < h < |s| && HeapAbove(s, h) && Less(s[h], s[Parent(h)])
    ensures HeapAbove(Swap(s, h, Parent(h)), Parent(h))
  {
    var p := Parent(h);
    var s' := Swap(s, h, p);
    forall i | 0 < i < |s'| && i != p ensures Edge(s', i) {
      if i != h { assert Edge(s, i); }
    }
    forall i | 0 < i < |s'| && Parent(i) == p && 0 < p ensures !Less(s'[i], s'[Parent(p)]) {
      assert Edge(s, p);
      if i != h { assert Edge(s, i); }
    }
  }

  lemma LiftDone(s: seq<Event>, h: nat)
    requires HeapAbove(s, h) && (0 < h < |s| ==> !Less(s[h], s[Parent(h)]))
    ensures IsHeap(s)
  {
    forall i | 0 < i < |s| ensures Edge(s, i) {
    }
  }

  // c is a least child of h
  ghost predicate LeastChild(s: seq<Event>, h: nat, c: nat)
  {
    && 0 < c < |s| && Parent(c) == h
    && forall i {:trigger s[i]} :: 0 < i < |s| && Parent(i) == h ==> !Less(s[i], s[c])
  }

  lemma SinkKeeps(s: seq<Event>, lo: nat, h: nat, c: nat)
    requires h < |s| && lo <= h && HeapBelow(s, lo, h) && LeastChild(s, h, c) && Less(s[c], s[h])
    ensures HeapBelow(Swap(s, h, c), lo, c)
  {
    var s' := Swap(s, h, c);
    forall i | 0 < i < |s'| && lo <= Parent(i) && Parent(i) != c ensures Edge(s', i) {
      if Parent(i) != h && i != h { assert Edge(s, i); }
    }
    forall i | 0 < i < |s'| && Parent(i) == c && lo <= Parent(c) ensures !Less(s'[i], s'[Parent(c)]) {
      assert Edge(s, i);
    }
  }

  lemma SinkDone(s: seq<Event>, lo: nat, h: nat)
    requires h < |s| && lo <= h && HeapBelow(s, lo, h)
    requires forall i {:trigger s[i]} :: 0 < i < |s| && Parent(i) == h ==> !Less(s[i], s[h])
    ensures HeapFrom(s, lo)
  {
    forall i | 0 < i < |s| && lo <= Parent(i) ensures Edge(s, i) {
    }
  }

  // filling the hole at i from k moves the hole to k
  lemma HoleMoves(data: seq<Event>, s: seq<Event>, i: nat, k: nat, target: Event)
    requires i < |data| && k < |data| && i != k && s == data[i := target]
    ensures Swap(s, i, k) == data[i := data[k]][k := target]
  {
  }

  class MinHeap {
    var data: seq<Event>

    constructor ()
      ensures data == []
    {
      data := [];
    }

    // target travels up as a hole, which the larger parents fill
    method SiftUp(start: nat)
      requires start < |data| && HeapAbove(data, start)
      modifies this
      ensures IsHeap(data) && multiset(data) == old(multiset(data))
    {
      var index := start;
      if index == 0 {
        LiftDone(data, 0);
        return;
      }
      var target := data[index];
      ghost var s := data;
      while index > 0
        invariant index < |data| && s == data[index := target] && HeapAbove(s, index) && multiset(s) == old(multiset(data))
      {
        var parentIdx := Parent(index);
        if Less(target, data[parentIdx]) {
          LiftKeeps(s, index);
          SwapSame(s, index, parentIdx);
          HoleMoves(data, s, index, parentIdx, target);
          s := Swap(s, index, parentIdx);
          data := data[index := data[parentIdx]];
          index := parentIdx;
        } else {
          break;
        }
      }
      LiftDone(s, index);
      data := data[index := target];
    }

    method SmallestChild(index: nat) returns (c: nat)
      requires D * index + 1 < |data|
      ensures LeastChild(data, index, c)
    {
      var childStart := D * index + 1;
      var childEnd := childStart + D;
      if childEnd > |data| {
        childEnd := |data|;
      }
      c := childStart;
      var i := childStart + 1;
      while i < childEnd
        invariant childStart < i <= childEnd && childStart <= c < i && forall k {:trigger data[k]} :: childStart <= k < i ==> !Less(data[k], data[c])
      {
        if Less(data[i], data[c]) {
          c := i;
        }
        i := i + 1;
      }
    }

    // target travels down as a hole, which the smallest children fill
    method SiftDown(start: nat, ghost lo: nat)
      requires start < |data| && lo <= start && HeapBelow(data, lo, start)
      modifies this
      ensures HeapFrom(data, lo) && multiset(data) == old(multiset(data)) && |data| == |old(data)|
    {
      var index := start;
      var target := data[index];
      ghost var s := data;
      while true
        invariant lo <= index < |data| == |old(data)| && s == data[index := target] && HeapBelow(s, lo, index) && multiset(s) == old(multiset(data))
        decreases |data| - index
      {
        if D * index + 1 >= |data| {
          break;
        }
        var c := SmallestChild(index);
        LeastOf(data, s, index, c);
        if Less(data[c], target) {
          SinkKeeps(s, lo, index, c);
          SwapSame(s, index, c);
          s := Swap(s, index, c);
          data := data[index := data[c]];
          index := c;
        } else {
          break;
        }
      }
      SinkDone(s, lo, index);
      data := data[index := target];
    }

    method Insert(value: Event)
      requires IsHeap(data)
      modifies this
      ensures IsHeap(data) && multiset(data) == old(multiset(data)) + multiset{value}
    {
      Appended(data, value);
      data := data + [value];
      SiftUp(|data| - 1);
    }

    method ExtractMin() returns (ok: bool, value: Event)
      requires IsHeap(data)
      modifies this
      ensures ok <==> old(data) != []
      ensures IsHeap(data) && (!ok ==> data == [])
      ensures ok ==> value == old(data)[0] && old(multiset(data)) == multiset(data) + multiset{value}
      ensures ok ==> forall e {:trigger e in old(data)} :: e in old(data) ==> value.expiry <= e.expiry
    {
      if data == [] {
        return false, Event(0, 0, OneShot, 0, 0);
      }
      ghost var s := data;
      forall e | e in s ensures s[0].expiry <= e.expiry {
        var i :| 0 <= i < |s| && s[i] == e;
        RootLeast(s, i);
      }
      ok, value := true, data[0];
      var last := data[|data| - 1];
      data := data[..|data| - 1];
      Moved(s, 0);
      if data != [] {
        data := data[0 := last];
        RootReplaced(s, data);
        SiftDown(0, 0);
      }
    }

    method Erase(index: nat)
      requires IsHeap(data)
      modifies this
      ensures IsHeap(data)
      ensures if index < |old(data)| then multiset(data) == old(multiset(data)) - multiset{old(data)[index]} else data == old(data)
    {
      if index >= |data| {
        return;
      }
      ghost var s := data;
      var last := data[|data| - 1];
      data := data[..|data| - 1];
      Moved(s, index);
      if index == |data| {
        Shortened(s);
        return;
      }
      data := data[index := last];
      if index > 0 && Less(data[index], data[Parent(index)]) {
        ReplacedUp(s, data, index);
        SiftUp(index);
      } else {
        ReplacedDown(s, data, index);
        SiftDown(index, 0);
      }
    }

    // sift every inner node, the last one first
    method Heapify()
      modifies this
      ensures IsHeap(data) && multiset(data) == old(multiset(data))
    {
      if |data| > 1 {
        var i := (|data| - 2) / D;
        while i >= 0
          invariant -1 <= i && |data| == |old(data)| > 1 && i <= (|data| - 2) / D
          invariant HeapFrom(data, i + 1) && multiset(data) == old(multiset(data))
        {
          assert HeapBelow(data, i, i);
          SiftDown(i, i);
          i := i - 1;
        }
      }
    }

    method EraseIf(id: nat) returns (count: nat)
      requires IsHeap(data)
      modifies this
      ensures IsHeap(data) && multiset(data) == multiset(Without(old(data), id)) && count == |old(data)| - |data|
    {
      var kept := Without(data, id);
      count := |data| - |kept|;
      WithoutNone(data, id);
      if count > 0 {
        data := kept;
        Heapify();
        assert |multiset(data)| == |data| && |multiset(kept)| == |kept|;
      }
    }
  }

  // the events of s with another id, in order
  function Without(s: seq<Event>, id: nat): (r: seq<Event>)
    ensures |r| <= |s|
  {
    if s == [] then []
    else (if s[0].id == id then [] else [s[0]]) + Without(s[1..], id)
  }

  lemma {:induction false} WithoutNone(s: seq<Event>, id: nat)
    ensures |Without(s, id)| == |s| ==> Without(s, id) == s
  {
    if s != [] {
      WithoutNone(s[1..], id);
      assert s == [s[0]] + s[1..];
    }
  }

  // how often an event is left
  lemma {:induction false} WithoutCount(s: seq<Event>, id: nat, e: Event)
    ensures multiset(Without(s, id))[e] == if e.id == id then 0 else multiset(s)[e]
  {
    if s != [] {
      WithoutCount(s[1..], id, e);
      assert s == [s[0]] + s[1..];
    }
  }

  lemma Appended(s: seq<Event>, x: Event)
    requires IsHeap(s)
    ensures HeapAbove(s + [x], |s|)
  {
    var s' := s + [x];
    forall i | 0 < i < |s'| && i != |s| ensures Edge(s', i) {
      assert Edge(s, i);
    }
  }

  // taking the element at i out by moving the last one there
  lemma Moved(s: seq<Event>, i: nat)
    requires i < |s|
    ensures var t := s[..|s| - 1];
      multiset(s) - multiset{s[i]} == multiset(if i < |t| then t[i := s[|s| - 1]] else t)
    ensures s[i] in multiset(s)
  {
    var t, last := s[..|s| - 1], s[|s| - 1];
    assert s == t + [last];
  }

  lemma Shortened(s: seq<Event>)
    requires IsHeap(s) && s != []
    ensures IsHeap(s[..|s| - 1])
  {
    var t := s[..|s| - 1];
    forall i | 0 < i < |t| ensures Edge(t, i) {
      assert Edge(s, i);
    }
  }

  // t is s without its last element, which has replaced the one at h
  ghost predicate Replaced(s: seq<Event>, t: seq<Event>, h: nat)
  {
    |t| == |s| - 1 && h < |t| && t == s[..|t|][h := s[|t|]]
  }

  lemma RootReplaced(s: seq<Event>, t: seq<Event>)
    requires IsHeap(s) && Replaced(s, t, 0)
    ensures HeapBelow(t, 0, 0)
  {
    forall i | 0 < i < |t| && Parent(i) != 0 ensures Edge(t, i) {
      assert Edge(s, i);
    }
  }

  // in a heap, grandchildren are no smaller
  lemma Grand(s: seq<Event>, h: nat, i: nat)
    requires IsHeap(s) && 0 < h < |s| && 0 < i < |s| && Parent(i) == h
    ensures s[Parent(h)].expiry <= s[h].expiry <= s[i].expiry
  {
    assert Edge(s, h) && Edge(s, i);
  }

  lemma ReplacedUp(s: seq<Event>, t: seq<Event>, h: nat)
    requires IsHeap(s) && Replaced(s, t, h) && 0 < h && Less(t[h], t[Parent(h)])
    ensures HeapAbove(t, h)
  {
    forall i | 0 < i < |t| && i != h ensures Edge(t, i) {
      assert Edge(s, i);
      if Parent(i) == h { Grand(s, h, i); }
    }
    forall i | 0 < i < |t| && Parent(i) == h ensures !Less(t[i], t[Parent(h)]) {
      Grand(s, h, i);
    }
  }

  lemma ReplacedDown(s: seq<Event>, t: seq<Event>, h: nat)
    requires IsHeap(s) && Replaced(s, t, h) && (0 < h ==> !Less(t[h], t[Parent(h)]))
    ensures HeapBelow(t, 0, h)
  {
    forall i | 0 < i < |t| && Parent(i) != h ensures Edge(t, i) {
      assert Edge(s, i);
    }
    forall i | 0 < i < |t| && Parent(i) == h && 0 < h ensures !Less(t[i], t[Parent(h)]) {
      Grand(s, h, i);
    }
  }

  // the hole is not among its own children
  lemma LeastOf(data: seq<Event>, s: seq<Event>, h: nat, c: nat)
    requires |data| == |s| && h < |s| && LeastChild(data, h, c) && forall i {:trigger s[i]} :: 0 <= i < |s| && i != h ==> s[i] == data[i]
    ensures LeastChild(s, h, c)
  {
  }
}
