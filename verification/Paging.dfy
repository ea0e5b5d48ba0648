/** Mapping, unmapping and translating through the page tables that one page map owns. */
module Paging {
  import opened BitMath
  import opened Common
  import opened PageFrames
  import opened PageTables
  import opened RangeNeeds
  import opened TableGrowth
  import opened TableLinks

  const FRAMES := 0x100_0000_0000

  function TargetLevel(size: PageSize): nat
  {
    match size
    case Size4K => 1
    case Size2M => 2
    case Size1G => 3
  }

  // the entry that map stores: a large page is marked huge, and the PAT bit of a cache type is
  // bit 7 (the same bit) in a 4K entry but bit 12 (the lowest frame bit) in a large one
  function LeafEntry(phys: nat, present: bool, pat: bool, size: PageSize): Entry
  {
    var frame := phys / Span(1) % FRAMES;
    if size.Size4K? then Entry(present, pat, frame)
    else Entry(present, true, if pat && frame % 2 == 0 then frame + 1 else frame)
  }

  const PHYS_SPAN := 0x10_0000_0000_0000

  lemma FrameOf(phys: nat)
    requires phys % Span(1) == 0
    ensures phys / Span(1) % FRAMES * Span(1) == phys % PHYS_SPAN
  {
    var k := phys / Span(1);
    assert phys == Span(1) * k;
    assert k == FRAMES * (k / FRAMES) + k % FRAMES;
  }

  lemma InPhysRange(p: nat)
    requires p < PHYS_SPAN
    ensures p % PHYS_SPAN == p
  {
  }

  lemma MultipleAligned(n: nat, k: int, l: nat)
    requires 1 <= l < TOP && n == Span(l) * k
    ensures n % Span(l) == 0
  {
  }

  // a page that is aligned to its size is aligned to the smaller ones
  lemma {:induction false} FinerAligned(phys: nat, l: nat, m: nat)
    requires 1 <= m <= l < TOP && phys % Span(l) == 0
    ensures phys % Span(m) == 0
  {
    if m < l {
      var k := phys / Span(l);
      assert phys == Span(l) * k && Span(l) == 512 * Span(l - 1);
      assert phys == Span(l - 1) * (512 * k);
      MultipleAligned(phys, 512 * k, l - 1);
      FinerAligned(phys, l - 1, m);
    }
  }

  // page sizes divide the physical range
  lemma BaseAligned(phys: nat, l: nat)
    requires 1 <= l < TOP && phys % Span(l) == 0
    ensures phys % PHYS_SPAN % Span(l) == 0
  {
    var k, q := phys / Span(l), phys / PHYS_SPAN;
    assert phys == Span(l) * k && phys % PHYS_SPAN == phys - PHYS_SPAN * q;
    MultipleAligned(phys % PHYS_SPAN, k - PHYS_SPAN / Span(l) * q, l);
  }

  lemma OffsetDrops(base: nat, d: nat, l: nat)
    requires 1 <= l < TOP && base % Span(l) == 0 && d < Span(l)
    ensures (base + d) / Span(l) * Span(l) == base
  {
    var k := base / Span(l);
    assert base == k * Span(l);
    DivUnique(base + d, Span(l), k, d);
  }

  // a stored entry leads to the address it was made from, whatever the cache bit of a large page
  lemma LeafOf(phys: nat, present: bool, pat: bool, size: PageSize, v: nat)
    requires phys % Span(TargetLevel(size)) == 0
    ensures Leaf(LeafEntry(phys, present, pat, size), TargetLevel(size), v) == phys % PHYS_SPAN + v % Span(TargetLevel(size))
  {
    var l := TargetLevel(size);
    BaseAligned(phys, l);
    FinerAligned(phys, l, 1);
    FrameOf(phys);
    OffsetDrops(phys % PHYS_SPAN, 0, l);
    if l > 1 {
      OffsetDrops(phys % PHYS_SPAN, Span(1), l);
    }
  }

  // translation through mem' sends va .. va + len to phys on (or nowhere), and the rest as mem does
  ghost predicate Placed(mem: Memory, mem': Memory, root: nat, va: nat, len: nat, phys: nat, present: bool)
  {
    forall v: nat {:trigger Walk(mem', root, TOP, v)} :: v < Span(5) ==>
      Walk(mem', root, TOP, v) == PlacedAt(mem, root, va, len, phys, present, v)
  }

  ghost function PlacedAt(mem: Memory, root: nat, va: nat, len: nat, phys: nat, present: bool, v: nat): Option<nat>
  {
    Overlaid(Walk(mem, root, TOP, v), va, len, phys, present, v)
  }

  // what v goes to where va .. va + len is laid over a translation that sends it to base
  function Overlaid(base: Option<nat>, va: nat, len: nat, phys: nat, present: bool, v: nat): Option<nat>
  {
    if !(va <= v < va + len) then base else if present then Some(phys + (v - va)) else None
  }

  lemma OverlaidTwice(base: Option<nat>, va: nat, len: nat, mid: nat, step: nat, phys: nat, midPhys: nat, present: bool,
      v: nat)
    requires mid == va + len && midPhys == phys + len
    ensures Overlaid(Overlaid(base, va, len, phys, present, v), mid, step, midPhys, present, v) ==
      Overlaid(base, va, len + step, phys, present, v)
  {
  }

  // adjoining ranges
  lemma PlacedOn(mem: Memory, mem': Memory, mem'': Memory, root: nat, va: nat, len: nat, mid: nat, step: nat, phys: nat,
      midPhys: nat, present: bool)
    requires mid == va + len && midPhys == phys + len
    requires Placed(mem, mem', root, va, len, phys, present) && Placed(mem', mem'', root, mid, step, midPhys, present)
    ensures Placed(mem, mem'', root, va, len + step, phys, present)
  {
    forall v: nat | v < Span(5) ensures Walk(mem'', root, TOP, v) == PlacedAt(mem, root, va, len + step, phys, present, v) {
      assert Walk(mem'', root, TOP, v) == PlacedAt(mem', root, mid, step, midPhys, present, v);
      assert Walk(mem', root, TOP, v) == PlacedAt(mem, root, va, len, phys, present, v);
      OverlaidTwice(Walk(mem, root, TOP, v), va, len, mid, step, phys, midPhys, present, v);
    }
  }

  lemma PlacedStill(mem: Memory, mem': Memory, mem'': Memory, root: nat, va: nat, len: nat, phys: nat, present: bool)
    requires Placed(mem, mem', root, va, len, phys, present) && SameWalks(mem', mem'', root)
    ensures Placed(mem, mem'', root, va, len, phys, present)
  {
    forall v: nat | v < Span(5) ensures Walk(mem'', root, TOP, v) == PlacedAt(mem, root, va, len, phys, present, v) {
      assert Walk(mem'', root, TOP, v) == Walk(mem', root, TOP, v);
    }
  }

  lemma LinkedOpens(mem: Memory, root: nat, level: Levels, up: Parents, va: nat, l: nat, t: nat, f: nat, table: Table)
    requires Sound(mem, root, level, up) && 1 < l <= TOP && va < Span(5) && f !in level
    requires |table| == ENTRIES && forall k {:trigger table[k]} :: 0 <= k < ENTRIES ==> table[k] == EMPTY
    requires Reach(mem, root, TOP, va, l) == Some(t) && t in level && level[t] == l
    requires !mem[t][Index(va, l)].present && !mem[t][Index(va, l)].huge
    ensures OpenedOne(mem, mem[f := table][t := mem[t][Index(va, l) := Entry(true, false, f)]], root, va, l - 1)
  {
    var mem', m := mem[f := table][t := mem[t][Index(va, l) := Entry(true, false, f)]], l - 1;
    forall w: nat, k: nat | w < Span(5) && 1 <= k <= TOP ensures OpenedOnly(mem, mem', root, va, m, w, k) {
      LinkOpens(mem, root, level, up, va, l, t, f, table, w, k);
    }
  }

  // a cleared frame hung under the absent entry of va at level l
  lemma Linked(mem: Memory, root: nat, level: Levels, up: Parents, va: nat, l: nat, t: nat, f: nat, table: Table)
    requires Sound(mem, root, level, up) && Rooted(mem, root, level, up) && 1 < l <= TOP && va < Span(5) && f !in level
    requires |table| == ENTRIES && forall k {:trigger table[k]} :: 0 <= k < ENTRIES ==> table[k] == EMPTY
    requires Reach(mem, root, TOP, va, l) == Some(t) && t in level && level[t] == l
    requires !mem[t][Index(va, l)].present && !mem[t][Index(va, l)].huge
    ensures var i := Index(va, l);
      var mem', level', up' := mem[f := table][t := mem[t][i := Entry(true, false, f)]], level[f := l - 1], up[f := (t, i)];
      && Sound(mem', root, level', up') && Rooted(mem', root, level', up')
      && SameWalks(mem, mem', root) && Reach(mem', root, TOP, va, l) == Some(t) && OpenedOne(mem, mem', root, va, l - 1)
  {
    LinkedOpens(mem, root, level, up, va, l, t, f, table);
    var i := Index(va, l);
    var mem' := mem[f := table][t := mem[t][i := Entry(true, false, f)]];
    LinkSound(mem, root, level, up, t, i, f, table);
    LinkRooted(mem, root, level, up, t, i, f, table);
    LinkReach(mem, root, level, up, va, l, f, table);
    forall v: nat | v < Span(5) ensures Walk(mem', root, TOP, v) == Walk(mem, root, TOP, v) {
      LinkWalk(mem, root, level, up, va, l, f, table, v);
    }
  }

  // memories[i] and memories[i + 1] are those before and after page i is mapped by itself
  ghost predicate EachPage(memories: seq<Memory>, root: nat, va: nat, phys: nat, present: bool)
  {
    0 < |memories| && forall i {:trigger memories[i]} :: 0 < i < |memories| ==>
      Placed(memories[i - 1], memories[i], root, va + (i - 1) * Span(1), Span(1), phys + (i - 1) * Span(1), present)
  }

  lemma {:induction false} EachPagePlaced(memories: seq<Memory>, root: nat, va: nat, phys: nat, present: bool, n: nat)
    requires EachPage(memories, root, va, phys, present) && n < |memories|
    ensures Placed(memories[0], memories[n], root, va, n * Span(1), phys, present)
  {
    if n > 0 {
      EachPagePlaced(memories, root, va, phys, present, n - 1);
      var done := (n - 1) * Span(1);
      PlacedOn(memories[0], memories[n - 1], memories[n], root, va, done, va + done, Span(1), phys, phys + done, present);
    }
  }

  // a range mapped with any mix of page sizes translates as if its 4K pages had been mapped one by one
  lemma RangeIsPages(memories: seq<Memory>, mem': Memory, root: nat, va: nat, phys: nat, present: bool, n: nat)
    requires EachPage(memories, root, va, phys, present) && n == |memories| - 1
    requires Placed(memories[0], mem', root, va, n * Span(1), phys, present)
    ensures SameWalks(memories[n], mem', root)
  {
    EachPagePlaced(memories, root, va, phys, present, n);
    forall v: nat | v < Span(5) ensures Walk(mem', root, TOP, v) == Walk(memories[n], root, TOP, v) {
      assert Walk(memories[n], root, TOP, v) == PlacedAt(memories[0], root, va, n * Span(1), phys, present, v);
    }
  }

  lemma SamePage(va: nat, v: nat, l: nat)
    requires 1 <= l < TOP && va % Span(l) == 0
    ensures v / Span(l) == va / Span(l) <==> va <= v < va + Span(l)
    ensures va <= v < va + Span(l) ==> v % Span(l) == v - va
  {
    var s := Span(l);
    assert va == s * (va / s) && v == s * (v / s) + v % s;
  }

  lemma MappedLeaf(mem: Memory, mem1: Memory, mem': Memory, root: nat, va: nat, phys: nat, present: bool,
      pat: bool, size: PageSize)
    requires va % Span(TargetLevel(size)) == 0 && phys % Span(TargetLevel(size)) == 0
    requires SameWalks(mem, mem1, root) && Remapped(mem1, mem', root, va, TargetLevel(size), LeafEntry(phys, present, pat, size))
    ensures Placed(mem, mem', root, va, Span(TargetLevel(size)), phys % PHYS_SPAN, present)
  {
    var l := TargetLevel(size);
    var e, base := LeafEntry(phys, present, pat, size), phys % PHYS_SPAN;
    forall v: nat | v < Span(5) ensures Walk(mem', root, TOP, v) == PlacedAt(mem, root, va, Span(l), base, present, v) {
      LeafOf(phys, present, pat, size, v);
      assert Walk(mem1, root, TOP, v) == Walk(mem, root, TOP, v);
      UpdatedPlaced(mem1, root, va, l, e, base, v);
    }
  }

  lemma UpdatedPlaced(mem: Memory, root: nat, va: nat, l: nat, e: Entry, base: nat, v: nat)
    requires 1 <= l < TOP && va % Span(l) == 0 && Leaf(e, l, v) == base + v % Span(l)
    ensures Updated(mem, root, va, l, e, v) == PlacedAt(mem, root, va, Span(l), base, e.present, v)
  {
    SamePage(va, v, l);
  }

  function PagesAt(l: nat): nat
  {
    Span(l) / Span(1)
  }

  lemma EvenFrame(base: nat, frame: nat)
    requires base % Span(2) == 0 && frame * Span(1) == base
    ensures frame % 2 == 0
  {
    assert base == Span(2) * (base / Span(2));
  }

  // the frames that a mapped page covers
  function OwnFrames(phys: nat, size: PageSize): Run
  {
    Run(phys % PHYS_SPAN / Span(1), PagesAt(TargetLevel(size)))
  }

  // the frame of the stored entry is the page's first frame, or with the cache bit of a large page the one after it
  lemma StoredFrame(phys: nat, present: bool, pat: bool, size: PageSize)
    requires phys % Span(TargetLevel(size)) == 0
    ensures LeafEntry(phys, present, pat, size).frame == OwnFrames(phys, size).first + if pat && !size.Size4K? then 1 else 0
  {
    var frame := phys / Span(1) % FRAMES;
    FinerAligned(phys, TargetLevel(size), 1);
    FrameOf(phys);
    assert frame * Span(1) == phys % PHYS_SPAN;
    if !size.Size4K? {
      FinerAligned(phys, TargetLevel(size), 2);
      BaseAligned(phys, 2);
      EvenFrame(phys % PHYS_SPAN, frame);
    }
  }

  ghost predicate Exceeds(n: Option<nat>, m: Option<nat>, k: int)
  {
    n.Some? == m.Some? && (n.Some? ==> n.value == m.value + k)
  }

  ghost predicate Enough(need: Option<nat>, frames: nat)
  {
    need.Some? && need.value <= frames
  }

  // the range from virt on to be mapped to phys, in a page map of its own
  datatype Range = Range(root: nat, support1G: bool, virt: nat, phys: nat, length: nat)

  // what mapping the range still needs once done bytes are mapped, as the tables were before
  ghost function Still(mem0: Memory, r: Range, done: nat): Option<nat>
    requires done <= r.length
  {
    RangeNeed(mem0, r.root, r.support1G, r.virt, r.virt + done, r.phys + done, r.length - done)
  }

  // mapping done bytes of the range took the frames that they needed
  ghost predicate Counted(mem0: Memory, frames0: nat, mem: Memory, frames: nat, r: Range, done: nat)
  {
    && done <= r.length && done % 0x1000 == 0
    && Grown(mem0, mem, r.root, r.virt, r.virt + done) && Exceeds(Still(mem0, r, 0), Still(mem0, r, done), frames0 - frames)
  }

  ghost function NextLevel(r: Range, done: nat): nat
    requires done <= r.length
  {
    Largest(r.virt + done, r.phys + done, r.length - done, r.support1G)
  }

  // what the next page of a range needs is its share of what the range needs
  lemma PageShare(mem0: Memory, mem: Memory, r: Range, done: nat)
    requires 0x1000 <= r.length - done && r.virt + done < Span(5) && Grown(mem0, mem, r.root, r.virt, r.virt + done)
    ensures done + Span(NextLevel(r, done)) <= r.length
    ensures var l := NextLevel(r, done);
      var need, all := Need(mem, r.root, TOP, r.virt + done, l), Still(mem0, r, done);
      && (all.Some? ==> need.Some? && need.value <= all.value)
      && (need.Some? ==> Exceeds(all, Still(mem0, r, done + Span(l)), need.value))
  {
    NeedFresh(mem0, mem, r.root, r.virt, r.virt + done, NextLevel(r, done));
  }

  lemma RestOnPage(r: Range, done: nat)
    requires OnPage(r.virt, r.phys, r.length) && done < r.length && done % 0x1000 == 0
    ensures OnPage(r.virt + done, r.phys + done, r.length - done) && 0x1000 <= r.length - done
    ensures (done + Span(NextLevel(r, done))) % 0x1000 == 0
    ensures (r.virt + done) % Span(NextLevel(r, done)) == 0
  {
    LargestAllowed(r.virt + done, r.phys + done, r.length - done, r.support1G);
    StepOnPage(done, NextLevel(r, done));
  }

  lemma CountedOn(mem0: Memory, frames0: nat, mem: Memory, frames: nat, mem': Memory, frames': nat, r: Range, done: nat,
      v: nat, l: nat, step: nat)
    requires Counted(mem0, frames0, mem, frames, r, done) && done < r.length && r.virt + done < Span(5)
    requires OnPage(r.virt, r.phys, r.length) && v == r.virt + done && l == NextLevel(r, done) && step == Span(l)
    requires OpenedBut(mem, mem', r.root, v, l) && Need(mem, r.root, TOP, v, l) == Some(frames - frames')
    ensures Counted(mem0, frames0, mem', frames', r, done + step)
  {
    RestOnPage(r, done);
    PageShare(mem0, mem, r, done);
    GrownStep(mem0, mem, mem', r.root, r.virt, v, l);
  }

  lemma CountedShort(mem0: Memory, frames0: nat, mem: Memory, frames: nat, r: Range, done: nat, v: nat, l: nat)
    requires Counted(mem0, frames0, mem, frames, r, done) && done < r.length && r.virt + done < Span(5)
    requires OnPage(r.virt, r.phys, r.length) && v == r.virt + done && l == NextLevel(r, done)
    requires !Enough(Need(mem, r.root, TOP, v, l), frames)
    ensures !Enough(Still(mem0, r, 0), frames0)
  {
    RestOnPage(r, done);
    PageShare(mem0, mem, r, done);
  }

  lemma CountedAll(mem0: Memory, frames0: nat, mem: Memory, frames: nat, r: Range)
    requires Counted(mem0, frames0, mem, frames, r, r.length)
    ensures Still(mem0, r, 0) == Some(frames0 - frames)
  {
  }

  lemma CountedNone(mem: Memory, frames: nat, r: Range)
    ensures Counted(mem, frames, mem, frames, r, 0)
  {
    GrownNone(mem, r.root, r.virt);
  }

  // what a page map owns at one time
  datatype Snapshot = Snapshot(mem: Memory, pool: set<nat>, level: Levels, up: Parents)

  ghost predicate Cleared(table: Table)
  {
    |table| == ENTRIES && forall i {:trigger table[i]} :: 0 <= i < ENTRIES ==> table[i] == EMPTY
  }

  class PageMap {
    const root: nat
    const support1G: bool
    var mem: Memory
    // frames that the physical allocator has free; which of them it hands out is its choice
    var pool: set<nat>
    // the tables that some address reaches, with their levels and parent entries
    ghost var level: Levels
    ghost var up: Parents

    ghost predicate Valid()
      reads this
    {
      Sound(mem, root, level, up) && Rooted(mem, root, level, up) && pool !! level.Keys
    }

    ghost function Now(): Snapshot
      reads this
    {
      Snapshot(mem, pool, level, up)
    }

    // the frames that are tables or can become one
    ghost function Frames(): set<nat>
      reads this
    {
      level.Keys + pool
    }

    // hang a cleared frame from the pool under the entry of va at level l
    method AddTable(va: nat, l: nat, curr: nat) returns (f: nat)
      requires Valid() && va < Span(5) && 1 < l <= TOP && pool != {}
      requires Reach(mem, root, TOP, va, l) == Some(curr) && curr in level && level[curr] == l
      requires !mem[curr][Index(va, l)].present && !mem[curr][Index(va, l)].huge
      modifies this
      ensures Valid() && SameWalks(old(mem), mem, root) && Frames() == old(Frames())
      ensures |pool| == |old(pool)| - 1 && Reach(mem, root, TOP, va, l) == Some(curr) && OpenedOne(old(mem), mem, root, va, l - 1)
      ensures f in mem && Cleared(mem[f])
      ensures curr in mem && |mem[curr]| == ENTRIES && mem[curr][Index(va, l)] == Entry(true, false, f)
    {
      var table := seq(ENTRIES, _ => EMPTY);
      f :| f in pool;
      var index := Index(va, l);
      Linked(mem, root, level, up, va, l, curr, f, table);
      mem := mem[f := table];
      mem := mem[curr := mem[curr][index := Entry(true, false, f)]];
      level, up := level[f := l - 1], up[f := (curr, index)];
      pool := pool - {f};
    }

    constructor (root: nat, support1G: bool, pool: set<nat>)
      requires root !in pool
      ensures Valid() && this.root == root && this.pool == pool && this.support1G == support1G && Frames() == {root} + pool
      ensures root in mem && Cleared(mem[root])
      ensures forall v: nat {:trigger Walk(mem, root, TOP, v)} :: Walk(mem, root, TOP, v) == None
    {
      this.root, this.support1G, this.pool := root, support1G, pool;
      mem, level, up := map[root := seq(ENTRIES, _ => EMPTY)], map[root := TOP], map[];
    }

    // one level down, adding the table if it is missing
    method Descend(va: nat, l: nat, curr: nat, ghost target: nat, allocate: bool) returns (next: Option<nat>)
      requires Valid() && va < Span(5) && 1 <= target < l <= TOP
      requires Reach(mem, root, TOP, va, l) == Some(curr) && curr in level && level[curr] == l
      modifies this
      ensures Valid() && SameWalks(old(mem), mem, root) && Frames() == old(Frames())
      ensures !allocate || next == None || old(mem[curr][Index(va, l)].present) ==> Now() == old(Now())
      ensures next.Some? && !old(mem[curr][Index(va, l)].present) ==> next.value in mem && Cleared(mem[next.value]) && |pool| < |old(pool)|
      ensures next.Some? ==> mem == old(mem) || OpenedOne(old(mem), mem, root, va, l - 1)
      ensures next.Some? ==> Reach(mem, root, TOP, va, l - 1) == next && next.value in level && level[next.value] == l - 1
      ensures next.Some? ==> Exceeds(Need(old(mem), curr, l, va, target), Need(mem, next.value, l - 1, va, target), |old(pool)| - |pool|)
      ensures next == None ==> !Enough(Need(mem, curr, l, va, target), if allocate then |pool| else 0)
    {
      var entry := mem[curr][Index(va, l)];
      if entry.huge {
        return None;
      }
      if !entry.present {
        if !allocate || pool == {} {
          return None;
        }
        var _ := AddTable(va, l, curr);
        entry := mem[curr][Index(va, l)];
      }
      ReachNext(mem, root, TOP, va, l);
      assert EntryOk(mem[curr][Index(va, l)], curr, Index(va, l), level, up);
      return Some(entry.frame);
    }

    // nothing has changed since s, or frames were taken and the last one, curr, is still clear
    ghost predicate Added(s: Snapshot, curr: nat)
      reads this
    {
      if |pool| == |s.pool| then Now() == s else |pool| < |s.pool| && curr in mem && Cleared(mem[curr])
    }

    // no translation and no frame has been lost since s
    ghost predicate Settled(s: Snapshot, allocate: bool)
      reads this
    {
      && Valid() && SameWalks(s.mem, mem, root) && Frames() == s.level.Keys + s.pool
      && (!allocate ==> Now() == s)
    }

    // where a descent that began in s stands
    ghost predicate Descending(s: Snapshot, va: nat, l: nat, curr: nat, target: nat, allocate: bool)
      requires 1 <= target <= l <= TOP
      reads this
    {
      && Settled(s, allocate) && Added(s, curr) && Opened(s.mem, mem, root, va, l)
      && Reach(mem, root, TOP, va, l) == Some(curr) && curr in level && level[curr] == l
      && Exceeds(Need(s.mem, root, TOP, va, target), Need(mem, curr, l, va, target), |s.pool| - |pool|)
    }

    method DescendOn(ghost s: Snapshot, va: nat, l: nat, curr: nat, ghost target: nat, allocate: bool) returns (next: Option<nat>)
      requires va < Span(5) && 1 <= target < l <= TOP && Descending(s, va, l, curr, target, allocate)
      modifies this
      ensures next.Some? ==> Descending(s, va, l - 1, next.value, target, allocate)
      ensures next == None ==> Settled(s, allocate)
      ensures next == None ==> !Enough(Need(s.mem, root, TOP, va, target), if allocate then |s.pool| else 0)
      ensures next == None ==> !Enough(Need(mem, root, TOP, va, target), if allocate then |pool| else 0)
    {
      ghost var before := mem;
      PathVia(mem, root, TOP, va, l, target);
      next := Descend(va, l, curr, target, allocate);
      SameWalksOn(s.mem, before, mem, root);
      if next.Some? {
        OpenedDown(s.mem, before, mem, root, va, l);
      }
    }

    // the loop of get_pte
    method DescendAll(ghost s: Snapshot, va: nat, target: nat, allocate: bool) returns (r: Option<nat>)
      requires Valid() && s == Now() && va < Span(5) && 1 <= target <= TOP
      modifies this
      ensures r.Some? ==> Descending(s, va, target, r.value, target, allocate)
      ensures r == None ==> Settled(s, allocate)
      ensures r == None ==> !Enough(Need(s.mem, root, TOP, va, target), if allocate then |s.pool| else 0)
      ensures r == None ==> !Enough(Need(mem, root, TOP, va, target), if allocate then |pool| else 0)
    {
      var curr, l := root, TOP;
      OpenedNone(mem, root, va);
      while l > target
        invariant target <= l <= TOP && Descending(s, va, l, curr, target, allocate)
      {
        var next := DescendOn(s, va, l, curr, target, allocate);
        if next == None {
          return None;
        }
        curr := next.value;
        l := l - 1;
      }
      return Some(curr);
    }

    // the table of level target whose entry maps va; None when a large page is in the way or no frame is left
    method GetPte(va: nat, target: nat, allocate: bool) returns (r: Option<nat>)
      requires Valid() && va < Span(5) && 1 <= target <= TOP
      modifies this
      ensures Valid() && SameWalks(old(mem), mem, root) && Frames() == old(Frames())
      ensures !allocate ==> Now() == old(Now())
      ensures r.Some? ==> r == Reach(mem, root, TOP, va, target) && Added(old(Now()), r.value)
      ensures r.Some? <==> Enough(Need(old(mem), root, TOP, va, target), if allocate then |old(pool)| else 0)
      ensures r.Some? ==> |old(pool)| - |pool| == Need(old(mem), root, TOP, va, target).value
      ensures r.Some? ==> Opened(old(mem), mem, root, va, target)
      ensures r == None ==> !Enough(Need(mem, root, TOP, va, target), if allocate then |pool| else 0)
    {
      r := DescendAll(Now(), va, target, allocate);
    }

    // map: present and pat are what the generic flags and the cache type ask for
    method Map(va: nat, phys: nat, present: bool, pat: bool, size: PageSize) returns (ok: bool)
      requires Valid() && va < Span(5)
      modifies this
      ensures Valid() && Frames() == old(Frames()) - if ok then old(Hung(va, TargetLevel(size))) else {}
      ensures ok <==> Mappable(old(mem), |old(pool)|, va, phys, size)
      ensures !ok ==> SameWalks(old(mem), mem, root) && !Mappable(mem, |pool|, va, phys, size)
      ensures ok ==> Placed(old(mem), mem, root, va, Span(TargetLevel(size)), phys % PHYS_SPAN, present)
      ensures ok ==> EntryAt(mem, root, va, TargetLevel(size)) == Some(LeafEntry(phys, present, pat, size))
      ensures ok ==> OpenedBut(old(mem), mem, root, va, TargetLevel(size))
      ensures ok ==> |old(pool)| - |pool| == Need(old(mem), root, TOP, va, TargetLevel(size)).value
    {
      var l := TargetLevel(size);
      if size == Size1G && !support1G {
        return false;
      }
      if va % Span(l) != 0 || phys % Span(l) != 0 {
        return false;
      }
      ok := MapAligned(va, phys, present, pat, size);
    }

    // map once the addresses are found to be aligned
    method MapAligned(va: nat, phys: nat, present: bool, pat: bool, size: PageSize) returns (ok: bool)
      requires Valid() && va < Span(5) && va % Span(TargetLevel(size)) == 0 && phys % Span(TargetLevel(size)) == 0
      modifies this
      ensures Valid() && Frames() == old(Frames()) - if ok then old(Hung(va, TargetLevel(size))) else {}
      ensures ok <==> Enough(Need(old(mem), root, TOP, va, TargetLevel(size)), |old(pool)|)
      ensures !ok ==> SameWalks(old(mem), mem, root) && !Enough(Need(mem, root, TOP, va, TargetLevel(size)), |pool|)
      ensures ok ==> Placed(old(mem), mem, root, va, Span(TargetLevel(size)), phys % PHYS_SPAN, present)
      ensures ok ==> EntryAt(mem, root, va, TargetLevel(size)) == Some(LeafEntry(phys, present, pat, size))
      ensures ok ==> OpenedBut(old(mem), mem, root, va, TargetLevel(size))
      ensures ok ==> |old(pool)| - |pool| == Need(old(mem), root, TOP, va, TargetLevel(size)).value
    {
      var pte := GetPte(va, TargetLevel(size), true);
      if pte == None {
        return false;
      }
      StorePage(old(Now()), va, phys, present, pat, size, pte.value);
      return true;
    }

    // the store at the end of map, begun in s
    method StorePage(ghost s: Snapshot, va: nat, phys: nat, present: bool, pat: bool, size: PageSize, t: nat)
      requires Valid() && va < Span(5) && SameWalks(s.mem, mem, root) && Frames() == s.level.Keys + s.pool && Added(s, t)
      requires va % Span(TargetLevel(size)) == 0 && phys % Span(TargetLevel(size)) == 0
      requires Reach(mem, root, TOP, va, TargetLevel(size)) == Some(t) && Need(s.mem, root, TOP, va, TargetLevel(size)).Some?
      requires |s.pool| - |pool| == Need(s.mem, root, TOP, va, TargetLevel(size)).value
      requires Opened(s.mem, mem, root, va, TargetLevel(size))
      modifies this`mem, this`level
      ensures Valid() && Frames() == s.level.Keys + s.pool - Hanging(s.mem, root, s.level, s.up, va, TargetLevel(size))
      ensures Placed(s.mem, mem, root, va, Span(TargetLevel(size)), phys % PHYS_SPAN, present)
      ensures EntryAt(mem, root, va, TargetLevel(size)) == Some(LeafEntry(phys, present, pat, size))
      ensures OpenedBut(s.mem, mem, root, va, TargetLevel(size))
    {
      var l := TargetLevel(size);
      ghost var before, levels := mem, level;
      SameHung(s, va, l, t);
      ReachLevel(mem, root, level, up, root, TOP, va, l);
      StoreLeaf(va, l, t, LeafEntry(phys, present, pat, size));
      StoredBut(s.mem, before, mem, root, levels, up, va, l, t, LeafEntry(phys, present, pat, size));
      MappedLeaf(s.mem, before, mem, root, va, phys, present, pat, size);
    }

    // the tables below the entry of va at level l
    ghost function Hung(va: nat, l: nat): set<nat>
      requires 1 <= l <= TOP
      reads this
    {
      Hanging(mem, root, level, up, va, l)
    }

    // frames taken on the way hang nothing below the entry
    lemma SameHung(s: Snapshot, va: nat, l: nat, t: nat)
      requires Valid() && 1 <= l < TOP && Added(s, t) && Reach(mem, root, TOP, va, l) == Some(t)
      requires Need(s.mem, root, TOP, va, l).Some? && |s.pool| - |pool| == Need(s.mem, root, TOP, va, l).value
      ensures Hung(va, l) == Hanging(s.mem, root, s.level, s.up, va, l)
    {
      NeedReach(s.mem, root, TOP, va, l);
      if |pool| < |s.pool| {
        ReachLevel(mem, root, level, up, root, TOP, va, l);
        NoneBelow(mem, root, level, up, t, Index(va, l));
      }
    }

    // exactly when map succeeds
    ghost predicate Mappable(mem: Memory, frames: nat, va: nat, phys: nat, size: PageSize)
    {
      var l := TargetLevel(size);
      && (size == Size1G ==> support1G)
      && va % Span(l) == 0 && phys % Span(l) == 0 && Enough(Need(mem, root, TOP, va, l), frames)
    }

    // store a leaf; the tables below the entry are lost
    method StoreLeaf(va: nat, l: nat, t: nat, e: Entry)
      requires Valid() && va < Span(5) && 1 <= l < TOP && (!e.present || IsLeaf(e, l))
      requires Reach(mem, root, TOP, va, l) == Some(t)
      modifies this`mem, this`level
      ensures t in old(mem) && |old(mem)[t]| == ENTRIES && mem == old(mem)[t := old(mem)[t][Index(va, l) := e]]
      ensures Valid() && Remapped(old(mem), mem, root, va, l, e) && level == old(level) - old(Hung(va, l))
      ensures EntryAt(mem, root, va, l) == Some(e) && Frames() == old(Frames()) - old(Hung(va, l))
    {
      ReachLevel(mem, root, level, up, root, TOP, va, l);
      WriteLeaf(mem, root, level, up, va, l, e);
      StoreKeeps(mem, root, level, up, t, Index(va, l), e);
      ghost var before, l0 := mem, level;
      mem := mem[t := mem[t][Index(va, l) := e]];
      level := level - Below(level, up, t, Index(va, l));
      ReachFrame(before, mem, root, l0, up, t, root, TOP, va, l);
    }

    // path[k] is the table of level k on the walk of va, from level l up
    ghost predicate OnPath(path: seq<nat>, va: nat, l: nat)
      reads this
    {
      |path| == TOP + 1 && forall k {:trigger path[k]} :: 1 <= l <= k <= TOP ==> Reach(mem, root, TOP, va, k) == Some(path[k])
    }

    method FindLeaf(va: nat) returns (l: nat, path: seq<nat>)
      requires Valid()
      ensures l == LeafLevel(mem, root, TOP, va) < TOP
      ensures 0 < l ==> OnPath(path, va, l) && path[l] in mem && |mem[path[l]]| == ENTRIES && LeafAt(mem, root, va, l, mem[path[l]][Index(va, l)])
    {
      path := seq(TOP + 1, _ => 0);
      var curr := root;
      l := TOP;
      while l >= 1
        invariant 1 <= l <= TOP && |path| == TOP + 1 && OnPath(path[l := curr], va, l)
        invariant curr in level && level[curr] == l
        invariant LeafLevel(mem, root, TOP, va) == LeafLevel(mem, curr, l, va)
        decreases l
      {
        path := path[l := curr];
        assert path[l] == curr;
        var entry := mem[curr][Index(va, l)];
        if !entry.present {
          return 0, path;
        }
        assert EntryOk(entry, curr, Index(va, l), level, up);
        if IsLeaf(entry, l) {
          return;
        }
        ReachNext(mem, root, TOP, va, l);
        curr := entry.frame;
        ghost var longer := path[l - 1 := curr];
        assert forall k {:trigger longer[k]} :: l <= k <= TOP ==> longer[k] == path[k];
        l := l - 1;
      }
    }

    method IsTableEmpty(t: nat) returns (empty: bool)
      requires t in mem
      ensures empty <==> IsEmpty(mem[t])
    {
      var i := 0;
      while i < |mem[t]|
        invariant i <= |mem[t]| && forall j {:trigger mem[t][j]} :: 0 <= j < i ==> !mem[t][j].present
      {
        if mem[t][i].present {
          return false;
        }
        i := i + 1;
      }
      return true;
    }

    // give back the emptied table of level l on the walk of va
    method DropTable(va: nat, l: nat, child: nat, parent: nat)
      requires Valid() && va < Span(5) && 1 <= l < TOP
      requires Reach(mem, root, TOP, va, l) == Some(child) && Reach(mem, root, TOP, va, l + 1) == Some(parent)
      requires child in mem && IsEmpty(mem[child])
      modifies this
      ensures Valid() && SameWalks(old(mem), mem, root) && Frames() == old(Frames())
      ensures child in old(level) && level == old(level) - {child}
      ensures parent in old(mem) && |old(mem)[parent]| == ENTRIES && mem == old(mem)[parent := old(mem)[parent][Index(va, l + 1) := EMPTY]]
      ensures forall k {:trigger Reach(mem, root, TOP, va, k)} :: l < k <= TOP ==> Reach(mem, root, TOP, va, k) == Reach(old(mem), root, TOP, va, k)
    {
      var index := Index(va, l + 1);
      ghost var before, l0, u0 := mem, level, up;
      ReachLevel(mem, root, level, up, root, TOP, va, l);
      ReachLevel(mem, root, level, up, root, TOP, va, l + 1);
      ReachNext(mem, root, TOP, va, l + 1);
      UnlinkSound(mem, root, level, up, parent, index);
      UnlinkRooted(mem, root, level, up, parent, index);
      mem := mem[parent := mem[parent][index := EMPTY]];
      level := level - {child};
      pool := pool + {child};
      forall v: nat | v < Span(5) ensures Walk(mem, root, TOP, v) == Walk(before, root, TOP, v) {
        UnlinkWalk(before, root, l0, u0, va, l + 1, v);
      }
      forall k | l < k <= TOP ensures Reach(mem, root, TOP, va, k) == Reach(before, root, TOP, va, k) {
        ReachFrame(before, mem, root, l0, u0, parent, root, TOP, va, k);
      }
    }

    // the tables of path from level l up to m are given back, and the one at m is still in use
    ghost predicate Reclaimed(path: seq<nat>, l: nat, m: nat, tables: set<nat>)
      reads this
    {
      && l <= m <= TOP && |path| == TOP + 1
      && (forall k {:trigger path[k]} :: l <= k < m ==> path[k] in mem && IsEmpty(mem[path[k]]))
      && (forall f {:trigger f in level} {:trigger f in tables} :: f in level <==> f in tables && f !in path[l..m])
    }

    ghost predicate Reclaiming(mem0: Memory, tables: set<nat>, frames: set<nat>, path: seq<nat>, va: nat, l: nat,
        j: nat)
      reads this
    {
      && Valid() && SameWalks(mem0, mem, root) && Frames() == frames
      && OnPath(path, va, j) && Reclaimed(path, l, j, tables)
    }

    method ReclaimOne(ghost mem0: Memory, ghost tables: set<nat>, ghost frames: set<nat>, path: seq<nat>, va: nat,
        ghost l: nat, j: nat)
      requires va < Span(5) && 1 <= l <= j < TOP && Reclaiming(mem0, tables, frames, path, va, l, j)
      requires path[j] in level && IsEmpty(mem[path[j]])
      modifies this
      ensures Reclaiming(mem0, tables, frames, path, va, l, j + 1)
    {
      ghost var before, child, parent := mem, path[j], path[j + 1];
      DropTable(va, j, path[j], path[j + 1]);
      SameWalksOn(mem0, before, mem, root);
      assert path[l..j + 1] == path[l..j] + [child];
      assert child != parent;
    }

    method Reclaim(va: nat, l: nat, path: seq<nat>) returns (ghost m: nat)
      requires Valid() && va < Span(5) && 1 <= l < TOP && OnPath(path, va, l)
      modifies this
      ensures Valid() && SameWalks(old(mem), mem, root) && Frames() == old(Frames())
      ensures Reclaimed(path, l, m, old(level).Keys) && path[m] in level && (m < TOP ==> !IsEmpty(mem[path[m]]))
    {
      ghost var mem0, tables, frames := mem, level.Keys, Frames();
      var j := l;
      while j < TOP
        invariant l <= j <= TOP && Reclaiming(mem0, tables, frames, path, va, l, j)
      {
        assert Reach(mem, root, TOP, va, j) == Some(path[j]);
        ReachLevel(mem, root, level, up, root, TOP, va, j);
        var empty := IsTableEmpty(path[j]);
        if !empty {
          return j;
        }
        ReclaimOne(mem0, tables, frames, path, va, l, j);
        j := j + 1;
      }
      assert path[TOP] == root;
      return TOP;
    }

    method ClearLeaf(va: nat, l: nat, path: seq<nat>)
      requires Valid() && va < Span(5) && 1 <= l < TOP && OnPath(path, va, l)
      requires path[l] in mem && |mem[path[l]]| == ENTRIES && IsLeaf(mem[path[l]][Index(va, l)], l)
      modifies this`mem, this`level
      ensures Valid() && Remapped(old(mem), mem, root, va, l, EMPTY) && OnPath(path, va, l) && level == old(level)
    {
      ghost var before, t := mem, path[l];
      ReachLevel(mem, root, level, up, root, TOP, va, l);
      NoneBelow(mem, root, level, up, t, Index(va, l));
      StoreLeaf(va, l, path[l], EMPTY);
      assert level == old(level);
      forall k | l <= k <= TOP ensures Reach(mem, root, TOP, va, k) == Reach(before, root, TOP, va, k) {
        ReachFrame(before, mem, root, level, up, t, root, TOP, va, k);
      }
    }

    // freed is the run of frames passed to the physical allocator for the page itself
    method Unmap(va: nat, freePhys: bool) returns (freed: Option<Run>, ghost path: seq<nat>, ghost m: nat)
      requires Valid() && va < Span(5)
      modifies this
      ensures Valid() && Frames() == old(Frames())
      ensures var l := LeafLevel(old(mem), root, TOP, va);
        if l == 0 then mem == old(mem) && pool == old(pool) && freed == None
        else
          && l < TOP && old(OnPath(path, va, l)) && path[l] in old(mem) && |old(mem)[path[l]]| == ENTRIES
          && Remapped(old(mem), mem, root, va, l, EMPTY)
          && Reclaimed(path, l, m, old(level).Keys) && path[m] in level && (m < TOP ==> !IsEmpty(mem[path[m]]))
          && freed == (if freePhys then Some(Run(old(mem)[path[l]][Index(va, l)].frame, PagesAt(l))) else None)
          && (freePhys ==> OwnRun(old(mem), root, va, l, freed.value, Shift(old(mem)[path[l]][Index(va, l)], l)))
    {
      var l, tables := FindLeaf(va);
      path, m, freed := tables, 0, None;
      if l == 0 {
        return;
      }
      var entry := mem[tables[l]][Index(va, l)];
      RunOfEntry(mem, root, va, l, entry, PagesAt(l));
      ClearLeaf(va, l, tables);
      if freePhys {
        freed := Some(Run(entry.frame, PagesAt(l)));
      }
      ghost var before := mem;
      m := Reclaim(va, l, tables);
      RemappedStill(old(mem), before, mem, root, va, l, EMPTY);
    }

    // None stands for a read outside the tables
    method Translate(va: nat) returns (r: Option<nat>)
      ensures r == Raw(mem, root, TOP, va)
      ensures Walk(mem, root, TOP, va).Some? ==> r == Walk(mem, root, TOP, va)
    {
      RawAgrees(mem, root, TOP, va);
      var curr: nat, l: nat := root, TOP;
      while l >= 1
        invariant l <= TOP && Raw(mem, root, TOP, va) == Raw(mem, curr, l, va)
      {
        if curr !in mem || |mem[curr]| != ENTRIES {
          return None;
        }
        var entry := mem[curr][Index(va, l)];
        if IsLeaf(entry, l) {
          return Some(Leaf(entry, l, va));
        }
        curr := entry.frame;
        l := l - 1;
      }
      return None;
    }

    // the largest page that fits both addresses and the rest of the range
    function PickSize(v: nat, p: nat, remaining: nat): (size: PageSize)
      requires OnPage(v, p, remaining) && 0 < remaining
      ensures TargetLevel(size) == Largest(v, p, remaining, support1G)
    {
      if support1G && v % Span(3) == 0 && p % Span(3) == 0 && remaining >= Span(3) then Size1G
      else if v % Span(2) == 0 && p % Span(2) == 0 && remaining >= Span(2) then Size2M
      else Size4K
    }

    // the page that comes next in a range cannot be mapped
    ghost predicate Stuck(r: Range, done: nat)
      reads this
    {
      && done < r.length
      && forall size {:trigger TargetLevel(size)} ::
        TargetLevel(size) == NextLevel(r, done) ==> !Mappable(mem, |pool|, r.virt + done, r.phys + done, size)
    }

    // the map owns no frame that it did not own in s
    ghost predicate Within(s: Snapshot)
      reads this
    {
      forall f {:trigger f in level} {:trigger f in pool} :: f in level || f in pool ==> f in s.level || f in s.pool
    }

    // one round of the loop: the bytes it maps, none if map fails
    method MapOne(ghost s: Snapshot, ghost r: Range, ghost done: nat, v: nat, p: nat, remaining: nat, present: bool, pat: bool)
      returns (step: nat)
      requires Valid() && Within(s) && r.root == root && r.support1G == support1G && done < r.length
      requires OnPage(r.virt, r.phys, r.length) && r.virt + r.length <= Span(5) && r.phys + r.length <= PHYS_SPAN
      requires v == r.virt + done && p == r.phys + done && remaining == r.length - done
      requires Placed(s.mem, mem, root, r.virt, done, r.phys, present) && Counted(s.mem, |s.pool|, mem, |pool|, r, done)
      modifies this
      ensures Valid() && Within(s) && Placed(s.mem, mem, root, r.virt, done + step, r.phys, present)
      ensures 0 < step ==> Counted(s.mem, |s.pool|, mem, |pool|, r, done + step)
      ensures step == 0 ==> Stuck(r, done) && !Enough(Still(s.mem, r, 0), |s.pool|)
    {
      RestOnPage(r, done);
      var size := PickSize(v, p, remaining);
      ghost var before, frames := mem, |pool|;
      step := MapSized(s.mem, r.virt, r.phys, done, v, p, present, pat, size);
      LargestAllowed(v, p, remaining, support1G);
      if 0 < step {
        CountedOn(s.mem, |s.pool|, before, frames, mem, |pool|, r, done, v, TargetLevel(size), step);
      } else {
        CountedShort(s.mem, |s.pool|, before, frames, r, done, v, TargetLevel(size));
      }
    }

    // what the range mapping uses of map
    method MapInRange(v: nat, p: nat, present: bool, pat: bool, size: PageSize) returns (ok: bool)
      requires Valid() && v < Span(5) && p < PHYS_SPAN
      modifies this
      ensures Valid() && Within(old(Now())) && (ok <==> Mappable(old(mem), |old(pool)|, v, p, size))
      ensures if ok then Placed(old(mem), mem, root, v, Span(TargetLevel(size)), p, present) else SameWalks(old(mem), mem, root)
      ensures ok ==> OpenedBut(old(mem), mem, root, v, TargetLevel(size))
      ensures ok ==> |old(pool)| - |pool| == Need(old(mem), root, TOP, v, TargetLevel(size)).value
      ensures !ok ==> !Mappable(mem, |pool|, v, p, size)
    {
      InPhysRange(p);
      ok := Map(v, p, present, pat, size);
    }

    // the same with what was mapped before
    method MapSized(ghost mem0: Memory, ghost virt: nat, ghost phys: nat, ghost done: nat, v: nat, p: nat,
        present: bool, pat: bool, size: PageSize)
      returns (step: nat)
      requires Valid() && v == virt + done && v < Span(5) && p == phys + done && p < PHYS_SPAN
      requires Placed(mem0, mem, root, virt, done, phys, present)
      modifies this
      ensures Valid() && Within(old(Now())) && Placed(mem0, mem, root, virt, done + step, phys, present)
      ensures step == if Mappable(old(mem), |old(pool)|, v, p, size) then Span(TargetLevel(size)) else 0
      ensures 0 < step ==> OpenedBut(old(mem), mem, root, v, TargetLevel(size))
      ensures 0 < step ==> |old(pool)| - |pool| == Need(old(mem), root, TOP, v, TargetLevel(size)).value
      ensures step == 0 ==> !Mappable(mem, |pool|, v, p, size)
    {
      step := Span(TargetLevel(size));
      ghost var before := mem;
      var mapped := MapInRange(v, p, present, pat, size);
      if !mapped {
        PlacedStill(mem0, before, mem, root, virt, done, phys, present);
        return 0;
      }
      PlacedOn(mem0, before, mem, root, virt, done, v, step, phys, p, present);
    }

    // done bytes are mapped when it stops, at the end of the range or where the source panics; which of the two it is
    // depends on the tables and the number of free frames before the call
    method MapRange(virt: nat, phys: nat, length: nat, present: bool, pat: bool) returns (ok: bool, ghost done: nat)
      requires Valid() && OnPage(virt, phys, length) && virt + length <= Span(5) && phys + length <= PHYS_SPAN
      modifies this
      ensures Valid() && Within(old(Now()))
      ensures done <= length && Placed(old(mem), mem, root, virt, done, phys, present) && (ok <==> done == length)
      ensures ok <==> Enough(Still(old(mem), Range(root, support1G, virt, phys, length), 0), |old(pool)|)
      ensures ok ==> Still(old(mem), Range(root, support1G, virt, phys, length), 0) == Some(|old(pool)| - |pool|)
      ensures !ok ==> Stuck(Range(root, support1G, virt, phys, length), done)
    {
      var v: nat, p: nat, remaining: nat := virt, phys, length;
      done := 0;
      ghost var s, r := Now(), Range(root, support1G, virt, phys, length);
      CountedNone(mem, |pool|, r);
      while remaining > 0
        invariant Valid() && Within(s) && done + remaining == length && v == virt + done && p == phys + done
        invariant Placed(s.mem, mem, root, virt, done, phys, present) && Counted(s.mem, |s.pool|, mem, |pool|, r, done)
      {
        var step := MapOne(s, r, done, v, p, remaining, present, pat);
        if step == 0 {
          return false, done;
        }
        v, p, remaining, done := v + step, p + step, remaining - step, done + step;
      }
      CountedAll(s.mem, |s.pool|, mem, |pool|, r);
      return true, done;
    }
  }
}
