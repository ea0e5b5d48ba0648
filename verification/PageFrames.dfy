/** The frames that a page is translated into, and the run of frames that its entry names. */
module PageFrames {
  import opened BitMath
  import opened Common
  import opened PageTables

  // frames from first on
  datatype Run = Run(first: nat, count: nat)

  // some address of the page of va at level l is translated into frame f
  ghost predicate IntoFrame(mem: Memory, root: nat, va: nat, l: nat, f: int)
  {
    exists v: nat {:trigger Walk(mem, root, TOP, v)} ::
      v / Span(l) == va / Span(l) && Walk(mem, root, TOP, v).Some? && Walk(mem, root, TOP, v).value / 0x1000 == f
  }

  // the run holds exactly the frames that the page is translated into, each of them shift further up
  ghost predicate OwnRun(mem: Memory, root: nat, va: nat, l: nat, run: Run, shift: int)
  {
    forall f: int {:trigger IntoFrame(mem, root, va, l, f)} ::
      IntoFrame(mem, root, va, l, f) <==> run.first <= f + shift < run.first + run.count
  }

  // the entry that maps va is a leaf of level l
  ghost predicate LeafAt(mem: Memory, root: nat, va: nat, l: nat, e: Entry)
    requires 1 <= l < TOP
  {
    && Reach(mem, root, TOP, va, l).Some? && e.present && IsLeaf(e, l)
    && var t := Reach(mem, root, TOP, va, l).value; t in mem && |mem[t]| == ENTRIES && mem[t][Index(va, l)] == e
  }

  lemma PageWalk(mem: Memory, root: nat, va: nat, l: nat, e: Entry, v: nat)
    requires 1 <= l < TOP && LeafAt(mem, root, va, l, e) && v / Span(l) == va / Span(l)
    ensures Walk(mem, root, TOP, v) == Some(Leaf(e, l, v))
  {
    IndexSplit(v, l);
    IndexSplit(va, l);
    SameReach(mem, root, TOP, v, va, l);
    WalkVia(mem, root, TOP, v, l);
  }

  // offsets within a page of n frames
  lemma OffsetFrame(b: nat, off: nat, n: nat)
    requires 0 < n && off < 0x1000 * n
    ensures (b * (0x1000 * n) + off) / 0x1000 == b * n + off / 0x1000 && off / 0x1000 < n
  {
    assert b * (0x1000 * n) == 0x1000 * (b * n);
  }

  lemma PageFrame(e: Entry, l: nat, v: nat, n: nat)
    requires 1 <= l < TOP && Span(l) == 0x1000 * n
    ensures var b := e.frame * Span(1) / Span(l);
      Leaf(e, l, v) / 0x1000 == b * n + v % Span(l) / 0x1000 && v % Span(l) / 0x1000 < n
  {
    OffsetFrame(e.frame * Span(1) / Span(l), v % Span(l), n);
  }

  lemma Composed(q: nat, s: nat, off: nat) returns (v: nat)
    requires off < s
    ensures v / s == q && v % s == off
  {
    v := q * s + off;
    DivUnique(v, s, q, off);
  }

  lemma FrameOfOffset(i: nat)
    ensures 0x1000 * i / 0x1000 == i
  {
  }

  // by how much the frame in the entry exceeds the first one that the page is translated into
  function Shift(e: Entry, l: nat): int
    requires 1 <= l < TOP
  {
    e.frame - Leaf(e, l, 0) / 0x1000
  }

  lemma RunOfEntry(mem: Memory, root: nat, va: nat, l: nat, e: Entry, n: nat)
    requires 1 <= l < TOP && LeafAt(mem, root, va, l, e) && Span(l) == 0x1000 * n
    ensures OwnRun(mem, root, va, l, Run(e.frame, n), Shift(e, l))
  {
    var b := e.frame * Span(1) / Span(l);
    PageFrame(e, l, 0, n);
    forall f: int ensures IntoFrame(mem, root, va, l, f) <==> b * n <= f < b * n + n {
      if v: nat :| v / Span(l) == va / Span(l) && Walk(mem, root, TOP, v).Some? && Walk(mem, root, TOP, v).value / 0x1000 == f {
        PageWalk(mem, root, va, l, e, v);
        PageFrame(e, l, v, n);
      }
      if b * n <= f < b * n + n {
        var v := Composed(va / Span(l), Span(l), 0x1000 * (f - b * n));
        FrameOfOffset(f - b * n);
        PageWalk(mem, root, va, l, e, v);
        PageFrame(e, l, v, n);
      }
    }
  }

  // no frame is named twice: two addresses of the page in one frame lie in one 4K page
  lemma FrameOnce(mem: Memory, root: nat, va: nat, l: nat, e: Entry, n: nat, v: nat, w: nat)
    requires 1 <= l < TOP && LeafAt(mem, root, va, l, e) && Span(l) == 0x1000 * n
    requires v / Span(l) == va / Span(l) == w / Span(l)
    requires Walk(mem, root, TOP, v).Some? && Walk(mem, root, TOP, w).Some?
    requires Walk(mem, root, TOP, v).value / 0x1000 == Walk(mem, root, TOP, w).value / 0x1000
    ensures v / 0x1000 == w / 0x1000
  {
    PageWalk(mem, root, va, l, e, v);
    PageWalk(mem, root, va, l, e, w);
    SameOffset(e, l, v, w, n);
    SmallPage(v, Span(l), n);
    SmallPage(w, Span(l), n);
  }

  lemma SameOffset(e: Entry, l: nat, v: nat, w: nat, n: nat)
    requires 1 <= l < TOP && Span(l) == 0x1000 * n && Leaf(e, l, v) / 0x1000 == Leaf(e, l, w) / 0x1000
    ensures v % Span(l) / 0x1000 == w % Span(l) / 0x1000
  {
    PageFrame(e, l, v, n);
    PageFrame(e, l, w, n);
  }

  // the 4K page of v, from the page of size s around it
  lemma SmallPage(v: nat, s: nat, n: nat)
    requires 0 < n && s == 0x1000 * n
    ensures v / 0x1000 == v / s * n + v % s / 0x1000
  {
    QuotientRest(v, s);
    OffsetFrame(v / s, v % s, n);
  }
}
