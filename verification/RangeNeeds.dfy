/** What mapping a range needs: the page sizes it picks, and how many tables it opens. */
module RangeNeeds {
  import opened BitMath
  import opened Common
  import opened PageTables
  import opened TableGrowth
  import opened TableLinks

  // ---------- the page sizes ----------

  // a page of level l fits where remaining bytes from v on are to be mapped to p
  predicate Allowed(v: nat, p: nat, remaining: nat, support1G: bool, l: nat)
  {
    1 <= l <= 3 && v % Span(l) == 0 && p % Span(l) == 0 && Span(l) <= remaining && (l == 3 ==> support1G)
  }

  predicate OnPage(v: nat, p: nat, remaining: nat)
  {
    v % 0x1000 == 0 && p % 0x1000 == 0 && remaining % 0x1000 == 0
  }

  lemma PageFits(v: nat, p: nat, remaining: nat, support1G: bool)
    requires OnPage(v, p, remaining) && 0 < remaining
    ensures Allowed(v, p, remaining, support1G, 1)
  {
    assert Span(1) == 0x1000;
  }

  lemma StepOnPage(n: nat, l: nat)
    requires 1 <= l <= 3 && n % 0x1000 == 0
    ensures (n + Span(l)) % 0x1000 == 0 && (Span(l) <= n ==> (n - Span(l)) % 0x1000 == 0)
  {
    if l == 1 {
      assert Span(l) == 0x1000;
    } else if l == 2 {
      assert Span(l) == 0x20_0000;
    } else {
      assert Span(l) == 0x4000_0000;
    }
  }

  function Largest(v: nat, p: nat, remaining: nat, support1G: bool): (l: nat)
    ensures 1 <= l <= 3 && (0x1000 <= remaining ==> Span(l) <= remaining)
  {
    if Allowed(v, p, remaining, support1G, 3) then 3 else if Allowed(v, p, remaining, support1G, 2) then 2 else 1
  }

  // the largest level that is allowed
  lemma LargestAllowed(v: nat, p: nat, remaining: nat, support1G: bool)
    requires OnPage(v, p, remaining) && 0 < remaining
    ensures Allowed(v, p, remaining, support1G, Largest(v, p, remaining, support1G))
    ensures forall m: nat {:trigger Allowed(v, p, remaining, support1G, m)} ::
      Allowed(v, p, remaining, support1G, m) ==> m <= Largest(v, p, remaining, support1G)
  {
    PageFits(v, p, remaining, support1G);
  }

  // ---------- the tables ----------

  // v needs a table at level k that is not there, and no page of the range before v needed it
  ghost predicate Fresh(mem: Memory, root: nat, virt: nat, v: nat, k: nat)
    requires 1 <= k <= TOP
  {
    !Reaches(mem, root, v, k) && !(virt < v && (v - 1) / Span(k + 1) == v / Span(k + 1))
  }

  ghost function FreshCount(mem: Memory, root: nat, virt: nat, v: nat, l: nat): nat
    requires 1 <= l <= TOP
    decreases TOP - l
  {
    if l == TOP then 0 else (if Fresh(mem, root, virt, v, l) then 1 else 0) + FreshCount(mem, root, virt, v, l + 1)
  }

  // the frames that mapping the range takes from v on, or None if a large page is in the way
  ghost function RangeNeed(mem: Memory, root: nat, support1G: bool, virt: nat, v: nat, p: nat, remaining: nat): Option<nat>
    decreases remaining
  {
    if remaining < 0x1000 then Some(0)
    else
      var l := Largest(v, p, remaining, support1G);
      var rest := RangeNeed(mem, root, support1G, virt, v + Span(l), p + Span(l), remaining - Span(l));
      if !Unblocked(mem, root, v, l) || rest == None then None else Some(FreshCount(mem, root, virt, v, l) + rest.value)
  }

  // ---------- while the range is mapped ----------

  // from v on, mem has the tables of mem0 and those that it shares with the range before v
  ghost predicate GrownAt(mem0: Memory, mem: Memory, root: nat, virt: nat, v: nat, w: nat, k: nat)
    requires 1 <= k <= TOP
  {
    && (Unblocked(mem, root, w, k) <==> Unblocked(mem0, root, w, k))
    && (Reaches(mem, root, w, k) <==> Reaches(mem0, root, w, k) || (virt < v && (v - 1) / Span(k + 1) == w / Span(k + 1)))
  }

  ghost predicate Grown(mem0: Memory, mem: Memory, root: nat, virt: nat, v: nat)
  {
    forall w: nat, k: nat {:trigger GrownAt(mem0, mem, root, virt, v, w, k)} ::
      v <= w < Span(5) && 1 <= k <= TOP ==> GrownAt(mem0, mem, root, virt, v, w, k)
  }

  lemma GrownNone(mem: Memory, root: nat, virt: nat)
    ensures Grown(mem, mem, root, virt, virt)
  {
  }

  // blocks of a size that the page size divides: the page lies in one
  lemma BlockAround(v: nat, w: nat, s: nat, b: nat, m: nat)
    requires 0 < s && 0 < m && b == s * m && v % s == 0 && v + s <= w
    ensures (v + s - 1) / b == v / b
    ensures 0 < v && (v - 1) / b == w / b ==> v / b == w / b
  {
    InBlock(v, s, b, m);
    if 0 < v && (v - 1) / b == w / b {
      Monotone(v - 1, v, b);
      Monotone(v, w, b);
    }
  }

  lemma Monotone(a: nat, c: nat, b: nat)
    requires 0 < b && a <= c
    ensures a / b <= c / b
  {
    QuotientRest(a, b);
    QuotientRest(c, b);
    var x, y := a / b, c / b;
    assert y < x ==> (y + 1) * b <= x * b;
  }

  lemma InBlock(v: nat, s: nat, b: nat, m: nat)
    requires 0 < s && 0 < m && b == s * m && v % s == 0
    ensures (v + s - 1) / b == v / b
  {
    QuotientRest(v, s);
    var q := v / s;
    QuotientRest(q, m);
    WithinBlock(v, s, b, m, q, q / m, q % m);
  }

  lemma WithinBlock(v: nat, s: nat, b: nat, m: nat, q: nat, x: nat, y: nat)
    requires 0 < s && 0 < m && b == s * m && v == q * s && q == x * m + y && y < m
    ensures v / b == x && (v + s - 1) / b == x
  {
    assert v == x * b + y * s by {
      assert (x * m) * s == x * (s * m);
    }
    assert (y + 1) * s <= m * s;
    DivUnique(v, b, x, y * s);
    DivUnique(v + s - 1, b, x, y * s + s - 1);
  }

  // larger spans are multiples of smaller ones
  lemma {:induction false} SpanFactor(a: nat, b: nat) returns (m: nat)
    requires 1 <= a <= b <= 5
    ensures 0 < m && Span(b) == Span(a) * m
    decreases b
  {
    if a == b {
      m := 1;
    } else {
      var n := SpanFactor(a, b - 1);
      assert Span(b) == 512 * Span(b - 1);
      m := 512 * n;
      assert 512 * (Span(a) * n) == Span(a) * (512 * n);
    }
  }

  // the last address before a block lies in an earlier one
  lemma BlockBefore(v: nat, w: nat, b: nat, q: nat)
    requires 0 < b && v == q * b && 0 < v <= w
    ensures (v - 1) / b < w / b
  {
    assert 0 < q;
    DivUnique(v - 1, b, q - 1, b - 1);
    DivUnique(v, b, q, 0);
    Monotone(v, w, b);
  }

  lemma AlignedBlocks(v: nat, s: nat, b: nat, m: nat) returns (q: nat)
    requires 0 < b && 0 < s == b * m && v % s == 0
    ensures v == q * b && v + s == (q + m) * b
  {
    QuotientRest(v, s);
    q := v / s * m;
    assert (v / s) * (b * m) == (v / s * m) * b;
    assert (q + m) * b == q * b + m * b;
  }

  // mapping a page of level l at v opens what the blocks around it lacked
  lemma SharedStep(v: nat, l: nat, w: nat, k: nat)
    requires 1 <= l < TOP && 1 <= k <= TOP && v % Span(l) == 0 && v + Span(l) <= w
    ensures var b := Span(k + 1);
      if l <= k then (v + Span(l) - 1) / b == v / b && (0 < v && (v - 1) / b == w / b ==> v / b == w / b)
      else (v + Span(l) - 1) / b != w / b && (0 < v ==> (v - 1) / b != w / b)
  {
    var b, s := Span(k + 1), Span(l);
    if l <= k {
      var m := SpanFactor(l, k + 1);
      BlockAround(v, w, s, b, m);
    } else {
      var m := SpanFactor(k + 1, l);
      var q := AlignedBlocks(v, s, b, m);
      BlockBefore(v + s, w, b, q + m);
      if 0 < v {
        BlockBefore(v, w, b, q);
      }
    }
  }

  lemma PageApart(v: nat, l: nat, w: nat)
    requires 1 <= l < TOP && v % Span(l) == 0 && v + Span(l) <= w
    ensures w / Span(l) != v / Span(l)
  {
    var s := Span(l);
    QuotientRest(v, s);
    DivUnique(v + s, s, v / s + 1, 0);
    Monotone(v + s, w, s);
  }

  lemma GrownStep(mem0: Memory, mem: Memory, mem': Memory, root: nat, virt: nat, v: nat, l: nat)
    requires 1 <= l < TOP && v % Span(l) == 0 && virt <= v && Grown(mem0, mem, root, virt, v) && OpenedBut(mem, mem', root, v, l)
    ensures Grown(mem0, mem', root, virt, v + Span(l))
  {
    var v' := v + Span(l);
    forall w: nat, k: nat | v' <= w < Span(5) && 1 <= k <= TOP ensures GrownAt(mem0, mem', root, virt, v', w, k) {
      assert GrownAt(mem0, mem, root, virt, v, w, k);
      PageApart(v, l, w);
      assert OpenedFrom(mem, mem', root, v, l, w, k);
      SharedStep(v, l, w, k);
    }
  }

  // the tables that are missing now are the fresh ones
  lemma {:induction false} MissingFresh(mem0: Memory, mem: Memory, root: nat, virt: nat, v: nat, l: nat)
    requires 1 <= l <= TOP && v < Span(5) && Grown(mem0, mem, root, virt, v)
    ensures Missing(mem, root, TOP, v, l) == FreshCount(mem0, root, virt, v, l)
    decreases TOP - l
  {
    if l < TOP {
      assert GrownAt(mem0, mem, root, virt, v, v, l);
      MissingFresh(mem0, mem, root, virt, v, l + 1);
    }
  }

  // so what a page needs now is known beforehand
  lemma NeedFresh(mem0: Memory, mem: Memory, root: nat, virt: nat, v: nat, l: nat)
    requires 1 <= l <= TOP && v < Span(5) && Grown(mem0, mem, root, virt, v)
    ensures Need(mem, root, TOP, v, l) == if Unblocked(mem0, root, v, l) then Some(FreshCount(mem0, root, virt, v, l)) else None
  {
    assert GrownAt(mem0, mem, root, virt, v, v, l);
    MissingFresh(mem0, mem, root, virt, v, l);
    if Unblocked(mem, root, v, l) {
      NeedMissing(mem, root, TOP, v, l);
    }
  }
}
