/** Clearing pages one at a time: the reference for the batched ways of giving pages back. */
module PageBooks {
  import opened PageBits

  // bitmap, summary and the count of pages in use
  datatype Books = Books(bm: Bits, sm: Bits, used: int)

  ghost predicate Kept(b: Books, total: nat)
  {
    Indexed(b.bm, b.sm, total) && b.used == total - CountFree(b.bm, total)
  }

  // clear_bit on one page, counted if the page was in use
  ghost function ClearOne(b: Books, total: nat, p: nat): Books
    requires Kept(b, total) && p < total
  {
    if Bit(b.bm, p) then Books(WithBit(b.bm, p, false), WithBit(b.sm, p / WORD, false), b.used - 1) else b
  }

  lemma ClearOneKeeps(b: Books, total: nat, p: nat)
    requires Kept(b, total) && p < total
    ensures var b' := ClearOne(b, total, p);
      Kept(b', total) && FreePages(b'.bm, total) == FreePages(b.bm, total) + {p}
  {
    if Bit(b.bm, p) {
      var word := b.bm[p / WORD][p % WORD := false];
      GaveOne(b.bm, b.sm, total, p);
      StoreKeeps(b.bm, b.sm, total, p / WORD, word);
      assert !word[p % WORD];
      TookCount(WithBit(b.bm, p, false), b.bm, total, [p]);
      assert Elems([p]) == {p};
    }
  }

  ghost predicate Below(pages: seq<nat>, total: nat)
  {
    forall i {:trigger pages[i]} :: 0 <= i < |pages| ==> pages[i] < total
  }

  ghost function ClearEach(b: Books, total: nat, pages: seq<nat>): (b': Books)
    requires Kept(b, total) && Below(pages, total)
    ensures Kept(b', total) && FreePages(b'.bm, total) == FreePages(b.bm, total) + Elems(pages)
    decreases |pages|
  {
    if pages == [] then b
    else
      ClearOneKeeps(b, total, pages[0]);
      assert Elems(pages) == {pages[0]} + Elems(pages[1..]);
      ClearEach(ClearOne(b, total, pages[0]), total, pages[1..])
  }

  // whoever reaches the same free pages with kept books has done what clearing each page does
  lemma OneByOne(b: Books, b': Books, total: nat, pages: seq<nat>)
    requires Kept(b, total) && Kept(b', total) && Below(pages, total)
    requires FreePages(b'.bm, total) == FreePages(b.bm, total) + Elems(pages)
    ensures b' == ClearEach(b, total, pages)
  {
    var each := ClearEach(b, total, pages);
    Determined(b'.bm, b'.sm, each.bm, each.sm, total);
  }

  ghost function PagesOf(page: nat, count: nat): (r: seq<nat>)
    ensures Elems(r) == RunSet(page, count) && Below(r, page + count)
  {
    var r := seq(count, i requires 0 <= i < count => page + i);
    RunElems(page, count, r);
    r
  }

  lemma RunElems(page: nat, count: nat, r: seq<nat>)
    requires |r| == count && forall i {:trigger r[i]} :: 0 <= i < count ==> r[i] == page + i
    ensures Elems(r) == RunSet(page, count)
  {
    forall p: nat ensures p in Elems(r) <==> p in RunSet(page, count) {
      if p in RunSet(page, count) {
        assert InRun(p, page, count);
        assert r[p - page] == p;
      }
    }
  }

  // the pages of a run that exist, in order
  ghost function PagesBelow(page: nat, count: nat, total: nat): (r: seq<nat>)
    ensures Elems(r) == RunBelow(page, count, total) && Below(r, total)
  {
    var n := if page + count <= total then count else if page <= total then total - page else 0;
    assert RunBelow(page, count, total) == RunSet(page, n);
    PagesOf(page, n)
  }
}
