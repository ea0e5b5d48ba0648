/**
 The page bitmap and its summary as values.  A 64-bit word is the sequence of its bits, least
 significant first; bit p of a bitmap is bit p % 64 of word p / 64.
 */
module PageBits {
  import opened Common

  type Word = seq<bool>
  type Bits = seq<Word>

  const WORD := 64

  predicate IsFull(w: Word)
    requires |w| == WORD
  {
    forall k {:trigger w[k]} :: 0 <= k < WORD ==> w[k]
  }

  predicate IsZero(w: Word)
    requires |w| == WORD
  {
    forall k {:trigger w[k]} :: 0 <= k < WORD ==> !w[k]
  }

  ghost predicate Words(b: Bits)
  {
    forall i {:trigger b[i]} :: 0 <= i < |b| ==> |b[i]| == WORD
  }

  predicate Bit(b: Bits, p: int)
    requires 0 <= p < WORD * |b| && |b[p / WORD]| == WORD
  {
    b[p / WORD][p % WORD]
  }

  lemma BitAt(b: Bits, i: nat, k: nat)
    requires Words(b) && i < |b| && k < WORD
    ensures i * WORD + k < WORD * |b| && Bit(b, i * WORD + k) == b[i][k]
  {
    assert (i * WORD + k) / WORD == i && (i * WORD + k) % WORD == k;
  }

  // how many words hold n bits
  function WordsFor(n: nat): (k: nat)
    ensures WORD * (k - 1) < n <= WORD * k
  {
    (n + WORD - 1) / WORD
  }

  // sm marks exactly the full words of bm; every bit past the last page or the last word is set
  ghost predicate Indexed(bm: Bits, sm: Bits, total: nat)
  {
    && Words(bm) && Words(sm) && |bm| == WordsFor(total) && |sm| == WordsFor(|bm|)
    && (forall i {:trigger bm[i]} :: 0 <= i < |bm| ==> (Bit(sm, i) <==> IsFull(bm[i])))
    && (forall i {:trigger Bit(sm, i)} :: |bm| <= i < WORD * |sm| ==> Bit(sm, i))
    && (forall p {:trigger Bit(bm, p)} :: total <= p < WORD * |bm| ==> Bit(bm, p))
  }

  // the pages whose bit is clear
  ghost function FreePages(bm: Bits, total: nat): set<nat>
    requires Words(bm) && total <= WORD * |bm|
  {
    set p: nat | p < total && !Bit(bm, p)
  }

  ghost function Elems(s: seq<nat>): set<nat>
  {
    set p | p in s
  }

  // ---------- one word ----------

  // __builtin_ctzll of the complement
  method FirstClear(w: Word) returns (k: nat)
    requires |w| == WORD && !IsFull(w)
    ensures k < WORD && !w[k] && forall j {:trigger w[j]} :: 0 <= j < k ==> w[j]
  {
    k := 0;
    while w[k]
      invariant 0 <= k < WORD && forall j {:trigger w[j]} :: 0 <= j < k ==> w[j]
      decreases WORD - k
    {
      assert k + 1 == WORD ==> IsFull(w);
      k := k + 1;
    }
  }

  function CountSet(w: Word): (n: nat)
    ensures n <= |w|
  {
    if w == [] then 0 else CountSet(w[..|w| - 1]) + if w[|w| - 1] then 1 else 0
  }

  // ---------- changing one bit ----------

  function WithBit(b: Bits, p: int, v: bool): (r: Bits)
    requires Words(b) && 0 <= p < WORD * |b|
    ensures |r| == |b| && Words(r)
    ensures forall q {:trigger Bit(r, q)} :: 0 <= q < WORD * |b| ==> Bit(r, q) == if q == p then v else Bit(b, q)
  {
    b[p / WORD := b[p / WORD][p % WORD := v]]
  }

  lemma SameBit(b: Bits, p: int)
    requires Words(b) && 0 <= p < WORD * |b|
    ensures WithBit(b, p, Bit(b, p)) == b
  {
    var w := b[p / WORD];
    assert w[p % WORD := w[p % WORD]] == w;
    assert b[p / WORD := w] == b;
  }

  // ---------- lists without repetition ----------

  lemma {:induction false} ElemsCount(s: seq<nat>)
    requires NoDup(s)
    ensures |Elems(s)| == |s|
  {
    if s == [] {
      assert Elems(s) == {};
    } else {
      var t := s[..|s| - 1];
      ElemsCount(t);
      assert Elems(s) == Elems(t) + {s[|s| - 1]};
    }
  }

  // the members of s that are page numbers
  ghost function InRange(s: seq<nat>, total: nat): set<nat>
  {
    set p | p in s && p < total
  }

  lemma ElemsCons(p: nat, s: seq<nat>)
    ensures Elems([p] + s) == {p} + Elems(s) && |[p] + s| == 1 + |s|
  {
  }

  lemma InRangeNext(s: seq<nat>, total: nat, i: nat)
    requires i < |s|
    ensures InRange(s[..i + 1], total) == InRange(s[..i], total) + if s[i] < total then {s[i]} else {}
  {
    assert s[..i + 1] == s[..i] + [s[i]];
  }

  lemma SubsetCount(a: set<nat>, b: set<nat>)
    requires a <= b
    ensures |b - a| == |b| - |a| && |a| <= |b|
  {
    assert b == a + (b - a);
  }

  // ---------- writing one word ----------

  // bits past the last page are set in w
  ghost predicate Padded(w: Word, i: int, total: nat)
    requires |w| == WORD
  {
    forall k {:trigger w[k]} :: 0 <= k < WORD && total <= WORD * i + k ==> w[k]
  }

  lemma WordPadded(bm: Bits, sm: Bits, total: nat, i: int)
    requires Indexed(bm, sm, total) && 0 <= i < |bm|
    ensures Padded(bm[i], i, total)
  {
    forall k | 0 <= k < WORD && total <= WORD * i + k ensures bm[i][k] {
      assert Bit(bm, WORD * i + k);
    }
  }

  // any word may be stored as long as the summary bit then says whether it is full
  lemma StoreKeeps(bm: Bits, sm: Bits, total: nat, i: int, w: Word)
    requires Indexed(bm, sm, total) && 0 <= i < |bm| && |w| == WORD && Padded(w, i, total)
    ensures Indexed(bm[i := w], WithBit(sm, i, IsFull(w)), total)
  {
    var bm', sm' := bm[i := w], WithBit(sm, i, IsFull(w));
    forall p | total <= p < WORD * |bm'| ensures Bit(bm', p) {
      assert Bit(bm, p);
    }
  }

  // the pages of word i that w leaves clear
  ghost function ClearIn(w: Word, i: nat): set<nat>
    requires |w| == WORD
  {
    set k | 0 <= k < WORD && !w[k] :: WORD * i + k
  }

  lemma StoreFree(bm: Bits, sm: Bits, total: nat, i: nat, w: Word)
    requires Indexed(bm, sm, total) && i < |bm| && |w| == WORD && Padded(w, i, total)
    ensures Words(bm[i := w]) && total <= WORD * |bm|
    ensures FreePages(bm[i := w], total) == FreePages(bm, total) - ClearIn(bm[i], i) + ClearIn(w, i)
    ensures ClearIn(bm[i], i) <= FreePages(bm, total)
  {
    WordPadded(bm, sm, total, i);
    var bm' := bm[i := w];
    forall p: nat | p < total
      ensures p in FreePages(bm', total) <==> p in FreePages(bm, total) - ClearIn(bm[i], i) + ClearIn(w, i)
    {
      InWord(bm[i], i, p);
      InWord(w, i, p);
    }
    forall p | p in ClearIn(bm[i], i) ensures p in FreePages(bm, total) {
      InWord(bm[i], i, p);
    }
    forall p | p in ClearIn(w, i) ensures p < total {
      InWord(w, i, p);
    }
  }

  lemma InWord(w: Word, i: nat, p: nat)
    requires |w| == WORD
    ensures p in ClearIn(w, i) <==> p / WORD == i && !w[p % WORD]
  {
    if p / WORD == i && !w[p % WORD] {
      assert p == WORD * i + p % WORD;
    }
  }

  // ---------- taking pages ----------

  // pages were taken out of the clear bits of bm, once each, leaving bm'
  ghost predicate Took(bm: Bits, bm': Bits, total: nat, pages: seq<nat>)
    requires Words(bm) && Words(bm') && |bm| == |bm'| && total <= WORD * |bm|
  {
    && NoDup(pages) && Elems(pages) <= FreePages(bm, total)
    && FreePages(bm', total) == FreePages(bm, total) - Elems(pages)
  }

  lemma TookNone(bm: Bits, total: nat)
    requires Words(bm) && total <= WORD * |bm|
    ensures Took(bm, bm, total, [])
  {
    assert Elems([]) == {};
  }

  lemma TookMore(bm: Bits, bm': Bits, bm'': Bits, total: nat, s: seq<nat>, t: seq<nat>)
    requires Words(bm) && Words(bm') && Words(bm'') && |bm| == |bm'| == |bm''| && total <= WORD * |bm|
    requires Took(bm, bm', total, s) && Took(bm', bm'', total, t)
    ensures Took(bm, bm'', total, s + t)
  {
    assert Elems(s + t) == Elems(s) + Elems(t);
    forall i, j | 0 <= i < j < |s + t| ensures (s + t)[i] != (s + t)[j] {
      if i < |s| <= j {
        assert s[i] in Elems(s) && t[j - |s|] in Elems(t);
      }
    }
  }

  // setting the clear bit k of word i takes that page
  lemma TookOne(bm: Bits, sm: Bits, total: nat, i: nat, k: nat)
    requires Indexed(bm, sm, total) && i < |bm| && k < WORD && !bm[i][k]
    ensures WORD * i + k < total
    ensures Words(bm[i := bm[i][k := true]]) && total <= WORD * |bm|
    ensures Took(bm, bm[i := bm[i][k := true]], total, [WORD * i + k])
  {
    var p := WORD * i + k;
    assert !Bit(bm, p);
    assert bm[i := bm[i][k := true]] == WithBit(bm, p, true);
    assert Elems([p]) == {p};
  }

  // how many pages are free
  ghost function CountFree(bm: Bits, total: nat): nat
    requires Words(bm) && total <= WORD * |bm|
  {
    if total == 0 then 0 else CountFree(bm, total - 1) + if Bit(bm, total - 1) then 0 else 1
  }

  lemma LastPage(bm: Bits, p: nat)
    requires Words(bm) && p < WORD * |bm|
    ensures |FreePages(bm, p + 1)| == |FreePages(bm, p)| + if Bit(bm, p) then 0 else 1
  {
    assert FreePages(bm, p + 1) == FreePages(bm, p) + if Bit(bm, p) then {} else {p};
  }

  lemma {:induction false} CountIsSize(bm: Bits, total: nat)
    requires Words(bm) && total <= WORD * |bm|
    ensures CountFree(bm, total) == |FreePages(bm, total)|
  {
    if total > 0 {
      CountIsSize(bm, total - 1);
      LastPage(bm, total - 1);
    }
  }

  lemma TookCount(bm: Bits, bm': Bits, total: nat, pages: seq<nat>)
    requires Words(bm) && Words(bm') && |bm| == |bm'| && total <= WORD * |bm| && Took(bm, bm', total, pages)
    ensures CountFree(bm', total) == CountFree(bm, total) - |pages|
  {
    CountIsSize(bm, total);
    CountIsSize(bm', total);
    ElemsCount(pages);
    SubsetCount(Elems(pages), FreePages(bm, total));
  }

  // filling an empty word takes its 64 pages
  lemma WholeWord(bm: Bits, sm: Bits, total: nat, i: nat, w: Word, pages: seq<nat>)
    requires Indexed(bm, sm, total) && i < |bm| && IsZero(bm[i]) && |w| == WORD && IsFull(w)
    requires |pages| == WORD && forall k {:trigger pages[k]} :: 0 <= k < WORD ==> pages[k] == WORD * i + k
    ensures Words(bm[i := w]) && total <= WORD * |bm| && Took(bm, bm[i := w], total, pages)
  {
    StoreFree(bm, sm, total, i, w);
    assert ClearIn(w, i) == {};
    forall p: nat ensures p in ClearIn(bm[i], i) <==> p in Elems(pages) {
      InWord(bm[i], i, p);
      if p / WORD == i {
        assert pages[p % WORD] == p;
      }
    }
  }

  ghost predicate ListedAt(bm: Bits, w: Word, s: int, k: int)
    requires Words(bm) && |w| == WORD && 0 <= s && 0 <= k < WORD
  {
    var i := WORD * s + k;
    if w[k] then i < |bm| ==> IsFull(bm[i]) else i < |bm| && !IsFull(bm[i])
  }

  // w marks as done only full words, and leaves as to do only words that are not full
  ghost predicate Listed(bm: Bits, w: Word, s: int)
    requires Words(bm) && |w| == WORD && 0 <= s
  {
    forall k {:trigger ListedAt(bm, w, s, k)} :: 0 <= k < WORD ==> ListedAt(bm, w, s, k)
  }

  lemma SummaryWord(bm: Bits, sm: Bits, total: nat, s: int)
    requires Indexed(bm, sm, total) && 0 <= s < |sm|
    ensures Listed(bm, sm[s], s)
  {
    forall k | 0 <= k < WORD ensures ListedAt(bm, sm[s], s, k) {
      var i := WORD * s + k;
      assert Bit(sm, i) == sm[s][k];
      if i < |bm| {
        assert bm[i] == bm[i];
      }
    }
  }

  lemma {:induction false} CountSetOne(w: Word, k: nat)
    requires k < |w| && !w[k]
    ensures CountSet(w[k := true]) == CountSet(w) + 1
  {
    var n := |w| - 1;
    if k < n {
      CountSetOne(w[..n], k);
      assert w[k := true][..n] == w[..n][k := true];
    } else {
      assert w[k := true][..n] == w[..n];
    }
  }

  // words lo .. hi are full
  ghost predicate FullBetween(bm: Bits, lo: int, hi: int)
    requires Words(bm) && 0 <= lo
  {
    forall i {:trigger bm[i]} :: lo <= i < hi && i < |bm| ==> IsFull(bm[i])
  }

  lemma ListedFull(bm: Bits, w: Word, s: int, m: int)
    requires Words(bm) && |w| == WORD && 0 <= s && 0 <= m <= WORD && Listed(bm, w, s)
    requires forall k {:trigger w[k]} :: 0 <= k < m ==> w[k]
    ensures FullBetween(bm, WORD * s, WORD * s + m)
  {
    forall i | WORD * s <= i < WORD * s + m && i < |bm| ensures IsFull(bm[i]) {
      assert ListedAt(bm, w, s, i - WORD * s);
    }
  }

  lemma ListedStep(bm: Bits, bm': Bits, w: Word, s: int, k: nat)
    requires Words(bm) && Words(bm') && |bm| == |bm'| && |w| == WORD && 0 <= s && k < WORD && WORD * s + k < |bm|
    requires Listed(bm, w, s) && IsFull(bm'[WORD * s + k])
    requires forall j {:trigger bm'[j]} :: 0 <= j < |bm| && j != WORD * s + k ==> bm'[j] == bm[j]
    ensures Listed(bm', w[k := true], s)
  {
    var w' := w[k := true];
    forall j | 0 <= j < WORD ensures ListedAt(bm', w', s, j) {
      assert ListedAt(bm, w, s, j);
    }
  }

  // full words stay full
  ghost predicate Grew(bm: Bits, bm': Bits)
    requires Words(bm) && Words(bm') && |bm| == |bm'|
  {
    forall i {:trigger bm[i]} {:trigger bm'[i]} :: 0 <= i < |bm| && IsFull(bm[i]) ==> IsFull(bm'[i])
  }

  lemma GrewOne(bm: Bits, bm': Bits, bm'': Bits, k: nat)
    requires Words(bm) && Words(bm') && Words(bm'') && |bm| == |bm'| == |bm''| && k < |bm|
    requires Grew(bm, bm') && !IsFull(bm'[k]) && forall j {:trigger bm''[j]} :: 0 <= j < |bm| && j != k ==> bm''[j] == bm'[j]
    ensures Grew(bm, bm'')
  {
  }

  // what changes in one word alone was taken from that word
  lemma TookIn(bm: Bits, bm': Bits, total: nat, pages: seq<nat>, i: nat, k: nat)
    requires Words(bm) && Words(bm') && |bm| == |bm'| && total <= WORD * |bm| && Took(bm, bm', total, pages) && k < |pages|
    requires forall j {:trigger bm'[j]} :: 0 <= j < |bm| && j != i ==> bm'[j] == bm[j]
    ensures pages[k] / WORD == i
  {
    var p := pages[k];
    assert p in Elems(pages) && p in FreePages(bm, total) && p !in FreePages(bm', total);
    assert Bit(bm, p) != Bit(bm', p);
    assert bm[p / WORD] != bm'[p / WORD];
  }

  lemma FullExtend(bm: Bits, bm': Bits, lo: int, mid: int, hi: int)
    requires Words(bm) && Words(bm') && |bm| == |bm'| && 0 <= lo <= mid && Grew(bm, bm')
    requires FullBetween(bm, lo, mid) && FullBetween(bm', mid, hi)
    ensures FullBetween(bm', lo, hi)
  {
    forall i | lo <= i < hi && i < |bm'| ensures IsFull(bm'[i]) {
      if i < mid {
        assert IsFull(bm[i]);
      }
    }
  }

  lemma GrewTrans(bm: Bits, bm': Bits, bm'': Bits)
    requires Words(bm) && Words(bm') && Words(bm'') && |bm| == |bm'| == |bm''| && Grew(bm, bm') && Grew(bm', bm'')
    ensures Grew(bm, bm'')
  {
  }

  lemma NoneFree(bm: Bits, total: nat)
    requires Words(bm) && total <= WORD * |bm| && FullBetween(bm, 0, |bm|)
    ensures FreePages(bm, total) == {}
  {
    forall p: nat | p < total ensures Bit(bm, p) {
      assert IsFull(bm[p / WORD]);
    }
  }

  // ---------- giving pages back: Took read backwards ----------

  // clearing the bit of page p gives that page back
  lemma GaveOne(bm: Bits, sm: Bits, total: nat, p: nat)
    requires Indexed(bm, sm, total) && p < total && Bit(bm, p)
    ensures var bm' := bm[p / WORD := bm[p / WORD][p % WORD := false]];
      Words(bm') && |bm'| == |bm| && total <= WORD * |bm| && Took(bm', bm, total, [p])
    ensures Padded(bm[p / WORD][p % WORD := false], p / WORD, total)
  {
    var bm' := bm[p / WORD := bm[p / WORD][p % WORD := false]];
    assert bm' == WithBit(bm, p, false);
    assert Elems([p]) == {p};
    WordPadded(bm, sm, total, p / WORD);
  }

  // the bitmap and its summary are determined by which pages are free
  lemma Determined(bm: Bits, sm: Bits, bm': Bits, sm': Bits, total: nat)
    requires Indexed(bm, sm, total) && Indexed(bm', sm', total) && FreePages(bm, total) == FreePages(bm', total)
    ensures bm == bm' && sm == sm'
  {
    forall p | 0 <= p < WORD * |bm| ensures Bit(bm, p) == Bit(bm', p) {
      if p < total {
        assert p in FreePages(bm, total) <==> p in FreePages(bm', total);
      }
    }
    SameBits(bm, bm');
    forall i | 0 <= i < WORD * |sm| ensures Bit(sm, i) == Bit(sm', i) {
      if i < |bm| {
        assert Bit(sm, i) <==> IsFull(bm[i]);
        assert Bit(sm', i) <==> IsFull(bm'[i]);
      }
    }
    SameBits(sm, sm');
  }

  lemma SameBits(b: Bits, b': Bits)
    requires Words(b) && Words(b') && |b| == |b'|
    requires forall p {:trigger Bit(b, p)} :: 0 <= p < WORD * |b| ==> Bit(b, p) == Bit(b', p)
    ensures b == b'
  {
    forall i | 0 <= i < |b| ensures b[i] == b'[i] {
      forall k | 0 <= k < WORD ensures b[i][k] == b'[i][k] {
        assert Bit(b, WORD * i + k) == b[i][k];
        assert Bit(b', WORD * i + k) == b'[i][k];
      }
    }
  }

  // ---------- clearing a whole word ----------

  ghost function ClearFrom(w: Word, base: nat): set<nat>
  {
    set k | 0 <= k < |w| && !w[k] :: base + k
  }

  lemma {:induction false} CountClear(w: Word, base: nat)
    ensures |ClearFrom(w, base)| == |w| - CountSet(w)
  {
    if w == [] {
      assert ClearFrom(w, base) == {};
    } else {
      var n := |w| - 1;
      CountClear(w[..n], base);
      var rest := ClearFrom(w[..n], base);
      forall p: nat ensures p in ClearFrom(w, base) <==> p in rest || (p == base + n && !w[n]) {
        InClearFrom(w, base, p);
        InClearFrom(w[..n], base, p);
      }
      InClearFrom(w[..n], base, base + n);
      assert ClearFrom(w, base) == rest + if w[n] then {} else {base + n};
    }
  }

  lemma InClearFrom(w: Word, base: nat, p: nat)
    ensures p in ClearFrom(w, base) <==> base <= p < base + |w| && !w[p - base]
  {
    if base <= p < base + |w| && !w[p - base] {
      assert p == base + (p - base);
    }
  }

  // the pages of a run
  ghost predicate InRun(p: nat, page: nat, count: nat)
  {
    page <= p < page + count
  }

  ghost function RunSet(page: nat, count: nat): set<nat>
  {
    set p: nat | p < page + count && InRun(p, page, count)
  }

  lemma RunSplit(page: nat, m: nat, n: nat)
    ensures RunSet(page, m) + RunSet(page + m, n) == RunSet(page, m + n)
  {
  }

  // an empty word's clear bits are the pages of its run
  lemma ZeroIsRun(w: Word, i: nat)
    requires |w| == WORD && IsZero(w)
    ensures ClearIn(w, i) == RunSet(WORD * i, WORD)
  {
    var now, run := ClearIn(w, i), RunSet(WORD * i, WORD);
    forall p: nat ensures p in now <==> p in run {
      InWord(w, i, p);
      assert p in run <==> InRun(p, WORD * i, WORD);
    }
  }

  // the free pages that lie in a word are its clear bits
  lemma FreeInWord(bm: Bits, total: nat, i: nat, p: nat)
    requires Words(bm) && total <= WORD * |bm| && i < |bm| && p in FreePages(bm, total) && InRun(p, WORD * i, WORD)
    ensures p in ClearIn(bm[i], i)
  {
    InWord(bm[i], i, p);
  }

  lemma ClearBits(w: Word, i: nat)
    requires |w| == WORD
    ensures |ClearIn(w, i)| == WORD - CountSet(w)
  {
    CountClear(w, WORD * i);
    assert ClearIn(w, i) == ClearFrom(w, WORD * i);
  }

  lemma SwapCount(free: set<nat>, was: set<nat>, now: set<nat>)
    requires was <= free && was <= now && free * now <= was
    ensures free - was + now == free + now && |free - was + now| == |free| - |was| + |now|
  {
    SubsetCount(was, free);
    assert (free - was) !! now;
  }

  // clearing a word that lies below the last page frees its 64 pages, and the bits that were set are the new ones
  lemma ZeroWord(bm: Bits, sm: Bits, total: nat, i: nat, w: Word)
    requires Indexed(bm, sm, total) && i < |bm| && WORD * i + WORD <= total && |w| == WORD && IsZero(w)
    ensures Words(bm[i := w]) && total <= WORD * |bm| && Padded(w, i, total)
    ensures FreePages(bm[i := w], total) == FreePages(bm, total) + RunSet(WORD * i, WORD)
    ensures CountFree(bm[i := w], total) == CountFree(bm, total) + CountSet(bm[i])
  {
    StoreFree(bm, sm, total, i, w);
    CountIsSize(bm, total);
    CountIsSize(bm[i := w], total);
    var was, now, free := ClearIn(bm[i], i), ClearIn(w, i), FreePages(bm, total);
    ZeroIsRun(w, i);
    ZeroCount(w);
    ClearBits(bm[i], i);
    ClearBits(w, i);
    forall p | p in free * now ensures p in was {
      FreeInWord(bm, total, i, p);
    }
    forall p | p in was ensures p in now {
      InWord(bm[i], i, p);
      InWord(w, i, p);
    }
    SwapCount(free, was, now);
  }

  lemma {:induction false} ZeroCount(w: Word)
    requires forall k {:trigger w[k]} :: 0 <= k < |w| ==> !w[k]
    ensures CountSet(w) == 0
  {
    if w != [] {
      ZeroCount(w[..|w| - 1]);
    }
  }

  // ---------- the order of a list does not matter ----------

  lemma {:induction false} MultisetNoDup(s: seq<nat>, p: nat)
    requires NoDup(s)
    ensures multiset(s)[p] == if p in s then 1 else 0
  {
    if s != [] {
      var t := s[..|s| - 1];
      assert s == t + [s[|s| - 1]];
      MultisetNoDup(t, p);
    }
  }

  lemma UpperPart(s: seq<nat>, k: nat)
    requires NoDup(s) && k <= |s|
    ensures NoDup(s[k..]) && forall p {:trigger p in s[k..]} :: p in s[k..] ==> p in s
  {
    var t := s[k..];
    forall i, j | 0 <= i < j < |t| ensures t[i] != t[j] {
      assert t[i] == s[k + i] && t[j] == s[k + j];
    }
  }

  lemma SamePages(s: seq<nat>, t: seq<nat>, total: nat)
    requires NoDup(s) && multiset(s) == multiset(t) && forall p {:trigger p in s} :: p in s ==> p < total
    ensures NoDup(t) && Elems(s) == Elems(t) == InRange(t, total) && |s| == |t|
  {
    forall p ensures p in s <==> p in t {
      assert p in s <==> p in multiset(s);
      assert p in t <==> p in multiset(t);
    }
    assert |multiset(s)| == |s| && |multiset(t)| == |t|;
    forall i, j | 0 <= i < j < |t| ensures t[i] != t[j] {
      assert t == t[..j] + t[j..];
      assert t[i] in t[..j] && t[j] in t[j..];
      MultisetNoDup(s, t[i]);
    }
  }

  lemma SameTook(bm: Bits, bm': Bits, total: nat, s: seq<nat>, t: seq<nat>)
    requires Words(bm) && Words(bm') && |bm| == |bm'| && total <= WORD * |bm| && Took(bm, bm', total, s)
    requires NoDup(t) && Elems(s) == Elems(t)
    ensures Took(bm, bm', total, t)
  {
  }

  // the pages of a run that exist
  ghost function RunBelow(page: nat, n: nat, total: nat): set<nat>
  {
    set p: nat | p < total && InRun(p, page, n)
  }

  lemma RunInside(page: nat, n: nat, total: nat)
    requires page + n <= total
    ensures RunBelow(page, n, total) == RunSet(page, n)
  {
  }

  // bm' has the free pages of bm and those of the run
  ghost predicate Freed(bm: Bits, bm': Bits, total: nat, page: nat, n: nat)
    requires Words(bm) && Words(bm') && |bm| == |bm'| && total <= WORD * |bm|
  {
    FreePages(bm', total) == FreePages(bm, total) + RunBelow(page, n, total)
  }

  // nothing is freed by a run that is empty or lies past the last page
  lemma FreedNone(bm: Bits, total: nat, page: nat, n: nat)
    requires Words(bm) && total <= WORD * |bm| && (n == 0 || total <= page)
    ensures Freed(bm, bm, total, page, n)
  {
    assert RunBelow(page, n, total) == {};
  }

  lemma FreedMore(bm: Bits, bm': Bits, bm'': Bits, total: nat, page: nat, m: nat, mid: nat, n: nat, count: nat)
    requires Words(bm) && Words(bm') && Words(bm'') && |bm| == |bm'| == |bm''| && total <= WORD * |bm|
    requires Freed(bm, bm', total, page, m) && Freed(bm', bm'', total, mid, n) && mid == page + m && count == m + n
    ensures Freed(bm, bm'', total, page, count)
  {
    assert RunBelow(page, m, total) + RunBelow(mid, n, total) == RunBelow(page, count, total);
  }

  // ---------- allocating a run ----------

  ghost predicate AllClear(bm: Bits, page: nat, n: nat)
    requires Words(bm) && page + n <= WORD * |bm|
  {
    forall p {:trigger Bit(bm, p)} :: page <= p < page + n ==> !Bit(bm, p)
  }

  // count free pages from p on, which is a multiple of unit
  ghost predicate RunAt(free: set<nat>, p: nat, count: nat, unit: nat)
    requires 0 < unit
  {
    p % unit == 0 && RunSet(p, count) <= free
  }

  lemma RunAtClear(bm: Bits, total: nat, p: nat, count: nat, unit: nat)
    requires Words(bm) && total <= WORD * |bm| && 0 < unit && 0 < count && RunAt(FreePages(bm, total), p, count, unit)
    ensures p + count <= total && AllClear(bm, p, count)
  {
    assert InRun(p + count - 1, p, count) && p + count - 1 in RunSet(p, count);
    assert p + count - 1 in FreePages(bm, total);
    forall q | p <= q < p + count ensures !Bit(bm, q) {
      assert InRun(q, p, count) && q in RunSet(p, count);
      assert q in FreePages(bm, total);
    }
  }

  // no run starts in start .. end
  ghost predicate NoneFrom(free: set<nat>, start: nat, end: nat, count: nat, unit: nat)
    requires 0 < unit
  {
    forall p {:trigger RunAt(free, p, count, unit)} :: start <= p < end ==> !RunAt(free, p, count, unit)
  }

  // the n pages from page on were free in bm and are the only ones that are no longer free in bm'
  ghost predicate TookRun(bm: Bits, bm': Bits, total: nat, page: nat, n: nat)
    requires Words(bm) && Words(bm') && |bm| == |bm'| && total <= WORD * |bm|
  {
    && RunSet(page, n) <= FreePages(bm, total)
    && FreePages(bm', total) == FreePages(bm, total) - RunSet(page, n)
  }

  lemma TookRunNone(bm: Bits, total: nat, page: nat)
    requires Words(bm) && total <= WORD * |bm|
    ensures TookRun(bm, bm, total, page, 0)
  {
    assert RunSet(page, 0) == {};
  }

  // the next page of the run is taken too
  lemma TookRunNext(bm: Bits, bm': Bits, bm'': Bits, sm': Bits, total: nat, page: nat, n: nat, p: nat, n': nat)
    requires Words(bm) && Words(bm'') && |bm| == |bm'| == |bm''| && total <= WORD * |bm| && Indexed(bm', sm', total)
    requires TookRun(bm, bm', total, page, n) && p == page + n < total && !Bit(bm, p) && n' == n + 1
    requires bm'' == WithBit(bm', p, true)
    ensures TookRun(bm, bm'', total, page, n') && CountFree(bm'', total) == CountFree(bm', total) - 1
  {
    RunSplit(page, n, 1);
    assert RunSet(p, 1) == {p};
    assert p in FreePages(bm, total) && p !in RunSet(page, n);
    assert p in FreePages(bm', total);
    TookOne(bm', sm', total, p / WORD, p % WORD);
    TookCount(bm', bm'', total, [p]);
    assert Elems([p]) == {p};
  }

  // full words hold no free page
  lemma NoFreeFrom(bm: Bits, total: nat, lo: nat, hi: nat)
    requires Words(bm) && total <= WORD * |bm| && FullBetween(bm, lo, hi)
    ensures forall p {:trigger p in FreePages(bm, total)} :: p in FreePages(bm, total) ==> p < WORD * lo || WORD * hi <= p
  {
    forall p | WORD * lo <= p < WORD * hi && p < total ensures Bit(bm, p) {
      assert lo <= p / WORD < hi && IsFull(bm[p / WORD]);
    }
  }

  // with every bit set nothing is free
  lemma {:induction false} NoneCounted(bm: Bits, total: nat)
    requires Words(bm) && total <= WORD * |bm| && forall p {:trigger Bit(bm, p)} :: 0 <= p < total ==> Bit(bm, p)
    ensures CountFree(bm, total) == 0
  {
    if total > 0 {
      NoneCounted(bm, total - 1);
    }
  }

  lemma AllSet(bm: Bits, sm: Bits, total: nat)
    requires |bm| == WordsFor(total) && |sm| == WordsFor(|bm|) && Words(bm) && Words(sm)
    requires forall i {:trigger bm[i]} :: 0 <= i < |bm| ==> IsFull(bm[i])
    requires forall i {:trigger sm[i]} :: 0 <= i < |sm| ==> IsFull(sm[i])
    ensures Indexed(bm, sm, total) && FreePages(bm, total) == {} && CountFree(bm, total) == 0
  {
    forall p | 0 <= p < WORD * |bm| ensures Bit(bm, p) {
      assert IsFull(bm[p / WORD]);
    }
    forall p | 0 <= p < WORD * |sm| ensures Bit(sm, p) {
      assert IsFull(sm[p / WORD]);
    }
    NoneCounted(bm, total);
  }
}
