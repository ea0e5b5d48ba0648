/**
 The physical page allocator: a page bitmap, a summary bitmap with one bit per bitmap word, and a
 stack of free pages per CPU.  A page is named by its number, the address divided by the page size.
 */
module PhysicalManager {
  import opened BitMath
  import opened Common
  import opened PageBits
  import opened PageBooks

  const CACHE_SIZE := 512
  const BATCH_SIZE := 256

  // what two passes over the pages give: from first to total, then from 0 to hint
  ghost predicate Passes(free: set<nat>, first: nat, hint: nat, total: nat, r: Option<nat>, count: nat, unit: nat)
    requires 0 < unit
  {
    match r
    case None => NoneFrom(free, first, total, count, unit) && NoneFrom(free, 0, hint, count, unit)
    case Some(v) =>
      if first <= v then NoneFrom(free, first, v, count, unit)
      else v < hint && NoneFrom(free, first, total, count, unit) && NoneFrom(free, 0, v, count, unit)
  }

  class CpuCache {
    const stack: array<nat>
    var count: nat

    ghost predicate Ok()
      reads this
    {
      count <= stack.Length
    }

    ghost function Pages(): seq<nat>
      requires Ok()
      reads this, stack
    {
      stack[..count]
    }

    constructor (capacity: nat)
      ensures stack.Length == capacity && fresh(stack) && Ok() && Pages() == []
    {
      stack := new nat[capacity];
      count := 0;
    }

    method Push(p: nat)
      requires count < stack.Length
      modifies this`count, stack
      ensures Ok() && Pages() == old(Pages()) + [p] && count == old(count) + 1
    {
      stack[count] := p;
      count := count + 1;
    }

    method Pop() returns (p: nat)
      requires Ok() && 0 < count
      modifies this`count
      ensures Ok() && old(Pages()) == Pages() + [p] && count == old(count) - 1
    {
      count := count - 1;
      p := stack[count];
    }
  }

  class Manager {
    const bitmap: array<Word>
    const summary: array<Word>
    const totalPages: nat
    const lowMem: nat
    var usedPages: int
    var freeHint: nat
    var alignedHint: nat

    // the state before any usable range is given: every page is in use
    constructor (total: nat, threshold: nat)
      ensures totalPages == total && lowMem == (if threshold < total then threshold else total)
      ensures Counted() && Free() == {} && freeHint <= totalPages
      ensures fresh(bitmap) && fresh(summary)
    {
      totalPages, usedPages := total, total;
      lowMem := if threshold < total then threshold else total;
      freeHint := if threshold < total then threshold else 0;
      alignedHint := if threshold < total then threshold else 0;
      var ones := seq(WORD, _ => true);
      bitmap := new Word[WordsFor(total)](_ => ones);
      summary := new Word[WordsFor(WordsFor(total))](_ => ones);
      new;
      AllSet(Bm(), Sm(), total);
    }

    ghost function Bm(): Bits
      reads bitmap
    {
      bitmap[..]
    }

    ghost function Sm(): Bits
      reads summary
    {
      summary[..]
    }

    ghost predicate Ok()
      reads bitmap, summary
    {
      bitmap != summary && Indexed(Bm(), Sm(), totalPages)
    }

    ghost function Free(): set<nat>
      requires Ok()
      reads bitmap, summary
    {
      FreePages(Bm(), totalPages)
    }

    // ---------- single bits ----------

    predicate TestBit(idx: nat)
      requires idx < WORD * bitmap.Length && |bitmap[idx / WORD]| == WORD
      reads bitmap
    {
      bitmap[idx / WORD][idx % WORD]
    }

    // set or clear the summary bit of word i
    method MarkWord(i: nat, v: bool)
      requires Words(Sm()) && i < WORD * summary.Length
      modifies summary
      ensures Sm() == WithBit(old(Sm()), i, v)
    {
      var summaryByte, summaryBit := i / WORD, i % WORD;
      summary[summaryByte] := summary[summaryByte][summaryBit := v];
      assert Sm() == old(Sm())[summaryByte := old(Sm())[summaryByte][summaryBit := v]];
    }

    method SetBit(idx: nat)
      requires Ok() && idx < WORD * bitmap.Length
      modifies bitmap, summary
      ensures Ok() && Bm() == WithBit(old(Bm()), idx, true)
    {
      var byte, bit := idx / WORD, idx % WORD;
      ghost var sm := Sm();
      var word := bitmap[byte][bit := true];
      WordPadded(Bm(), sm, totalPages, byte);
      StoreKeeps(Bm(), sm, totalPages, byte, word);
      assert !IsFull(bitmap[byte]) || bitmap[byte] == word;
      bitmap[byte] := word;
      assert Bm() == old(Bm())[byte := word];
      if IsFull(word) {
        MarkWord(byte, true);
      } else {
        SameBit(sm, byte);
      }
    }

    method ClearBit(idx: nat)
      requires Ok() && idx < totalPages
      modifies bitmap, summary
      ensures Ok() && Bm() == WithBit(old(Bm()), idx, false)
    {
      var byte, bit := idx / WORD, idx % WORD;
      var word := bitmap[byte][bit := false];
      WordPadded(Bm(), Sm(), totalPages, byte);
      StoreKeeps(Bm(), Sm(), totalPages, byte, word);
      assert !word[bit];
      bitmap[byte] := word;
      assert Bm() == old(Bm())[byte := word];
      MarkWord(byte, false);
    }

    // ---------- cache_refill ----------

    // store word w at i, where w only has more bits set than before
    method FillWord(i: nat, w: Word)
      requires Ok() && i < bitmap.Length && |w| == WORD && !IsFull(bitmap[i])
      requires forall k {:trigger w[k]} :: 0 <= k < WORD && bitmap[i][k] ==> w[k]
      modifies bitmap, summary
      ensures Ok() && Bm() == old(Bm())[i := w]
    {
      ghost var sm := Sm();
      WordPadded(Bm(), sm, totalPages, i);
      StoreKeeps(Bm(), sm, totalPages, i, w);
      assert Bm()[i] == bitmap[i];
      bitmap[i] := w;
      assert Bm() == old(Bm())[i := w];
      if IsFull(w) {
        MarkWord(i, true);
      } else {
        SameBit(sm, i);
      }
    }

    // the free pages of one word, lowest first, until the batch is complete
    method TakeBits(cache: CpuCache, i: nat, need: nat, collected: nat) returns (collected': nat, ghost pages: seq<nat>)
      requires Ok() && i < bitmap.Length && !IsFull(bitmap[i]) && collected < need
      requires cache.Ok() && cache.count + (need - collected) <= cache.stack.Length
      modifies bitmap, summary, cache`count, cache.stack
      ensures Ok() && cache.Ok() && cache.Pages() == old(cache.Pages()) + pages
      ensures Took(old(Bm()), Bm(), totalPages, pages)
      ensures collected' == collected + |pages| <= need && (collected' < need ==> IsFull(bitmap[i]))
      ensures forall j {:trigger bitmap[j]} :: 0 <= j < bitmap.Length && j != i ==> bitmap[j] == old(bitmap[j])
    {
      var w := bitmap[i];
      collected', pages := collected, [];
      ghost var bm, sm := Bm(), Sm();
      assert bm[i := w] == bm;
      TookNone(bm, totalPages);
      WordPadded(bm, sm, totalPages, i);
      while !IsFull(w) && collected' < need
        invariant Bm() == bm && Sm() == sm && |w| == WORD && Padded(w, i, totalPages)
        invariant forall k {:trigger w[k]} :: 0 <= k < WORD && bm[i][k] ==> w[k]
        invariant cache.Ok() && cache.Pages() == old(cache.Pages()) + pages && cache.count == old(cache.count) + |pages|
        invariant collected' == collected + |pages| <= need
        invariant Words(bm[i := w]) && Took(bm, bm[i := w], totalPages, pages)
        decreases need - collected'
      {
        var bit := FirstClear(w);
        var page := i * WORD + bit;
        StoreKeeps(bm, sm, totalPages, i, w);
        TookOne(bm[i := w], WithBit(sm, i, IsFull(w)), totalPages, i, bit);
        TookMore(bm, bm[i := w], bm[i := w][i := w[bit := true]], totalPages, pages, [page]);
        assert bm[i := w][i := w[bit := true]] == bm[i := w[bit := true]];
        cache.Push(page);
        pages := pages + [page];
        collected' := collected' + 1;
        w := w[bit := true];
      }
      FillWord(i, w);
    }

    // an empty word is handed over whole
    method TakeWhole(cache: CpuCache, i: nat) returns (ghost pages: seq<nat>)
      requires Ok() && i < bitmap.Length && IsZero(bitmap[i]) && cache.Ok() && cache.count + WORD <= cache.stack.Length
      modifies bitmap, summary, cache`count, cache.stack
      ensures Ok() && cache.Ok() && cache.Pages() == old(cache.Pages()) + pages && |pages| == WORD
      ensures Took(old(Bm()), Bm(), totalPages, pages) && IsFull(bitmap[i])
      ensures forall j {:trigger bitmap[j]} :: 0 <= j < bitmap.Length && j != i ==> bitmap[j] == old(bitmap[j])
    {
      var full := seq(WORD, _ => true);
      pages := seq(WORD, k => WORD * i + k);
      assert !bitmap[i][0];
      WholeWord(Bm(), Sm(), totalPages, i, full, pages);
      FillWord(i, full);
      var base := i * WORD;
      ghost var before := cache.Pages();
      for k := 0 to WORD
        invariant cache.Ok() && cache.count == old(cache.count) + k
        modifies cache`count, cache.stack
        invariant cache.Pages() == before + pages[..k]
      {
        cache.Push(base + k);
      }
      assert pages[..WORD] == pages;
    }

    method TakeWord(cache: CpuCache, i: nat, need: nat, collected: nat) returns (collected': nat, ghost pages: seq<nat>)
      requires Ok() && i < bitmap.Length && !IsFull(bitmap[i]) && collected < need
      requires cache.Ok() && cache.count + (need - collected) <= cache.stack.Length
      modifies bitmap, summary, cache`count, cache.stack
      ensures Ok() && cache.Ok() && cache.Pages() == old(cache.Pages()) + pages
      ensures Took(old(Bm()), Bm(), totalPages, pages)
      ensures collected' == collected + |pages| <= need && (collected' < need ==> IsFull(bitmap[i]))
      ensures forall j {:trigger bitmap[j]} :: 0 <= j < bitmap.Length && j != i ==> bitmap[j] == old(bitmap[j])
    {
      if IsZero(bitmap[i]) && need - collected >= WORD {
        pages := TakeWhole(cache, i);
        collected' := collected + WORD;
      } else {
        collected', pages := TakeBits(cache, i, need, collected);
      }
    }

    // the hint is left at the word of the last page taken
    ghost predicate HintAtLast(hint: nat, pages: seq<nat>)
    {
      pages != [] && hint == WORD * (pages[|pages| - 1] / WORD)
    }

    // the next word, after pages were taken from bm
    method TakeListed(cache: CpuCache, i: nat, need: nat, collected: nat, ghost bm: Bits, ghost pages: seq<nat>,
        ghost stack: seq<nat>)
      returns (collected': nat, ghost pages': seq<nat>)
      requires cache.Ok() && cache.Pages() == stack + pages
      requires Ok() && i < bitmap.Length && !IsFull(bitmap[i]) && collected < need
      requires cache.count + (need - collected) <= cache.stack.Length
      requires Words(bm) && |bm| == bitmap.Length && Took(bm, Bm(), totalPages, pages) && Grew(bm, Bm())
      modifies bitmap, summary, cache`count, cache.stack
      ensures Ok() && cache.Ok() && |pages| <= |pages'| && cache.Pages() == stack + pages'
      ensures Took(bm, Bm(), totalPages, pages') && Grew(bm, Bm())
      ensures collected' == collected + |pages'| - |pages| <= need
      ensures if collected' < need then IsFull(bitmap[i]) else HintAtLast(WORD * i, pages')
      ensures forall j {:trigger bitmap[j]} :: 0 <= j < bitmap.Length && j != i ==> bitmap[j] == old(bitmap[j])
    {
      ghost var before := Bm();
      ghost var more;
      collected', more := TakeWord(cache, i, need, collected);
      TookMore(bm, before, Bm(), totalPages, pages, more);
      GrewOne(bm, before, Bm(), i);
      pages' := pages + more;
      if collected' >= need {
        TookIn(before, Bm(), totalPages, more, i, |more| - 1);
      }
    }

    // the words that word s of the summary lists as not full, in order, below endIdx
    method ScanSummary(cache: CpuCache, s: nat, endIdx: nat, need: nat, collected: nat)
      returns (done: bool, stop: bool, collected': nat, ghost pages: seq<nat>)
      requires Ok() && s < summary.Length && endIdx <= bitmap.Length && collected < need
      requires cache.Ok() && cache.count + (need - collected) <= cache.stack.Length
      modifies bitmap, summary, cache`count, cache.stack, this`freeHint
      ensures Ok() && cache.Ok() && cache.Pages() == old(cache.Pages()) + pages
      ensures Took(old(Bm()), Bm(), totalPages, pages) && Grew(old(Bm()), Bm())
      ensures collected' == collected + |pages| <= need && (done <==> collected' == need)
      ensures !done ==> FullBetween(Bm(), WORD * s, if stop then endIdx else WORD * s + WORD)
      ensures stop ==> !done && endIdx <= WORD * s + WORD
      ensures if done then freeHint < totalPages && HintAtLast(freeHint, pages) else freeHint == old(freeHint)
    {
      var w := summary[s];
      done, stop, collected', pages := false, false, collected, [];
      TookNone(Bm(), totalPages);
      SummaryWord(Bm(), Sm(), totalPages, s);
      while !IsFull(w)
        invariant Ok() && cache.Ok() && cache.Pages() == old(cache.Pages()) + pages && cache.count == old(cache.count) + |pages|
        invariant Took(old(Bm()), Bm(), totalPages, pages) && Grew(old(Bm()), Bm())
        invariant collected' == collected + |pages| < need && freeHint == old(freeHint)
        invariant |w| == WORD && Listed(Bm(), w, s)
        decreases WORD - CountSet(w)
      {
        var bit := FirstClear(w);
        var i := s * WORD + bit;
        assert ListedAt(Bm(), w, s, bit);
        if i >= endIdx {
          ListedFull(Bm(), w, s, bit);
          stop := true;
          return;
        }
        ghost var bm := Bm();
        collected', pages := TakeListed(cache, i, need, collected', old(Bm()), pages, old(cache.Pages()));
        if collected' >= need {
          freeHint := i * WORD;
          done := true;
          return;
        }
        ListedStep(bm, Bm(), w, s, bit);
        CountSetOne(w, bit);
        w := w[bit := true];
      }
      ListedFull(Bm(), w, s, WORD);
    }

    method ScanRange(cache: CpuCache, startIdx: nat, endIdx: nat, need: nat, collected: nat)
      returns (done: bool, collected': nat, ghost pages: seq<nat>)
      requires Ok() && endIdx <= bitmap.Length && startIdx <= bitmap.Length && collected < need
      requires cache.Ok() && cache.count + (need - collected) <= cache.stack.Length
      modifies bitmap, summary, cache`count, cache.stack, this`freeHint
      ensures Ok() && cache.Ok() && cache.Pages() == old(cache.Pages()) + pages
      ensures Took(old(Bm()), Bm(), totalPages, pages) && Grew(old(Bm()), Bm())
      ensures collected' == collected + |pages| <= need && (done <==> collected' == need)
      ensures !done ==> FullBetween(Bm(), WORD * (startIdx / WORD), endIdx)
      ensures if done then freeHint < totalPages && HintAtLast(freeHint, pages) else freeHint == old(freeHint)
    {
      done, collected', pages := false, collected, [];
      TookNone(Bm(), totalPages);
      var start, end := startIdx / WORD, WordsFor(endIdx);
      var s := start;
      while s < end
        invariant start <= s && Ok() && cache.Ok() && cache.Pages() == old(cache.Pages()) + pages
        invariant cache.count == old(cache.count) + |pages|
        invariant Took(old(Bm()), Bm(), totalPages, pages) && Grew(old(Bm()), Bm())
        invariant collected' == collected + |pages| < need && freeHint == old(freeHint)
        invariant FullBetween(Bm(), WORD * start, WORD * s)
      {
        ghost var bm := Bm();
        if IsFull(summary[s]) {
          SummaryWord(bm, Sm(), totalPages, s);
          ListedFull(bm, summary[s], s, WORD);
          FullExtend(bm, bm, WORD * start, WORD * s, WORD * s + WORD);
        } else {
          var stop;
          ghost var more;
          done, stop, collected', more := ScanSummary(cache, s, endIdx, need, collected');
          TookMore(old(Bm()), bm, Bm(), totalPages, pages, more);
          GrewTrans(old(Bm()), bm, Bm());
          pages := pages + more;
          if done {
            return;
          }
          FullExtend(bm, Bm(), WORD * start, WORD * s, if stop then endIdx else WORD * s + WORD);
          if stop {
            return;
          }
        }
        s := s + 1;
      }
    }

    // from startIdx to the end, then from the beginning up to startIdx
    method ScanAll(cache: CpuCache, startIdx: nat, need: nat) returns (collected: nat, ghost pages: seq<nat>)
      requires Ok() && startIdx <= bitmap.Length && 0 < need && freeHint <= totalPages
      requires cache.Ok() && cache.count + need <= cache.stack.Length
      modifies bitmap, summary, cache`count, cache.stack, this`freeHint
      ensures Ok() && cache.Ok() && freeHint <= totalPages && cache.Pages() == old(cache.Pages()) + pages
      ensures Took(old(Bm()), Bm(), totalPages, pages) && collected == |pages|
      ensures if collected == need then HintAtLast(freeHint, pages) else Free() == {}
    {
      var done;
      done, collected, pages := ScanRange(cache, startIdx, bitmap.Length, need, 0);
      if done {
        return;
      }
      if startIdx > 0 {
        ghost var bm, more := Bm(), [];
        done, collected, more := ScanRange(cache, 0, startIdx, need, collected);
        TookMore(old(Bm()), bm, Bm(), totalPages, pages, more);
        pages := pages + more;
        if done {
          return;
        }
        FullExtend(bm, Bm(), WORD * (startIdx / WORD), bitmap.Length, bitmap.Length);
        FullExtend(Bm(), Bm(), 0, startIdx, bitmap.Length);
      }
      NoneFree(Bm(), totalPages);
    }

    // a full batch, or every free page there is
    method CacheRefill(cache: CpuCache) returns (ghost pages: seq<nat>)
      requires Ok() && cache.Ok() && freeHint <= totalPages && lowMem <= totalPages
      requires usedPages == totalPages - CountFree(Bm(), totalPages)
      modifies bitmap, summary, cache`count, cache.stack, this`freeHint, this`usedPages
      ensures Ok() && cache.Ok() && freeHint <= totalPages && cache.Pages() == old(cache.Pages()) + pages
      ensures Took(old(Bm()), Bm(), totalPages, pages) && usedPages == totalPages - CountFree(Bm(), totalPages)
      ensures if old(cache.count) + BATCH_SIZE <= cache.stack.Length then (if |pages| == BATCH_SIZE then HintAtLast(freeHint, pages) else Free() == {}) else pages == []
    {
      var need := BATCH_SIZE;
      pages := [];
      TookNone(Bm(), totalPages);
      if cache.count + need > cache.stack.Length {
        need := cache.stack.Length - cache.stack.Length;
      }
      if need == 0 {
        return;
      }
      var startIdx := freeHint / WORD;
      if lowMem < totalPages && freeHint < lowMem {
        startIdx := lowMem / WORD;
      }
      var collected;
      collected, pages := ScanAll(cache, startIdx, need);
      TookCount(old(Bm()), Bm(), totalPages, pages);
      usedPages := usedPages + collected;
    }

    // ---------- cache_flush ----------

    method CommitWord(i: nat, w: Word)
      requires Ok() && i < bitmap.Length && |w| == WORD && !IsFull(w) && Padded(w, i, totalPages)
      modifies bitmap, summary
      ensures Ok() && Bm() == old(Bm())[i := w]
    {
      StoreKeeps(Bm(), Sm(), totalPages, i, w);
      bitmap[i] := w;
      assert Bm() == old(Bm())[i := w];
      MarkWord(i, false);
    }

    // a word-local copy waiting to be written back
    ghost predicate PendingOk(last: nat, curr: Word, dirty: bool)
      reads bitmap
    {
      dirty ==> last < bitmap.Length && |curr| == WORD && Padded(curr, last, totalPages)
    }

    // the bitmap as it will be once the copy is written back
    ghost function Pending(last: nat, curr: Word, dirty: bool): Bits
      requires PendingOk(last, curr, dirty)
      reads bitmap
    {
      if dirty then Bm()[last := curr] else Bm()
    }

    // write the copy back if the next page lies in another word, and load that word
    method SwitchWord(last: nat, curr: Word, dirty: bool, word: nat) returns (curr': Word)
      requires Ok() && word < bitmap.Length && PendingOk(last, curr, dirty) && (dirty ==> !IsFull(curr))
      modifies bitmap, summary
      ensures Ok() && PendingOk(word, curr', true) && Pending(word, curr', true) == old(Pending(last, curr, dirty))
    {
      curr' := curr;
      if !dirty || word != last {
        if dirty {
          CommitWord(last, curr);
        }
        curr' := bitmap[word];
        WordPadded(Bm(), Sm(), totalPages, word);
        assert Bm()[word := curr'] == Bm();
      }
    }

    lemma ClearPending(last: nat, curr: Word, page: nat, bm: Bits, given: seq<nat>)
      requires Ok() && page < totalPages && last == page / WORD && PendingOk(last, curr, true)
      requires Words(bm) && |bm| == |Bm()| && Words(Pending(last, curr, true)) && totalPages <= WORD * |bm|
      requires Took(Pending(last, curr, true), bm, totalPages, given) && Bit(bm, page) && page !in given
      ensures var curr' := curr[page % WORD := false];
        && PendingOk(last, curr', true) && !IsFull(curr') && Words(Pending(last, curr', true))
        && Took(Pending(last, curr', true), bm, totalPages, [page] + given)
    {
      var vb, vs := Pending(last, curr, true), WithBit(Sm(), last, IsFull(curr));
      StoreKeeps(Bm(), Sm(), totalPages, last, curr);
      assert page !in FreePages(bm, totalPages) && page !in Elems(given);
      assert page !in FreePages(vb, totalPages);
      GaveOne(vb, vs, totalPages, page);
      var curr' := curr[page % WORD := false];
      assert !curr'[page % WORD];
      assert vb[last := curr'] == Pending(last, curr', true);
      TookMore(Pending(last, curr', true), vb, bm, totalPages, [page], given);
    }

    // count a page given back, and lower the hints to it
    method LowerHints(page: nat)
      requires page < totalPages && freeHint <= totalPages
      modifies this`usedPages, this`freeHint, this`alignedHint
      ensures usedPages == old(usedPages) - 1 && freeHint <= totalPages && alignedHint <= old(alignedHint)
    {
      usedPages := usedPages - 1;
      if page < freeHint {
        freeHint := page;
      }
      if page < alignedHint {
        alignedHint := page;
      }
    }

    // clear one page in the word at hand, storing the previous word first if it is another one
    method FlushPage(ghost bm: Bits, last: nat, curr: Word, dirty: bool, page: nat,
        ghost given: seq<nat>) returns (curr': Word)
      requires Ok() && page < totalPages && freeHint <= totalPages && Words(bm) && |bm| == bitmap.Length
      requires PendingOk(last, curr, dirty) && (dirty ==> !IsFull(curr)) && Words(Pending(last, curr, dirty))
      requires Took(Pending(last, curr, dirty), bm, totalPages, given) && Bit(bm, page) && page !in given
      modifies bitmap, summary, this`usedPages, this`freeHint, this`alignedHint
      ensures Ok() && PendingOk(page / WORD, curr', true) && !IsFull(curr') && Words(Pending(page / WORD, curr', true))
      ensures Took(Pending(page / WORD, curr', true), bm, totalPages, [page] + given)
      ensures usedPages == old(usedPages) - 1 && freeHint <= totalPages && alignedHint <= old(alignedHint)
    {
      var word, bit := page / WORD, page % WORD;
      curr' := SwitchWord(last, curr, dirty, word);
      ClearPending(word, curr', page, bm, given);
      curr' := curr'[bit := false];
      LowerHints(page);
    }

    // pages are given back in the given order, one word-local copy at a time
    method FlushPages(order: seq<nat>) returns (ghost given: seq<nat>)
      requires Ok() && NoDup(order) && freeHint <= totalPages
      requires forall p {:trigger p in order} :: p in order && p < totalPages ==> Bit(Bm(), p)
      modifies bitmap, summary, this`usedPages, this`freeHint, this`alignedHint
      ensures Ok() && Took(Bm(), old(Bm()), totalPages, given) && Elems(given) == InRange(order, totalPages)
      ensures usedPages == old(usedPages) - |given| && freeHint <= totalPages && alignedHint <= old(alignedHint)
    {
      ghost var bm := Bm();
      var last: nat, curr, dirty := 0, [], false;
      given := [];
      TookNone(bm, totalPages);
      var i := 0;
      while i < |order|
        invariant 0 <= i <= |order| && Ok() && freeHint <= totalPages && alignedHint <= old(alignedHint)
        invariant PendingOk(last, curr, dirty) && (dirty ==> !IsFull(curr)) && Words(Pending(last, curr, dirty))
        invariant Took(Pending(last, curr, dirty), bm, totalPages, given)
        invariant Elems(given) == InRange(order[..i], totalPages)
        invariant usedPages == old(usedPages) - |given|
      {
        var page := order[i];
        if page < totalPages {
          assert page in order && page !in order[..i];
          assert page !in Elems(given);
          curr := FlushPage(bm, last, curr, dirty, page, given);
          last, dirty := page / WORD, true;
          ElemsCons(page, given);
          given := [page] + given;
        }
        InRangeNext(order, totalPages, i);
        i := i + 1;
      }
      assert order[..i] == order;
      if dirty {
        CommitWord(last, curr);
      }
    }

    // the upper half of a full stack goes back to the bitmap; sorted is that half as qsort leaves it
    method FlushHalf(cache: CpuCache, sorted: seq<nat>)
      requires Ok() && cache.Ok() && cache.count == cache.stack.Length && NoDup(cache.Pages()) && freeHint <= totalPages
      requires multiset(sorted) == multiset(cache.stack[cache.stack.Length / 2..])
      requires forall p {:trigger p in cache.Pages()} :: p in cache.Pages() ==> p < totalPages && Bit(Bm(), p)
      requires usedPages == totalPages - CountFree(Bm(), totalPages)
      modifies bitmap, summary, cache`count, this`usedPages, this`freeHint, this`alignedHint
      ensures Ok() && cache.Ok() && freeHint <= totalPages && alignedHint <= old(alignedHint)
      ensures cache.Pages() == old(cache.Pages())[..cache.stack.Length / 2]
      ensures Took(Bm(), old(Bm()), totalPages, old(cache.Pages())[cache.stack.Length / 2..])
      ensures usedPages == totalPages - CountFree(Bm(), totalPages)
    {
      var target := cache.stack.Length / 2;
      ghost var top := cache.Pages()[target..];
      assert top == cache.stack[target..];
      UpperPart(cache.Pages(), target);
      SamePages(top, sorted, totalPages);
      forall p | p in sorted ensures p in cache.Pages() {
        assert p in multiset(sorted);
      }
      ghost var given := FlushPages(sorted);
      TookCount(Bm(), old(Bm()), totalPages, given);
      SameTook(Bm(), old(Bm()), totalPages, given, top);
      cache.count := target;
    }

    // Ok, and the counter agrees with the bitmap
    ghost predicate Counted()
      reads this`usedPages, bitmap, summary
    {
      Ok() && usedPages == totalPages - CountFree(Bm(), totalPages)
    }

    ghost function Ledger(): Books
      reads this`usedPages, bitmap, summary
    {
      Books(Bm(), Sm(), usedPages)
    }

    method CacheFlush(cache: CpuCache, sorted: seq<nat>)
      requires Counted() && cache.Ok() && cache.count == cache.stack.Length && NoDup(cache.Pages()) && freeHint <= totalPages
      requires multiset(sorted) == multiset(cache.stack[cache.stack.Length / 2..])
      requires forall p {:trigger p in cache.Pages()} :: p in cache.Pages() ==> p < totalPages && Bit(Bm(), p)
      modifies bitmap, summary, cache`count, this`usedPages, this`freeHint, this`alignedHint
      ensures Counted() && cache.Ok() && freeHint <= totalPages && alignedHint <= old(alignedHint)
      ensures cache.Pages() == old(cache.Pages())[..cache.stack.Length / 2]
      ensures Took(Bm(), old(Bm()), totalPages, old(cache.Pages())[cache.stack.Length / 2..])
      ensures Below(old(cache.Pages())[cache.stack.Length / 2..], totalPages)
      ensures Kept(old(Ledger()), totalPages) && Ledger() == ClearEach(old(Ledger()), totalPages, old(cache.Pages())[cache.stack.Length / 2..])
    {
      ghost var top := cache.Pages()[cache.stack.Length / 2..];
      forall i | 0 <= i < |top| ensures top[i] < totalPages {
        assert top[i] in cache.Pages();
      }
      FlushHalf(cache, sorted);
      OneByOne(old(Ledger()), Ledger(), totalPages, top);
    }

    // ---------- free_to_bitmap ----------

    method FreeOne(page: nat)
      requires Counted() && page < totalPages
      modifies bitmap, summary, this`usedPages
      ensures Counted() && Freed(old(Bm()), Bm(), totalPages, page, 1)
    {
      assert RunBelow(page, 1, totalPages) == {page};
      if TestBit(page) {
        GaveOne(Bm(), Sm(), totalPages, page);
        ClearBit(page);
        TookCount(Bm(), old(Bm()), totalPages, [page]);
        assert Elems([page]) == {page};
        usedPages := usedPages - 1;
      } else {
        assert page in Free();
      }
    }

    // the last word holds bits past the last page and is all clear
    ghost predicate Torn()
      reads bitmap
    {
      && 0 < bitmap.Length == WordsFor(totalPages) && totalPages < WORD * bitmap.Length
      && |bitmap[bitmap.Length - 1]| == WORD && IsZero(bitmap[bitmap.Length - 1])
    }

    lemma TornNotOk()
      requires Torn()
      ensures !Ok()
    {
      var last := bitmap.Length - 1;
      assert Words(Bm()) ==> Bit(Bm(), WORD * last + (WORD - 1)) == bitmap[last][WORD - 1];
    }

    // word i holds the last page, and bits past it
    predicate EndsIn(i: nat)
    {
      WORD * i < totalPages < WORD * i + WORD
    }

    // a whole word is cleared with the bits past the last page, if it has any
    method FreeWord(i: nat)
      requires Counted() && i < bitmap.Length
      modifies bitmap, summary, this`usedPages
      ensures if EndsIn(i) then Torn() else Counted() && Freed(old(Bm()), Bm(), totalPages, WORD * i, WORD)
    {
      var zero := seq(WORD, _ => false);
      if !EndsIn(i) {
        ZeroWord(Bm(), Sm(), totalPages, i, zero);
        RunInside(WORD * i, WORD, totalPages);
      }
      if !IsZero(bitmap[i]) {
        usedPages := usedPages - CountSet(bitmap[i]);
        StoreZero(i, zero);
      } else {
        assert bitmap[i] == zero;
        assert Bm()[i := zero] == Bm();
      }
    }

    method StoreZero(i: nat, zero: Word)
      requires Ok() && i < bitmap.Length && |zero| == WORD && IsZero(zero)
      modifies bitmap, summary
      ensures Bm() == old(Bm())[i := zero] && (Padded(zero, i, totalPages) ==> Ok())
    {
      assert !IsFull(zero) by { assert !zero[0]; }
      if Padded(zero, i, totalPages) {
        StoreKeeps(Bm(), Sm(), totalPages, i, zero);
      }
      bitmap[i] := zero;
      assert Bm() == old(Bm())[i := zero];
      MarkWord(i, false);
    }

    // where the word of the last page starts
    function LastStart(): nat
    {
      WORD * (totalPages / WORD)
    }

    // the run covers the whole word of the last page, and that word holds bits past the last page
    predicate CoversEnd(page: nat, count: nat)
    {
      totalPages % WORD != 0 && page <= LastStart() && LastStart() + WORD <= page + count
    }

    lemma NotAtStart(p: nat)
      requires p % WORD != 0
      ensures p != LastStart()
    {
    }

    // single bits, up to a word boundary if aligning; past stands for a run that starts past the last page
    method FreeBits(page: nat, count: nat, aligning: bool, ghost past: bool) returns (n: nat)
      requires if past then totalPages <= page else Counted()
      modifies bitmap, summary, this`usedPages
      ensures n <= count && (n < count ==> aligning && (page + n) % WORD == 0)
      ensures aligning && page <= LastStart() ==> page + n <= LastStart()
      ensures if past then Ledger() == old(Ledger()) else Counted() && Freed(old(Bm()), Bm(), totalPages, page, n)
    {
      n := 0;
      if !past { FreedNone(Bm(), totalPages, page, 0); }
      while n < count && (!aligning || (page + n) % WORD != 0)
        invariant n <= count && (aligning && page <= LastStart() ==> page + n <= LastStart())
        invariant if past then Ledger() == old(Ledger()) else Counted() && Freed(old(Bm()), Bm(), totalPages, page, n)
      {
        if aligning { NotAtStart(page + n); }
        FreeNextBit(old(Bm()), page, n, past);
        n := n + 1;
      }
    }

    method FreeNextBit(ghost bm: Bits, page: nat, n: nat, ghost past: bool)
      requires if past then totalPages <= page else Counted() && Words(bm) && |bm| == bitmap.Length && Freed(bm, Bm(), totalPages, page, n)
      modifies bitmap, summary, this`usedPages
      ensures if past then Ledger() == old(Ledger()) else Counted() && Freed(bm, Bm(), totalPages, page, n + 1)
    {
      ghost var bm' := Bm();
      var curr := page + n;
      if curr < totalPages {
        FreeOne(curr);
      } else if !past {
        FreedNone(bm', totalPages, curr, 1);
      }
      if !past { FreedMore(bm, bm', Bm(), totalPages, page, n, curr, 1, n + 1); }
    }

    // the first n pages of the run are freed word by word
    ghost predicate WordsDone(bm: Bits, page: nat, n: nat)
      reads bitmap, summary, this`usedPages
    {
      if CoversEnd(page, n) then Torn() && totalPages <= page + n
      else Counted() && Words(bm) && |bm| == bitmap.Length && Freed(bm, Bm(), totalPages, page, n)
    }

    method FreeNextWord(ghost bm: Bits, page: nat, n: nat, i: nat)
      requires WordsDone(bm, page, n) && page + n == WORD * i
      modifies bitmap, summary, this`usedPages
      ensures WordsDone(bm, page, n + WORD)
    {
      ghost var bm' := Bm();
      CoverStep(page, n, i);
      if i < bitmap.Length {
        FreeWord(i);
      } else if !CoversEnd(page, n) {
        FreedNone(bm', totalPages, WORD * i, WORD);
      }
      if !CoversEnd(page, n + WORD) {
        FreedMore(bm, bm', Bm(), totalPages, page, n, WORD * i, WORD, n + WORD);
      }
    }

    // one more word of the run: it is the one of the last page, or none was and none is
    lemma CoverStep(page: nat, n: nat, i: nat)
      requires page + n == WORD * i
      ensures CoversEnd(page, n + WORD) <==> CoversEnd(page, n) || EndsIn(i)
      ensures CoversEnd(page, n) ==> WordsFor(totalPages) <= i
      ensures WordsFor(totalPages) <= i ==> totalPages <= WORD * i && !EndsIn(i)
      ensures EndsIn(i) ==> i == WordsFor(totalPages) - 1
    {
    }

    // less than a word at the end covers no word
    lemma CoverRest(page: nat, n: nat, count: nat, i: nat)
      requires n <= count < n + WORD && (0 < count ==> page + n == WORD * i)
      ensures CoversEnd(page, count) <==> CoversEnd(page, n)
    {
    }

    lemma NothingYet(page: nat)
      requires Counted()
      ensures WordsDone(Bm(), page, 0)
    {
      FreedNone(Bm(), totalPages, page, 0);
    }

    method FreeWords(page: nat, count: nat) returns (n: nat)
      requires Counted() && (0 < count ==> page % WORD == 0)
      modifies bitmap, summary, this`usedPages
      ensures n <= count < n + WORD && (CoversEnd(page, count) <==> CoversEnd(page, n)) && WordsDone(old(Bm()), page, n)
    {
      n := 0;
      ghost var bm := Bm();
      NothingYet(page);
      var wordIdx: nat := page / WORD;
      while count - n >= WORD
        invariant n <= count && (0 < count ==> page + n == WORD * wordIdx) && WordsDone(bm, page, n)
      {
        FreeNextWord(bm, page, n, wordIdx);
        n, wordIdx := n + WORD, wordIdx + 1;
      }
      CoverRest(page, n, count, wordIdx);
    }

    // single bits up to a word boundary, then whole words, then single bits
    method FreeRun(page: nat, count: nat)
      requires Counted()
      modifies bitmap, summary, this`usedPages, this`freeHint
      ensures if CoversEnd(page, count) then Torn() else Counted() && Freed(old(Bm()), Bm(), totalPages, page, count)
      ensures freeHint == if page < old(freeHint) && page > lowMem then page else old(freeHint)
    {
      var head := FreeBits(page, count, true, false);
      ghost var bm1 := Bm();
      var curr, remaining := page + head, count - head;
      var whole := FreeWords(curr, remaining);
      ghost var bm2, done := Bm(), head + whole;
      if !CoversEnd(page, count) {
        FreedMore(old(Bm()), bm1, bm2, totalPages, page, head, curr, whole, done);
      }
      curr, remaining := curr + whole, remaining - whole;
      var tail := FreeBits(curr, remaining, false, CoversEnd(page, count));
      if !CoversEnd(page, count) {
        FreedMore(old(Bm()), bm2, Bm(), totalPages, page, done, curr, tail, count);
      }
      if page < freeHint && page > lowMem {
        freeHint := page;
      }
    }

    // the books stay exact iff the run does not cover a last word that holds bits past the last page
    method FreeToBitmap(page: nat, count: nat)
      requires Counted()
      modifies bitmap, summary, this`usedPages, this`freeHint
      ensures if CoversEnd(page, count) then !Ok() else Counted()
      ensures Counted() ==> Freed(old(Bm()), Bm(), totalPages, page, count)
      ensures freeHint == if page < old(freeHint) && page > lowMem then page else old(freeHint)
      ensures Counted() ==> Kept(old(Ledger()), totalPages) && Ledger() == ClearEach(old(Ledger()), totalPages, PagesBelow(page, count, totalPages))
    {
      FreeRun(page, count);
      if CoversEnd(page, count) {
        TornNotOk();
      } else {
        OneByOne(old(Ledger()), Ledger(), totalPages, PagesBelow(page, count, totalPages));
      }
    }

    // ---------- allocating a run ----------

    // the offset of the first page in use, or count if there is none
    method FirstBusy(page: nat, count: nat) returns (j: nat)
      requires Ok() && page + count <= totalPages
      ensures j <= count && AllClear(Bm(), page, j) && (j < count ==> Bit(Bm(), page + j))
    {
      j := 0;
      while j < count && !TestBit(page + j)
        invariant j <= count && AllClear(Bm(), page, j)
      {
        j := j + 1;
      }
    }

    method ClaimRun(page: nat, count: nat)
      requires Counted() && page + count <= totalPages && AllClear(Bm(), page, count)
      modifies bitmap, summary, this`usedPages
      ensures Counted() && TookRun(old(Bm()), Bm(), totalPages, page, count)
    {
      ghost var bm := Bm();
      TookRunNone(bm, totalPages, page);
      var j := 0;
      while j < count
        invariant j <= count && Ok() && TookRun(bm, Bm(), totalPages, page, j)
        invariant CountFree(Bm(), totalPages) == CountFree(bm, totalPages) - j
        modifies bitmap, summary
      {
        ghost var bm', sm', k := Bm(), Sm(), j;
        var p := page + j;
        assert !Bit(bm, p);
        SetBit(p);
        j := j + 1;
        TookRunNext(bm, bm', Bm(), sm', totalPages, page, k, p, j);
      }
      usedPages := usedPages + count;
    }

    // a summary word of ones lets the search skip 4096 pages, of which the first is in use
    method Skips(curr: nat, count: nat) returns (skip: bool)
      requires Ok() && curr < totalPages
      ensures skip ==> WORD <= count && Bit(Bm(), curr)
    {
      skip := false;
      if curr % WORD == 0 && count >= WORD {
        var summaryIdx := curr / WORD / WORD;
        skip := summaryIdx < summary.Length && IsFull(summary[summaryIdx]);
        if skip {
          SummaryWord(Bm(), Sm(), totalPages, summaryIdx);
          ListedFull(Bm(), summary[summaryIdx], summaryIdx, WORD);
          assert IsFull(bitmap[curr / WORD]);
        }
      }
    }

    // the runs for which a failed search leaves nothing out
    ghost predicate Thorough(count: nat, unit: nat)
    {
      IsPow2(unit) && (count < WORD || unit % (WORD * WORD) == 0)
    }

    // no aligned run of count free pages starts in start .. end and ends by limit
    ghost predicate NoRun(start: nat, end: nat, limit: nat, count: nat, unit: nat)
      requires Ok() && 0 < unit && limit <= totalPages
      reads bitmap, summary
    {
      forall p {:trigger p % unit} :: start <= p < end && p + count <= limit && p % unit == 0 ==> !AllClear(Bm(), p, count)
    }

    lemma FirstAligned(start: nat, limit: nat, count: nat, unit: nat)
      requires Ok() && 0 < unit && limit <= totalPages
      ensures NoRun(start, AlignUp(start, unit), limit, count, unit)
    {
      forall p | start <= p < AlignUp(start, unit) && p + count <= limit && p % unit == 0 ensures false {
        AlignedApart(p, AlignUp(start, unit), unit);
      }
    }

    // a busy page rules out the candidates up to it
    lemma SkipBusy(start: nat, limit: nat, count: nat, unit: nat, curr: nat, j: nat)
      requires Ok() && 0 < unit && limit <= totalPages && curr % unit == 0 && j < count && curr + count <= limit
      requires NoRun(start, curr, limit, count, unit) && Bit(Bm(), curr + j)
      ensures NoRun(start, AlignUp(curr + j + 1, unit), limit, count, unit)
    {
      forall p | start <= p < AlignUp(curr + j + 1, unit) && p + count <= limit && p % unit == 0 ensures !AllClear(Bm(), p, count) {
        if curr <= p {
          if p > curr + j {
            AlignedApart(p, AlignUp(curr + j + 1, unit), unit);
          }
          assert Bit(Bm(), curr + j);
        }
      }
    }

    // a skip of 4096 pages passes no other multiple of a multiple of 4096
    lemma SkipBlock(start: nat, limit: nat, count: nat, unit: nat, curr: nat)
      requires Ok() && 0 < unit && limit <= totalPages && curr % unit == 0 && 0 < count && curr + count <= limit
      requires unit % (WORD * WORD) == 0 && NoRun(start, curr, limit, count, unit) && Bit(Bm(), curr)
      ensures NoRun(start, AlignUp(curr + WORD * WORD, unit), limit, count, unit)
    {
      var next := AlignUp(curr + WORD * WORD, unit);
      assert WORD * WORD <= unit;
      forall p | start <= p < next && p + count <= limit && p % unit == 0 ensures !AllClear(Bm(), p, count) {
        if curr <= p {
          NextBlock(curr, p, WORD * WORD, unit);
          assert Bit(Bm(), p);
        }
      }
    }

    // the search that started at start stands at curr
    ghost predicate Passed(start: nat, curr: nat, limit: nat, count: nat, unit: nat)
      requires Ok() && 0 < unit && limit <= totalPages
      reads bitmap, summary
    {
      && start <= curr && (IsPow2(unit) ==> curr % unit == 0)
      && (Thorough(count, unit) ==> NoRun(start, curr, limit, count, unit))
    }

    lemma PassFirst(start: nat, limit: nat, count: nat, unit: nat)
      requires Ok() && 0 < unit && limit <= totalPages
      ensures Passed(start, RoundUp(start, unit), limit, count, unit)
    {
      if IsPow2(unit) {
        RoundUpPow2(start, unit);
        FirstAligned(start, limit, count, unit);
      }
    }

    lemma PassBlock(start: nat, limit: nat, count: nat, unit: nat, curr: nat)
      requires Ok() && 0 < unit && limit <= totalPages && Passed(start, curr, limit, count, unit)
      requires WORD <= count && curr + count <= limit && Bit(Bm(), curr)
      ensures Passed(start, RoundUp(curr + WORD * WORD, unit), limit, count, unit)
    {
      if IsPow2(unit) {
        RoundUpPow2(curr + WORD * WORD, unit);
      }
      if Thorough(count, unit) {
        SkipBlock(start, limit, count, unit, curr);
      }
    }

    lemma PassBusy(start: nat, limit: nat, count: nat, unit: nat, curr: nat, j: nat)
      requires Ok() && 0 < unit && limit <= totalPages && Passed(start, curr, limit, count, unit)
      requires j < count && curr + count <= limit && Bit(Bm(), curr + j)
      ensures Passed(start, RoundUp(curr + j + 1, unit), limit, count, unit)
    {
      if IsPow2(unit) {
        RoundUpPow2(curr + j + 1, unit);
      }
      if Thorough(count, unit) {
        SkipBusy(start, limit, count, unit, curr, j);
      }
    }

    lemma PassEnd(start: nat, end: nat, limit: nat, count: nat, unit: nat, curr: nat)
      requires Ok() && 0 < unit && limit <= totalPages && Passed(start, curr, limit, count, unit)
      requires end <= curr || limit < curr + count
      ensures Thorough(count, unit) ==> NoRun(start, end, limit, count, unit)
    {
    }

    // the first aligned run that the search meets at or after start, with its first page below end
    method Search(start: nat, end: nat, limit: nat, count: nat, unit: nat) returns (r: Option<nat>)
      requires Ok() && 0 < count && 0 < unit && limit <= totalPages
      ensures r.Some? ==> start <= r.value < end && r.value + count <= limit && AllClear(Bm(), r.value, count) && (IsPow2(unit) ==> r.value % unit == 0)
      ensures Thorough(count, unit) ==> NoRun(start, if r.Some? then r.value else end, limit, count, unit)
    {
      var curr := RoundUp(start, unit);
      PassFirst(start, limit, count, unit);
      while curr < end
        invariant Passed(start, curr, limit, count, unit)
        decreases end - curr
      {
        if curr + count > limit {
          break;
        }
        var skip := Skips(curr, count);
        if skip {
          PassBlock(start, limit, count, unit, curr);
          curr := RoundUp(curr + WORD * WORD, unit);
        } else {
          var j := FirstBusy(curr, count);
          if j == count {
            return Some(curr);
          }
          PassBusy(start, limit, count, unit, curr, j);
          curr := RoundUp(curr + j + 1, unit);
        }
      }
      PassEnd(start, end, limit, count, unit, curr);
      return None;
    }

    // what a successful search for an aligned run gives its caller
    ghost predicate Run(r: Option<nat>, bm: Bits, count: nat, unit: nat, limit: nat)
      requires 0 < unit && Ok() && Words(bm) && |bm| == bitmap.Length
      reads bitmap, summary
    {
      match r
      case None => Bm() == bm
      case Some(page) => (IsPow2(unit) ==> page % unit == 0) && page + count <= limit && TookRun(bm, Bm(), totalPages, page, count)
    }

    lemma NoRunNone(start: nat, end: nat, limit: nat, count: nat, unit: nat)
      requires Ok() && 0 < unit && 0 < count && limit <= totalPages && NoRun(start, end, limit, count, unit)
      ensures forall p {:trigger RunAt(Free(), p, count, unit)} :: start <= p < end && p + count <= limit ==> !RunAt(Free(), p, count, unit)
      ensures limit == totalPages ==> NoneFrom(Free(), start, end, count, unit)
    {
      forall p | start <= p < end && RunAt(Free(), p, count, unit) ensures limit < p + count <= totalPages {
        RunAtClear(Bm(), totalPages, p, count, unit);
        assert p % unit == 0;
      }
    }

    method TryAlloc(start: nat, end: nat, count: nat, unit: nat, large: bool) returns (r: Option<nat>)
      requires Counted() && 0 < count && 0 < unit
      modifies bitmap, summary, this`usedPages, this`freeHint, this`alignedHint
      ensures Counted() && Run(r, old(Bm()), count, unit, totalPages)
      ensures Thorough(count, unit) ==> NoneFrom(old(Free()), start, if r.Some? then r.value else end, count, unit)
      ensures r.Some? ==> start <= r.value < end
      ensures r == None ==> freeHint == old(freeHint) && alignedHint == old(alignedHint)
      ensures r.Some? ==> freeHint == (if large then old(freeHint) else r.value + count)
      ensures r.Some? ==> alignedHint == (if large then r.value + count else old(alignedHint))
    {
      r := Search(start, end, totalPages, count, unit);
      if Thorough(count, unit) {
        NoRunNone(start, if r.Some? then r.value else end, totalPages, count, unit);
      }
      if r.Some? {
        var curr := r.value;
        ClaimRun(curr, count);
        if large {
          alignedHint := curr + count;
        } else {
          freeHint := curr + count;
        }
      }
    }

    // where the first pass starts: high memory, or the hint kept for large alignments
    function StartFor(alignment: nat): nat
      reads this`freeHint, this`alignedHint
    {
      if alignment >= PAGE_2M then alignedHint
      else if lowMem < totalPages && freeHint < lowMem then lowMem
      else freeHint
    }

    // the pages that the first pass looks at: from the hint on, and where there is high memory only that; for large
    // alignments from their own hint on
    ghost predicate Ahead(p: nat, alignment: nat)
      reads this`freeHint, this`alignedHint
    {
      if alignment >= 0x20_0000 then alignedHint <= p else freeHint <= p && (lowMem <= p || totalPages <= lowMem)
    }

    lemma StartExact(p: nat, alignment: nat)
      ensures Ahead(p, alignment) <==> StartFor(alignment) <= p
    {
    }

    // r is the first run ahead, or if there is none the first one below the hint, or if there is none either None
    ghost predicate Picked(r: Option<nat>, count: nat, alignment: nat)
      requires Ok() && 0 < alignment / PAGE_4K
      reads this`freeHint, this`alignedHint, bitmap, summary
    {
      forall p {:trigger RunAt(Free(), p, count, alignment / PAGE_4K)} :: RunAt(Free(), p, count, alignment / PAGE_4K) ==>
        match r
        case None => !Ahead(p, alignment) && freeHint <= p
        case Some(v) => if Ahead(v, alignment) then Ahead(p, alignment) ==> v <= p else v < freeHint && !Ahead(p, alignment) && v <= p
    }

    lemma PassesPicked(r: Option<nat>, count: nat, alignment: nat)
      requires Ok() && freeHint <= totalPages && 0 < count && 0 < alignment / PAGE_4K
      requires Passes(Free(), StartFor(alignment), freeHint, totalPages, r, count, alignment / PAGE_4K)
      ensures Picked(r, count, alignment)
    {
      var unit := alignment / PAGE_4K;
      forall p | RunAt(Free(), p, count, unit)
        ensures match r
          case None => !Ahead(p, alignment) && freeHint <= p
          case Some(v) => if Ahead(v, alignment) then Ahead(p, alignment) ==> v <= p else v < freeHint && !Ahead(p, alignment) && v <= p
      {
        RunAtClear(Bm(), totalPages, p, count, unit);
        StartExact(p, alignment);
        if r.Some? { StartExact(r.value, alignment); }
      }
    }

    // without high memory a small alignment leaves nothing out
    lemma PickedAll(count: nat, alignment: nat)
      requires Ok() && 0 < alignment / PAGE_4K && alignment < 0x20_0000 && totalPages <= lowMem && Picked(None, count, alignment)
      ensures forall p {:trigger RunAt(Free(), p, count, alignment / PAGE_4K)} :: !RunAt(Free(), p, count, alignment / PAGE_4K)
    {
    }

    // alignment is in bytes; None stands for a null result
    method AllocAligned(count: nat, alignment: nat) returns (r: Option<nat>)
      requires Counted() && freeHint <= totalPages
      modifies bitmap, summary, this`usedPages, this`freeHint, this`alignedHint
      ensures Counted() && freeHint <= totalPages
      ensures count == 0 || alignment == 0 || alignment % PAGE_4K != 0 ==> r == None
      ensures r == None ==> Bm() == old(Bm())
      ensures r.Some? ==> 0 < alignment / PAGE_4K && Run(r, old(Bm()), count, alignment / PAGE_4K, totalPages)
      ensures r == None ==> freeHint == old(freeHint) && alignedHint == old(alignedHint)
      ensures 0 < count && 0 < alignment && alignment % PAGE_4K == 0 && Thorough(count, alignment / PAGE_4K) ==>
        0 < alignment / PAGE_4K && old(Picked(r, count, alignment))
    {
      if count == 0 || alignment == 0 || alignment % PAGE_4K != 0 {
        return None;
      }
      r := TwoPasses(count, alignment, alignment / PAGE_4K);
    }

    method TwoPasses(count: nat, alignment: nat, unit: nat) returns (r: Option<nat>)
      requires Counted() && freeHint <= totalPages && 0 < count && 0 < unit == alignment / PAGE_4K
      modifies bitmap, summary, this`usedPages, this`freeHint, this`alignedHint
      ensures Counted() && freeHint <= totalPages && Run(r, old(Bm()), count, unit, totalPages)
      ensures r == None ==> freeHint == old(freeHint) && alignedHint == old(alignedHint)
      ensures Thorough(count, unit) ==> old(Picked(r, count, alignment))
    {
      ghost var first, free, hint := StartFor(alignment), Free(), freeHint;
      forall o: Option<nat> | Passes(free, first, hint, totalPages, o, count, unit) ensures Picked(o, count, alignment) {
        PassesPicked(o, count, alignment);
      }
      r := TryAlloc(StartFor(alignment), totalPages, count, unit, alignment >= PAGE_2M);
      if r.Some? {
        assert Thorough(count, unit) ==> Passes(free, first, hint, totalPages, r, count, unit);
        return;
      }
      if freeHint > 0 {
        r := TryAlloc(0, freeHint, count, unit, alignment >= PAGE_2M);
      }
      assert Thorough(count, unit) ==> Passes(free, first, hint, totalPages, r, count, unit);
    }

    // r is the first run below the threshold, or None if there is none
    ghost predicate LowPicked(r: Option<nat>, count: nat, unit: nat)
      requires Ok() && 0 < unit
      reads bitmap, summary
    {
      forall p: nat {:trigger RunAt(Free(), p, count, unit)} :: RunAt(Free(), p, count, unit) ==>
        lowMem < p + count || (r.Some? && r.value <= p)
    }

    lemma FirstLow(r: Option<nat>, count: nat, unit: nat)
      requires Ok() && 0 < unit && 0 < count && lowMem <= totalPages
      requires NoRun(0, if r.Some? then r.value else lowMem, lowMem, count, unit)
      ensures LowPicked(r, count, unit)
    {
      NoRunNone(0, if r.Some? then r.value else lowMem, lowMem, count, unit);
    }

    // the first aligned run below the threshold
    method ClaimLow(count: nat, unit: nat) returns (r: Option<nat>)
      requires Counted() && lowMem <= totalPages && 0 < count && 0 < unit
      modifies bitmap, summary, this`usedPages
      ensures Counted() && Run(r, old(Bm()), count, unit, lowMem)
      ensures Thorough(count, unit) ==> old(LowPicked(r, count, unit))
    {
      r := Search(0, lowMem, lowMem, count, unit);
      if Thorough(count, unit) {
        FirstLow(r, count, unit);
      }
      if r.Some? {
        ClaimRun(r.value, count);
      }
    }

    method AllocDma(count: nat, alignment: nat) returns (r: Option<nat>)
      requires Counted() && lowMem <= totalPages
      modifies bitmap, summary, this`usedPages
      ensures Counted()
      ensures count == 0 || alignment == 0 || alignment % PAGE_4K != 0 ==> r == None
      ensures r == None ==> Bm() == old(Bm())
      ensures r.Some? ==> 0 < alignment / PAGE_4K && Run(r, old(Bm()), count, alignment / PAGE_4K, lowMem)
      ensures 0 < count && 0 < alignment && alignment % PAGE_4K == 0 && Thorough(count, alignment / PAGE_4K) ==>
        0 < alignment / PAGE_4K && old(LowPicked(r, count, alignment / PAGE_4K))
    {
      if count == 0 || alignment == 0 || alignment % PAGE_4K != 0 {
        return None;
      }
      r := ClaimLow(count, alignment / PAGE_4K);
    }

    // ---------- alloc_from_bitmap ----------

    // the first free page of the first word that summary word s lists as not full
    method FirstListed(s: nat) returns (page: nat)
      requires Ok() && s < summary.Length && !IsFull(summary[s])
      ensures WORD * (WORD * s) <= page < totalPages && !Bit(Bm(), page)
    {
      SummaryWord(Bm(), Sm(), totalPages, s);
      var block := FirstClear(summary[s]);
      var mapIdx := s * WORD + block;
      assert ListedAt(Bm(), summary[s], s, block);
      var bit := FirstClear(bitmap[mapIdx]);
      page := mapIdx * WORD + bit;
      BitAt(Bm(), mapIdx, bit);
    }

    // the first free page listed by summary words from .. to
    method ScanForOne(from: nat, to: nat) returns (r: Option<nat>)
      requires Ok() && to <= summary.Length
      ensures r.Some? ==> WORD * (WORD * from) <= r.value < totalPages && !Bit(Bm(), r.value)
      ensures r == None ==> FullBetween(Bm(), WORD * from, WORD * to)
    {
      var s := from;
      while s < to
        invariant from <= s && FullBetween(Bm(), WORD * from, WORD * s)
      {
        if !IsFull(summary[s]) {
          var page := FirstListed(s);
          return Some(page);
        }
        SummaryWord(Bm(), Sm(), totalPages, s);
        ListedFull(Bm(), summary[s], s, WORD);
        s := s + 1;
        FullExtend(Bm(), Bm(), WORD * from, WORD * (s - 1), WORD * s);
      }
      return None;
    }

    // the summary scans look at page p
    ghost predicate Scanned(p: nat, hint: nat)
    {
      hint > 0 || totalPages <= lowMem || WORD * (WORD * (lowMem / WORD / WORD)) <= p
    }

    // the two summary scans for a single page
    method FindSingle() returns (r: Option<nat>)
      requires Ok() && freeHint <= totalPages && lowMem <= totalPages
      ensures r.Some? ==> r.value in Free() && Scanned(r.value, freeHint)
      ensures r.Some? <==> exists p {:trigger p in Free()} :: p in Free() && Scanned(p, freeHint)
    {
      var startIdx := freeHint;
      if lowMem < totalPages && startIdx < lowMem {
        startIdx := lowMem;
      }
      var startSummary := startIdx / WORD / WORD;
      r := ScanForOne(startSummary, summary.Length);
      if r == None {
        NoFreeFrom(Bm(), totalPages, WORD * startSummary, WORD * summary.Length);
        if freeHint > 0 {
          r := ScanForOne(0, startSummary);
          if r == None {
            NoFreeFrom(Bm(), totalPages, 0, WORD * startSummary);
          }
        }
      }
    }

    method AllocSingle() returns (r: Option<nat>)
      requires Counted() && freeHint <= totalPages && lowMem <= totalPages
      modifies bitmap, summary, this`usedPages, this`freeHint
      ensures Counted() && freeHint <= totalPages
      ensures r.Some? ==> TookRun(old(Bm()), Bm(), totalPages, r.value, 1)
      ensures r == None ==> Bm() == old(Bm()) && freeHint == old(freeHint)
      ensures r == None ==> forall p {:trigger p in Free()} :: p in Free() ==> !Scanned(p, old(freeHint))
    {
      r := FindSingle();
      if r.Some? {
        var idx := r.value;
        ClaimRun(idx, 1);
        freeHint := idx + 1;
      }
    }

    method AllocFromBitmap(count: nat) returns (r: Option<nat>)
      requires Counted() && freeHint <= totalPages && lowMem <= totalPages
      modifies bitmap, summary, this`usedPages, this`freeHint, this`alignedHint
      ensures Counted() && freeHint <= totalPages
      ensures r.Some? ==> 0 < count && TookRun(old(Bm()), Bm(), totalPages, r.value, count)
      ensures r == None ==> Bm() == old(Bm())
      ensures r == None && count == 1 ==> forall p {:trigger p in Free()} :: p in Free() ==> !Scanned(p, old(freeHint))
      ensures 0 < count < WORD && (r == None || count > 1) ==> old(Picked(r, count, PAGE_4K))
    {
      if count == 1 {
        r := AllocSingle();
        if r.Some? {
          return;
        }
      }
      ghost var free := Free();
      assert Pow2(0) == 1;
      r := AllocAligned(count, PAGE_4K);
      assert r == None ==> Free() == free;
    }
  }

  // 65 pages, of which the last is given back in a run of 64: the bits past it are cleared as well
  method LastWordTorn() returns (m: Manager)
    ensures m.totalPages == 65 && !m.Ok()
  {
    m := new Manager(65, 0x10_0000);
    m.FreeToBitmap(64, 64);
  }

  // hint 0, high memory present, and page 1 the only free page: the two scans find nothing
  method OnlyLowFree() returns (m: Manager, r: Option<nat>)
    ensures m.Counted() && m.freeHint == 0 && m.lowMem == 0x10_0000 < m.totalPages && m.Free() == {1} && r == None
  {
    m := new Manager(0x10_0001, 0x10_0000);
    m.FreeToBitmap(1, 1);
    m.freeHint := 0;
    assert m.Free() == {1} by {
      assert RunBelow(1, 1, m.totalPages) == {1};
    }
    r := m.FindSingle();
  }
}
