/** Mapping followed by unmapping, and two inputs on which frames go wrong. */
module PagingCases {
  import opened Common
  import opened PageFrames
  import opened PageTables
  import opened Paging
  import opened TableLinks

  // unmap hands back the run that the stored entry names
  method UnmapStored(m: PageMap, va: nat, l: nat, ghost e: Entry) returns (freed: Option<Run>)
    requires m.Valid() && va < Span(5) && 1 <= l < TOP && EntryAt(m.mem, m.root, va, l) == Some(e) && e.present && IsLeaf(e, l)
    modifies m
    ensures m.Valid() && freed == Some(Run(e.frame, PagesAt(l)))
    ensures OwnRun(old(m.mem), m.root, va, l, freed.value, Shift(e, l))
  {
    LeafHere(m.mem, m.root, TOP, va, l);
    ghost var t, path, top := Reach(m.mem, m.root, TOP, va, l).value, [], 0;
    freed, path, top := m.Unmap(va, true);
    assert path[l] == t;
  }

  // the cache bit of a large page is all that the stored frame has beyond the page's first one
  lemma StoredShift(phys: nat, pat: bool, size: PageSize)
    requires phys % Span(TargetLevel(size)) == 0
    ensures Shift(LeafEntry(phys, true, pat, size), TargetLevel(size)) == if pat && !size.Size4K? then 1 else 0
  {
    StoredFrame(phys, true, pat, size);
    LeafOf(phys, true, pat, size, 0);
  }

  lemma FreedVerdict(phys: nat, pat: bool, size: PageSize, freed: Option<Run>)
    requires phys % Span(TargetLevel(size)) == 0
    requires freed == Some(Run(LeafEntry(phys, true, pat, size).frame, PagesAt(TargetLevel(size))))
    ensures freed == Some(OwnFrames(phys, size)) <==> size.Size4K? || !pat
    ensures !size.Size4K? && pat ==> freed == Some(Run(OwnFrames(phys, size).first + 1, OwnFrames(phys, size).count))
  {
    StoredFrame(phys, true, pat, size);
  }

  // of a page that map made: the frames that its addresses are translated into, unless it is large and its cache type
  // uses the PAT bit; then those, one frame late
  method MapUnmap(m: PageMap, va: nat, phys: nat, pat: bool, size: PageSize)
    returns (ok: bool, freed: Option<Run>, ghost mapped: Memory)
    requires m.Valid() && va < Span(5)
    modifies m
    ensures m.Valid() && ok == old(m.Mappable(m.mem, |m.pool|, va, phys, size))
    ensures ok ==> Placed(old(m.mem), mapped, m.root, va, Span(TargetLevel(size)), phys % PHYS_SPAN, true)
    ensures ok ==> freed.Some?
    ensures ok ==> OwnRun(mapped, m.root, va, TargetLevel(size), freed.value, if pat && !size.Size4K? then 1 else 0)
    ensures ok ==> (freed == Some(OwnFrames(phys, size)) <==> size.Size4K? || !pat)
    ensures ok && !size.Size4K? && pat ==> freed == Some(Run(OwnFrames(phys, size).first + 1, OwnFrames(phys, size).count))
  {
    ok := m.Map(va, phys, true, pat, size);
    freed, mapped := None, m.mem;
    if ok {
      StoredShift(phys, pat, size);
      freed := UnmapStored(m, va, TargetLevel(size), LeafEntry(phys, true, pat, size));
      FreedVerdict(phys, pat, size, freed);
    }
  }

  // every entry of a new page map is missing
  lemma NeedAll(m: PageMap, va: nat, k: nat)
    requires m.Valid() && 1 <= k < TOP && m.root in m.mem && Cleared(m.mem[m.root])
    ensures Need(m.mem, m.root, TOP, va, k) == Some(TOP - k)
  {
    assert m.mem[m.root][Index(va, TOP)] == EMPTY;
  }

  // a write-combining 2M page at physical 2M: the run handed back is frames 513 to 1024, not 512 to 1023
  method WrongRun() returns (freed: Option<Run>)
    ensures freed == Some(Run(513, 512)) && OwnFrames(0x20_0000, Size2M) == Run(512, 512)
  {
    var m := new PageMap(1, false, {2, 3});
    NeedAll(m, 0, 2);
    assert |{2, 3}| == 2;
    var ok;
    ghost var mapped;
    ok, freed, mapped := MapUnmap(m, 0, 0x20_0000, true, Size2M);
  }

  // a 2M page over a 4K page loses the table between them
  method MapOver(m: PageMap, phys: nat) returns (ghost lost: nat)
    requires m.Valid() && EntryAt(m.mem, m.root, 0, 1).Some? && phys % Span(2) == 0
    modifies m
    ensures m.Valid() && lost in old(m.Frames()) && m.Frames() == old(m.Frames()) - {lost}
    ensures EntryAt(m.mem, m.root, 0, 2) == Some(LeafEntry(phys, true, false, Size2M))
  {
    lost := OneHangs(m);
    var _ := m.Map(0, phys, true, false, Size2M);
  }

  lemma FourFrames()
    ensures |{2, 3, 4}| == 3 && |{1, 2, 3, 4}| == 4 && {1} + {2, 3, 4} == {1, 2, 3, 4}
  {
  }

  lemma OneLess(frames: set<nat>, lost: nat)
    requires lost in frames
    ensures frames - {lost} < frames && |frames - {lost}| == |frames| - 1
  {
  }

  // a new page map with one 4K page at 0
  method OneSmallPage(root: nat, pool: set<nat>) returns (m: PageMap)
    requires root !in pool && |pool| == 3
    ensures fresh(m) && m.Valid() && EntryAt(m.mem, m.root, 0, 1).Some? && m.Frames() == {root} + pool
  {
    m := new PageMap(root, false, pool);
    NeedAll(m, 0, 1);
    NeedReach(m.mem, m.root, TOP, 0, 1);
    var _ := m.Map(0, 0, true, false, Size4K);
  }

  lemma TwoMegabytes()
    ensures 0x20_0000 % Span(2) == 0
  {
    assert Span(2) == 0x20_0000;
  }

  // that table is then neither in use nor free
  method Leak() returns (m: PageMap)
    ensures fresh(m) && m.Valid() && EntryAt(m.mem, m.root, 0, 2) == Some(LeafEntry(0x20_0000, true, false, Size2M))
    ensures m.Frames() < {1, 2, 3, 4} && |m.Frames()| == 3
  {
    FourFrames();
    m := OneSmallPage(1, {2, 3, 4});
    TwoMegabytes();
    ghost var lost := MapOver(m, 0x20_0000);
    OneLess({1, 2, 3, 4}, lost);
  }

  // with a 4K page mapped at 0, one table hangs below the entry for 2M
  lemma OneHangs(m: PageMap) returns (lost: nat)
    requires m.Valid() && EntryAt(m.mem, m.root, 0, 1).Some?
    ensures m.Hung(0, 2) == {lost} && lost in m.Frames() && Need(m.mem, m.root, TOP, 0, 2) == Some(0)
  {
    ReachUp(m.mem, m.root, TOP, 0, 1);
    NeedReach(m.mem, m.root, TOP, 0, 2);
    ReachLevel(m.mem, m.root, m.level, m.up, m.root, TOP, 0, 2);
    ReachNext(m.mem, m.root, TOP, 0, 2);
    var c := Reach(m.mem, m.root, TOP, 0, 2).value;
    lost := m.mem[c][Index(0, 2)].frame;
    BelowTwo(m.mem, m.root, m.level, m.up, c, Index(0, 2));
  }
}
