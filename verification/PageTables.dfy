/**
 Page-table memory as a value, and the hardware's walk over it: four levels of 512 entries,
 section 4.5 of the Intel 64 and IA-32 Architectures Software Developer's Manual, Volume 3A.
 Virtual addresses are named by their low 48 bits, which are all that a walk reads.
 */
module PageTables {
  import opened Common

  const ENTRIES := 512
  const TOP := 4

  // the bits that a walk reads: present, page size, and the frame number in bits 12 to 51
  datatype Entry = Entry(present: bool, huge: bool, frame: nat)

  const EMPTY := Entry(false, false, 0)

  type Table = seq<Entry>
  type Memory = map<nat, Table>

  // the bytes that an entry at level l covers
  function Span(l: nat): (s: nat)
    ensures 0 < s
  {
    match l
    case 0 => 8
    case 1 => 0x1000
    case 2 => 0x20_0000
    case 3 => 0x4000_0000
    case 4 => 0x80_0000_0000
    case _ => 0x1_0000_0000_0000
  }

  function Index(v: nat, l: nat): (i: nat)
    requires 1 <= l <= TOP
    ensures i < ENTRIES
  {
    v / Span(l) % ENTRIES
  }

  // two addresses share the entry at level l if they share the table and the index
  lemma IndexSplit(v: nat, l: nat)
    requires 1 <= l <= TOP
    ensures v / Span(l) == ENTRIES * (v / Span(l + 1)) + Index(v, l)
  {
    assert v / Span(l) / ENTRIES == v / Span(l + 1);
  }

  // where an entry that ends the walk at level l sends v
  function Leaf(e: Entry, l: nat, v: nat): nat
    requires 1 <= l <= TOP
  {
    e.frame * Span(1) / Span(l) * Span(l) + v % Span(l)
  }

  predicate IsLeaf(e: Entry, l: nat)
  {
    l == 1 || e.huge
  }

  // the hardware's translation of v from table t of level l on
  function Walk(mem: Memory, t: nat, l: nat, v: nat): Option<nat>
    requires l <= TOP
    decreases l, 1
  {
    if l == 0 || t !in mem || |mem[t]| != ENTRIES then None
    else Through(mem, mem[t][Index(v, l)], l, v)
  }

  // the translation of v once its entry at level l is known
  function Through(mem: Memory, e: Entry, l: nat, v: nat): Option<nat>
    requires 1 <= l <= TOP
    decreases l, 0
  {
    if !e.present then None
    else if IsLeaf(e, l) then Some(Leaf(e, l, v))
    else Walk(mem, e.frame, l - 1, v)
  }

  // the table of level k that the walk of v meets, if it gets there
  function Reach(mem: Memory, t: nat, l: nat, v: nat, k: nat): Option<nat>
    requires k <= l <= TOP
    decreases l
  {
    if l == k then Some(t)
    else if t !in mem || |mem[t]| != ENTRIES then None
    else
      var e := mem[t][Index(v, l)];
      if !e.present || IsLeaf(e, l) then None else Reach(mem, e.frame, l - 1, v, k)
  }

  // the same walk without the test of the present bit, which is the one that translate makes
  function Raw(mem: Memory, t: nat, l: nat, v: nat): Option<nat>
    requires l <= TOP
    decreases l
  {
    if l == 0 || t !in mem || |mem[t]| != ENTRIES then None
    else
      var e := mem[t][Index(v, l)];
      if IsLeaf(e, l) then Some(Leaf(e, l, v)) else Raw(mem, e.frame, l - 1, v)
  }

  // translate is right on every mapped address
  lemma {:induction false} RawAgrees(mem: Memory, t: nat, l: nat, v: nat)
    requires l <= TOP
    ensures Walk(mem, t, l, v).Some? ==> Raw(mem, t, l, v) == Walk(mem, t, l, v)
    decreases l
  {
    if l > 0 && t in mem && |mem[t]| == ENTRIES {
      var e := mem[t][Index(v, l)];
      if e.present && !IsLeaf(e, l) {
        RawAgrees(mem, e.frame, l - 1, v);
      }
    }
  }

  // where the walk of v meets an absent entry at level k, translate takes it for a page if it is one, and else for a table
  lemma RawUnmapped(mem: Memory, root: nat, v: nat, k: nat)
    requires 1 <= k <= TOP && Reach(mem, root, TOP, v, k).Some?
    requires var t := Reach(mem, root, TOP, v, k).value; t in mem && |mem[t]| == ENTRIES && !mem[t][Index(v, k)].present
    ensures Walk(mem, root, TOP, v) == None
    ensures var e := mem[Reach(mem, root, TOP, v, k).value][Index(v, k)];
      Raw(mem, root, TOP, v) == if IsLeaf(e, k) then Some(Leaf(e, k, v)) else Raw(mem, e.frame, k - 1, v)
  {
    WalkVia(mem, root, TOP, v, k);
    RawVia(mem, root, TOP, v, k);
  }

  lemma {:induction false} RawVia(mem: Memory, t: nat, l: nat, v: nat, k: nat)
    requires 1 <= k <= l <= TOP && Reach(mem, t, l, v, k).Some?
    ensures Raw(mem, t, l, v) == Raw(mem, Reach(mem, t, l, v, k).value, k, v)
    decreases l
  {
    if l > k {
      RawVia(mem, mem[t][Index(v, l)].frame, l - 1, v, k);
    }
  }

  // over sound tables that is what happens for every address that is not mapped
  lemma {:induction false} AbsentEntry(mem: Memory, root: nat, level: map<nat, nat>, up: map<nat, (nat, nat)>, t: nat, l: nat, v: nat)
    returns (k: nat)
    requires Sound(mem, root, level, up) && t in level && level[t] == l && l <= TOP && Walk(mem, t, l, v) == None
    ensures 1 <= k <= l && Reach(mem, t, l, v, k).Some?
    ensures var r := Reach(mem, t, l, v, k).value; r in mem && |mem[r]| == ENTRIES && !mem[r][Index(v, k)].present
    decreases l
  {
    var e := mem[t][Index(v, l)];
    if e.present {
      k := AbsentEntry(mem, root, level, up, e.frame, l - 1, v);
    } else {
      k := l;
    }
  }

  // how many tables are missing between t and level k, or None if a large page is in the way
  function Need(mem: Memory, t: nat, l: nat, v: nat, k: nat): Option<nat>
    requires k <= l <= TOP
    decreases l
  {
    if l == k then Some(0)
    else if t !in mem || |mem[t]| != ENTRIES then None
    else
      var e := mem[t][Index(v, l)];
      if e.huge then None
      else if !e.present then Some(l - k)
      else Need(mem, e.frame, l - 1, v, k)
  }

  // the level of the entry that maps v, or 0 if nothing does
  function LeafLevel(mem: Memory, t: nat, l: nat, v: nat): (k: nat)
    requires l <= TOP
    ensures k <= l
    decreases l
  {
    if l == 0 || t !in mem || |mem[t]| != ENTRIES then 0
    else
      var e := mem[t][Index(v, l)];
      if !e.present then 0 else if IsLeaf(e, l) then l else LeafLevel(mem, e.frame, l - 1, v)
  }

  // ---------- unshared tables ----------

  // level gives the level of every table, up its one parent entry
  ghost predicate EntryOk(e: Entry, t: nat, i: nat, level: map<nat, nat>, up: map<nat, (nat, nat)>)
    requires t in level
  {
    && (level[t] == TOP ==> !e.huge)
    && (1 < level[t] && e.present && !e.huge ==>
         e.frame in level && level[e.frame] == level[t] - 1 && e.frame in up && up[e.frame] == (t, i))
  }

  ghost predicate Sound(mem: Memory, root: nat, level: map<nat, nat>, up: map<nat, (nat, nat)>)
  {
    && root in level && level[root] == TOP
    && (forall t {:trigger t in level} :: t in level ==> 1 <= level[t] <= TOP && t in mem && |mem[t]| == ENTRIES)
    && (forall t, i {:trigger mem[t][i]} :: t in level && 0 <= i < ENTRIES ==> EntryOk(mem[t][i], t, i, level, up))
  }

  lemma {:induction false} ReachLevel(mem: Memory, root: nat, level: map<nat, nat>, up: map<nat, (nat, nat)>,
      t: nat, l: nat, v: nat, k: nat)
    requires Sound(mem, root, level, up) && t in level && level[t] == l && 1 <= k <= l <= TOP
    requires Reach(mem, t, l, v, k).Some?
    ensures var r := Reach(mem, t, l, v, k).value; r in level && level[r] == k
    decreases l
  {
    if k < l {
      var e := mem[t][Index(v, l)];
      ReachLevel(mem, root, level, up, e.frame, l - 1, v, k);
    }
  }

  // one more step down
  lemma {:induction false} ReachNext(mem: Memory, t: nat, l: nat, v: nat, k: nat)
    requires 1 < k <= l <= TOP && Reach(mem, t, l, v, k).Some?
    ensures var r := Reach(mem, t, l, v, k).value;
      Reach(mem, t, l, v, k - 1) ==
        if r !in mem || |mem[r]| != ENTRIES then None
        else var e := mem[r][Index(v, k)]; if !e.present || IsLeaf(e, k) then None else Some(e.frame)
    decreases l
  {
    if k < l {
      ReachNext(mem, mem[t][Index(v, l)].frame, l - 1, v, k);
    }
  }

  // the walk passes through the table that it reaches
  lemma {:induction false} WalkVia(mem: Memory, t: nat, l: nat, v: nat, k: nat)
    requires 1 <= k <= l <= TOP && Reach(mem, t, l, v, k).Some?
    ensures Walk(mem, t, l, v) == Walk(mem, Reach(mem, t, l, v, k).value, k, v)
    decreases l
  {
    if k < l {
      WalkVia(mem, mem[t][Index(v, l)].frame, l - 1, v, k);
    }
  }

  // an unshared table is reached by the addresses of one aligned range only
  lemma {:induction false} SameTable(mem: Memory, root: nat, level: map<nat, nat>, up: map<nat, (nat, nat)>,
      v: nat, w: nat, k: nat)
    requires Sound(mem, root, level, up) && 1 <= k <= TOP && v < Span(5) && w < Span(5)
    requires Reach(mem, root, TOP, v, k).Some? && Reach(mem, root, TOP, v, k) == Reach(mem, root, TOP, w, k)
    ensures v / Span(k + 1) == w / Span(k + 1)
    decreases TOP - k
  {
    if k < TOP {
      var i := ParentEntry(mem, root, level, up, v, k);
      var j := ParentEntry(mem, root, level, up, w, k);
      SameTable(mem, root, level, up, v, w, k + 1);
      IndexSplit(v, k + 1);
      IndexSplit(w, k + 1);
    }
  }

  // the table at level k hangs where its record says: below the table that v reaches one level up
  lemma ParentEntry(mem: Memory, root: nat, level: map<nat, nat>, up: map<nat, (nat, nat)>, v: nat, k: nat)
    returns (t: nat)
    requires Sound(mem, root, level, up) && 1 <= k < TOP && Reach(mem, root, TOP, v, k).Some?
    ensures t in up && Reach(mem, root, TOP, v, k) == Some(t)
    ensures Reach(mem, root, TOP, v, k + 1) == Some(up[t].0) && Index(v, k + 1) == up[t].1
  {
    t := Reach(mem, root, TOP, v, k).value;
    ReachUp(mem, root, TOP, v, k);
    ReachLevel(mem, root, level, up, root, TOP, v, k + 1);
    ReachNext(mem, root, TOP, v, k + 1);
  }

  lemma {:induction false} ReachUp(mem: Memory, t: nat, l: nat, v: nat, k: nat)
    requires 1 <= k < l <= TOP && Reach(mem, t, l, v, k).Some?
    ensures Reach(mem, t, l, v, k + 1).Some?
    decreases l
  {
    if k + 1 < l {
      ReachUp(mem, mem[t][Index(v, l)].frame, l - 1, v, k);
    }
  }

  // ---------- changing one entry ----------

  // walks that do not meet table t at its level stay as they are
  lemma {:induction false} WalkFrame(mem: Memory, mem': Memory, root: nat, level: map<nat, nat>, up: map<nat, (nat,
      nat)>, t: nat, s: nat, l: nat, v: nat)
    requires Sound(mem, root, level, up) && t in level && s in level && level[s] == l && l <= TOP
    requires level[t] <= l ==> Reach(mem, s, l, v, level[t]) != Some(t)
    requires forall f {:trigger f in level} :: f in level && f != t ==> f in mem' && mem'[f] == mem[f]
    ensures Walk(mem', s, l, v) == Walk(mem, s, l, v)
    decreases l
  {
    var e := mem[s][Index(v, l)];
    assert s != t;
    if e.present && !IsLeaf(e, l) {
      WalkFrame(mem, mem', root, level, up, t, e.frame, l - 1, v);
    }
  }

  // walks that reach t reach it by the same tables
  lemma {:induction false} ReachFrame(mem: Memory, mem': Memory, root: nat, level: map<nat, nat>, up: map<nat,
      (nat, nat)>, t: nat, s: nat, l: nat, v: nat, k: nat)
    requires Sound(mem, root, level, up) && t in level && s in level && level[s] == l && level[t] <= k <= l <= TOP
    requires forall f {:trigger f in level} :: f in level && f != t ==> f in mem' && mem'[f] == mem[f]
    ensures Reach(mem', s, l, v, k) == Reach(mem, s, l, v, k)
    decreases l
  {
    if k < l {
      var e := mem[s][Index(v, l)];
      if e.present && !IsLeaf(e, l) {
        ReachFrame(mem, mem', root, level, up, t, e.frame, l - 1, v, k);
      }
    }
  }

  // the other entries of t lead where they led
  lemma ThroughFrame(mem: Memory, mem': Memory, root: nat, level: map<nat, nat>, up: map<nat, (nat, nat)>, t: nat,
      i: nat, v: nat)
    requires Sound(mem, root, level, up) && t in level && i < ENTRIES
    requires forall f {:trigger f in level} :: f in level && f != t ==> f in mem' && mem'[f] == mem[f]
    ensures Through(mem', mem[t][i], level[t], v) == Through(mem, mem[t][i], level[t], v)
  {
    var e := mem[t][i];
    if e.present && !IsLeaf(e, level[t]) {
      WalkFrame(mem, mem', root, level, up, t, e.frame, level[t] - 1, v);
    }
  }

  // addresses that agree above level k take the same steps down to level k
  lemma {:induction false} SameReach(mem: Memory, t: nat, l: nat, v: nat, w: nat, k: nat)
    requires 1 <= k <= l <= TOP && v / Span(k + 1) == w / Span(k + 1)
    ensures Reach(mem, t, l, v, k) == Reach(mem, t, l, w, k)
    decreases l
  {
    if k < l {
      SameAbove(v, w, k + 1, l);
      if t in mem && |mem[t]| == ENTRIES {
        SameReach(mem, mem[t][Index(v, l)].frame, l - 1, v, w, k);
      }
    }
  }

  lemma {:induction false} SameAbove(v: nat, w: nat, k: nat, l: nat)
    requires 1 <= k <= l <= TOP && v / Span(k) == w / Span(k)
    ensures v / Span(l) == w / Span(l) && Index(v, l) == Index(w, l)
    decreases l - k
  {
    if k < l {
      IndexSplit(v, k);
      IndexSplit(w, k);
      SameAbove(v, w, k + 1, l);
    }
  }

  // rewriting the entry of va at level l changes the walks that meet it, and no others
  lemma Rewrite(mem: Memory, mem': Memory, root: nat, level: map<nat, nat>, up: map<nat, (nat, nat)>, va: nat,
      l: nat, e: Entry, v: nat)
    requires Sound(mem, root, level, up) && 1 <= l <= TOP && va < Span(5) && v < Span(5)
    requires Reach(mem, root, TOP, va, l).Some?
    requires var t := Reach(mem, root, TOP, va, l).value;
      t in level && mem' == mem[t := mem[t][Index(va, l) := e]]
    ensures Walk(mem', root, TOP, v) == if v / Span(l) == va / Span(l) then Through(mem', e, l, v) else Walk(mem, root, TOP, v)
  {
    var t := Reach(mem, root, TOP, va, l).value;
    ReachLevel(mem, root, level, up, root, TOP, va, l);
    IndexSplit(v, l);
    IndexSplit(va, l);
    if Reach(mem, root, TOP, v, l) == Some(t) {
      SameTable(mem, root, level, up, v, va, l);
      ReachFrame(mem, mem', root, level, up, t, root, TOP, v, l);
      WalkVia(mem', root, TOP, v, l);
      WalkVia(mem, root, TOP, v, l);
      if Index(v, l) != Index(va, l) {
        ThroughFrame(mem, mem', root, level, up, t, Index(v, l), v);
      }
    } else {
      if v / Span(l) == va / Span(l) {
        SameReach(mem, root, TOP, v, va, l);
      }
      WalkFrame(mem, mem', root, level, up, t, root, TOP, v);
    }
  }

  // ---------- what a change does to every translation ----------

  ghost predicate SameWalks(mem: Memory, mem': Memory, root: nat)
  {
    forall v: nat {:trigger Walk(mem', root, TOP, v)} :: v < Span(5) ==> Walk(mem', root, TOP, v) == Walk(mem, root, TOP, v)
  }

  lemma SameWalksOn(mem: Memory, mem': Memory, mem'': Memory, root: nat)
    requires SameWalks(mem, mem', root) && SameWalks(mem', mem'', root)
    ensures SameWalks(mem, mem'', root)
  {
    forall v: nat | v < Span(5) ensures Walk(mem'', root, TOP, v) == Walk(mem, root, TOP, v) {
      assert Walk(mem'', root, TOP, v) == Walk(mem', root, TOP, v);
    }
  }

  // the range of va at level l now ends at e, and nothing else has changed
  ghost predicate Remapped(mem: Memory, mem': Memory, root: nat, va: nat, l: nat, e: Entry)
    requires 1 <= l <= TOP
  {
    forall v: nat {:trigger Walk(mem', root, TOP, v)} :: v < Span(5) ==>
      Walk(mem', root, TOP, v) == Updated(mem, root, va, l, e, v)
  }

  ghost function Updated(mem: Memory, root: nat, va: nat, l: nat, e: Entry, v: nat): Option<nat>
    requires 1 <= l <= TOP
  {
    if v / Span(l) != va / Span(l) then Walk(mem, root, TOP, v)
    else if e.present then Some(Leaf(e, l, v)) else None
  }

  lemma RemappedStill(mem: Memory, mem': Memory, mem'': Memory, root: nat, va: nat, l: nat, e: Entry)
    requires 1 <= l <= TOP && Remapped(mem, mem', root, va, l, e) && SameWalks(mem', mem'', root)
    ensures Remapped(mem, mem'', root, va, l, e)
  {
    forall v: nat | v < Span(5) ensures Walk(mem'', root, TOP, v) == Updated(mem, root, va, l, e, v) {
      assert Walk(mem'', root, TOP, v) == Walk(mem', root, TOP, v);
    }
  }

  lemma WriteLeaf(mem: Memory, root: nat, level: map<nat, nat>, up: map<nat, (nat, nat)>, va: nat, l: nat, e: Entry)
    requires Sound(mem, root, level, up) && 1 <= l < TOP && va < Span(5) && (!e.present || IsLeaf(e, l))
    requires Reach(mem, root, TOP, va, l).Some?
    ensures var t := Reach(mem, root, TOP, va, l).value;
      && t in level && level[t] == l
      && var mem' := mem[t := mem[t][Index(va, l) := e]];
      Sound(mem', root, level, up) && Remapped(mem, mem', root, va, l, e)
  {
    var t := Reach(mem, root, TOP, va, l).value;
    ReachLevel(mem, root, level, up, root, TOP, va, l);
    var mem' := mem[t := mem[t][Index(va, l) := e]];
    forall f, i | f in level && 0 <= i < ENTRIES ensures EntryOk(mem'[f][i], f, i, level, up) {
      assert EntryOk(mem[f][i], f, i, level, up);
    }
    forall v: nat | v < Span(5)
      ensures Walk(mem', root, TOP, v) == Updated(mem, root, va, l, e, v)
    {
      Rewrite(mem, mem', root, level, up, va, l, e, v);
    }
  }

  ghost predicate IsEmpty(table: Table)
  {
    forall i {:trigger table[i]} :: 0 <= i < |table| ==> !table[i].present
  }

  // memory outside the tables does not matter
  lemma {:induction false} WalkOutside(mem: Memory, mem': Memory, root: nat, level: map<nat, nat>, up: map<nat,
      (nat, nat)>, s: nat, l: nat, v: nat)
    requires Sound(mem, root, level, up) && s in level && level[s] == l && l <= TOP
    requires forall f {:trigger f in level} :: f in level ==> f in mem' && mem'[f] == mem[f]
    ensures Walk(mem', s, l, v) == Walk(mem, s, l, v)
    ensures forall k {:trigger Reach(mem', s, l, v, k)} :: 1 <= k <= l ==> Reach(mem', s, l, v, k) == Reach(mem, s, l, v, k)
    decreases l
  {
    var e := mem[s][Index(v, l)];
    if e.present && !IsLeaf(e, l) {
      WalkOutside(mem, mem', root, level, up, e.frame, l - 1, v);
    }
  }

  // hanging a cleared frame under an entry that is not present
  lemma LinkSound(mem: Memory, root: nat, level: map<nat, nat>, up: map<nat, (nat, nat)>, t: nat, i: nat, f: nat,
      table: Table)
    requires Sound(mem, root, level, up) && t in level && 1 < level[t] && i < ENTRIES && f !in level
    requires |table| == ENTRIES && forall k {:trigger table[k]} :: 0 <= k < ENTRIES ==> table[k] == EMPTY
    ensures var mem' := mem[f := table][t := mem[t][i := Entry(true, false, f)]];
      Sound(mem', root, level[f := level[t] - 1], up[f := (t, i)])
  {
    var mem' := mem[f := table][t := mem[t][i := Entry(true, false, f)]];
    var level', up' := level[f := level[t] - 1], up[f := (t, i)];
    forall g, k | g in level' && 0 <= k < ENTRIES ensures EntryOk(mem'[g][k], g, k, level', up') {
      if g != f {
        assert EntryOk(mem[g][k], g, k, level, up);
      }
    }
  }

  lemma LinkWalk(mem: Memory, root: nat, level: map<nat, nat>, up: map<nat, (nat, nat)>, va: nat, l: nat, f: nat,
      table: Table, v: nat)
    requires Sound(mem, root, level, up) && 1 < l <= TOP && va < Span(5) && v < Span(5) && f !in level
    requires |table| == ENTRIES && IsEmpty(table)
    requires Reach(mem, root, TOP, va, l).Some?
    requires var t := Reach(mem, root, TOP, va, l).value; t in level && !mem[t][Index(va, l)].present
    ensures var t := Reach(mem, root, TOP, va, l).value;
      var mem' := mem[f := table][t := mem[t][Index(va, l) := Entry(true, false, f)]];
      Walk(mem', root, TOP, v) == Walk(mem, root, TOP, v)
  {
    var t := Reach(mem, root, TOP, va, l).value;
    var mem1 := mem[f := table];
    var e := Entry(true, false, f);
    var mem' := mem1[t := mem[t][Index(va, l) := e]];
    forall g, k | g in level && 0 <= k < ENTRIES ensures EntryOk(mem1[g][k], g, k, level, up) {
      assert EntryOk(mem[g][k], g, k, level, up);
    }
    WalkOutside(mem, mem1, root, level, up, root, TOP, va);
    WalkOutside(mem, mem1, root, level, up, root, TOP, v);
    Rewrite(mem1, mem', root, level, up, va, l, e, v);
    if v / Span(l) == va / Span(l) {
      NotPresent(mem, root, va, l, v);
      assert mem'[f] == table;
    }
  }

  // the way to the entry is as before
  lemma LinkReach(mem: Memory, root: nat, level: map<nat, nat>, up: map<nat, (nat, nat)>, va: nat, l: nat, f: nat,
      table: Table)
    requires Sound(mem, root, level, up) && 1 < l <= TOP && f !in level && Reach(mem, root, TOP, va, l).Some?
    requires var t := Reach(mem, root, TOP, va, l).value; t in level && level[t] == l
    ensures var t := Reach(mem, root, TOP, va, l).value;
      Reach(mem[f := table][t := mem[t][Index(va, l) := Entry(true, false, f)]], root, TOP, va, l) == Some(t)
  {
    var t := Reach(mem, root, TOP, va, l).value;
    var mem' := mem[f := table][t := mem[t][Index(va, l) := Entry(true, false, f)]];
    ReachFrame(mem, mem', root, level, up, t, root, TOP, va, l);
  }

  // an entry that is not present translates none of its addresses
  lemma NotPresent(mem: Memory, root: nat, va: nat, l: nat, v: nat)
    requires 1 <= l <= TOP && v / Span(l) == va / Span(l) && Reach(mem, root, TOP, va, l).Some?
    requires var t := Reach(mem, root, TOP, va, l).value; t in mem && |mem[t]| == ENTRIES && !mem[t][Index(va, l)].present
    ensures Walk(mem, root, TOP, v) == None
  {
    IndexSplit(v, l);
    IndexSplit(va, l);
    SameReach(mem, root, TOP, v, va, l);
    WalkVia(mem, root, TOP, v, l);
  }

  // taking an emptied table off its parent entry
  lemma UnlinkSound(mem: Memory, root: nat, level: map<nat, nat>, up: map<nat, (nat, nat)>, t: nat, i: nat)
    requires Sound(mem, root, level, up) && t in level && 1 < level[t] && i < ENTRIES
    requires mem[t][i].present && !mem[t][i].huge
    ensures Sound(mem[t := mem[t][i := EMPTY]], root, level - {mem[t][i].frame}, up)
  {
    var f := mem[t][i].frame;
    assert EntryOk(mem[t][i], t, i, level, up);
    var mem', level' := mem[t := mem[t][i := EMPTY]], level - {f};
    forall g, k | g in level' && 0 <= k < ENTRIES ensures EntryOk(mem'[g][k], g, k, level', up) {
      assert EntryOk(mem[g][k], g, k, level, up);
    }
  }

  lemma UnlinkWalk(mem: Memory, root: nat, level: map<nat, nat>, up: map<nat, (nat, nat)>, va: nat, l: nat, v: nat)
    requires Sound(mem, root, level, up) && 1 < l <= TOP && va < Span(5) && v < Span(5)
    requires Reach(mem, root, TOP, va, l).Some?
    requires var t := Reach(mem, root, TOP, va, l).value;
      && t in level && mem[t][Index(va, l)].present && !mem[t][Index(va, l)].huge
      && mem[t][Index(va, l)].frame in level && IsEmpty(mem[mem[t][Index(va, l)].frame])
    ensures var t := Reach(mem, root, TOP, va, l).value;
      Walk(mem[t := mem[t][Index(va, l) := EMPTY]], root, TOP, v) == Walk(mem, root, TOP, v)
  {
    var t := Reach(mem, root, TOP, va, l).value;
    var mem' := mem[t := mem[t][Index(va, l) := EMPTY]];
    Rewrite(mem, mem', root, level, up, va, l, EMPTY, v);
    if v / Span(l) == va / Span(l) {
      ReachNext(mem, root, TOP, va, l);
      ReachLevel(mem, root, level, up, root, TOP, va, l);
      IndexSplit(v, l);
      IndexSplit(va, l);
      SameReach(mem, root, TOP, v, va, l);
      WalkVia(mem, root, TOP, v, l);
    }
  }
}
