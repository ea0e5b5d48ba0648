/** Which tables a mapping opens, for every address and every level. */
module TableGrowth {
  import opened Common
  import opened PageTables
  import opened TableLinks

  // ---------- paths that a change does not touch ----------

  // paths that do not meet table t at its level stay as they are
  lemma {:induction false} PathFrame(mem: Memory, mem': Memory, root: nat, level: Levels, up: Parents, t: nat, s: nat,
      l: nat, v: nat, k: nat)
    requires Sound(mem, root, level, up) && t in level && s in level && level[s] == l && 1 <= k <= l <= TOP
    requires level[t] <= l ==> Reach(mem, s, l, v, level[t]) != Some(t)
    requires forall f {:trigger f in level} :: f in level && f != t ==> f in mem' && mem'[f] == mem[f]
    ensures Reach(mem', s, l, v, k) == Reach(mem, s, l, v, k) && Need(mem', s, l, v, k) == Need(mem, s, l, v, k)
    decreases l
  {
    if k < l {
      var e := mem[s][Index(v, l)];
      assert s != t;
      if e.present && !IsLeaf(e, l) {
        PathFrame(mem, mem', root, level, up, t, e.frame, l - 1, v, k);
      }
    }
  }

  // a path goes on from any table on it
  lemma {:induction false} PathVia(mem: Memory, t: nat, l: nat, v: nat, k: nat, j: nat)
    requires 1 <= j <= k <= l <= TOP && Reach(mem, t, l, v, k).Some?
    ensures var r := Reach(mem, t, l, v, k).value;
      Reach(mem, t, l, v, j) == Reach(mem, r, k, v, j) && Need(mem, t, l, v, j) == Need(mem, r, k, v, j)
    decreases l
  {
    if k < l {
      PathVia(mem, mem[t][Index(v, l)].frame, l - 1, v, k, j);
    }
  }

  // what lies above a table that is reached is reached
  lemma {:induction false} ReachAbove(mem: Memory, t: nat, l: nat, v: nat, k: nat, j: nat)
    requires 1 <= k <= j <= l <= TOP && Reach(mem, t, l, v, k).Some?
    ensures Reach(mem, t, l, v, j).Some? && Need(mem, t, l, v, j) == Some(0)
    decreases j - k
  {
    if k < j {
      ReachUp(mem, t, l, v, k);
      ReachAbove(mem, t, l, v, k + 1, j);
    } else {
      NeedReach(mem, t, l, v, j);
    }
  }

  // mem' differs from mem in entry i of t at most, as far as the tables of level go
  ghost predicate OneEntry(mem: Memory, mem': Memory, level: Levels, t: nat, i: nat)
  {
    && (forall f {:trigger f in level} :: f in level && f != t ==> f in mem && f in mem' && mem'[f] == mem[f])
    && t in mem && t in mem' && |mem'[t]| == |mem[t]| && forall j {:trigger mem'[t][j]} :: 0 <= j < |mem[t]| && j != i ==> mem'[t][j] == mem[t][j]
  }

  // the path of w does not lead through entry i of t
  ghost predicate Avoids(mem: Memory, root: nat, t: nat, l: nat, i: nat, w: nat)
    requires 1 <= l <= TOP
  {
    Reach(mem, root, TOP, w, l) != Some(t) || Index(w, l) != i
  }

  lemma EntryKept(mem: Memory, mem': Memory, root: nat, level: Levels, up: Parents, t: nat, l: nat, i: nat, w: nat, k: nat)
    requires Sound(mem, root, level, up) && t in level && level[t] == l && OneEntry(mem, mem', level, t, i)
    requires Avoids(mem, root, t, l, i, w) && 1 <= k <= TOP
    ensures Reach(mem', root, TOP, w, k) == Reach(mem, root, TOP, w, k) && Need(mem', root, TOP, w, k) == Need(mem, root, TOP, w, k)
  {
    if Reach(mem, root, TOP, w, l) != Some(t) {
      PathFrame(mem, mem', root, level, up, t, root, TOP, w, k);
    } else {
      ReachFrame(mem, mem', root, level, up, t, root, TOP, w, l);
      if l <= k {
        ReachFrame(mem, mem', root, level, up, t, root, TOP, w, k);
        ReachAbove(mem, root, TOP, w, l, k);
        ReachAbove(mem', root, TOP, w, l, k);
      } else {
        PathVia(mem, root, TOP, w, l, k);
        PathVia(mem', root, TOP, w, l, k);
        BelowKept(mem, mem', root, level, up, t, l, i, w, k);
      }
    }
  }

  lemma BelowKept(mem: Memory, mem': Memory, root: nat, level: Levels, up: Parents, t: nat, l: nat, i: nat, w: nat, k: nat)
    requires Sound(mem, root, level, up) && t in level && level[t] == l && OneEntry(mem, mem', level, t, i)
    requires Index(w, l) != i && 1 <= k < l
    ensures Reach(mem', t, l, w, k) == Reach(mem, t, l, w, k) && Need(mem', t, l, w, k) == Need(mem, t, l, w, k)
  {
    var e := mem[t][Index(w, l)];
    assert EntryOk(e, t, Index(w, l), level, up);
    if e.present && !IsLeaf(e, l) {
      PathFrame(mem, mem', root, level, up, t, e.frame, l - 1, w, k);
    }
  }

  // ---------- tables that are opened ----------

  ghost predicate Reaches(mem: Memory, root: nat, w: nat, k: nat)
    requires 1 <= k <= TOP
  {
    Reach(mem, root, TOP, w, k).Some?
  }

  // no large page is in the way
  ghost predicate Unblocked(mem: Memory, root: nat, w: nat, k: nat)
    requires 1 <= k <= TOP
  {
    Need(mem, root, TOP, w, k).Some?
  }

  // of the tables that w needs at level k, mem' has those of mem and the one that it shares with va, if that is wanted
  ghost predicate OpenedAt(mem: Memory, mem': Memory, root: nat, va: nat, wanted: bool, w: nat, k: nat)
    requires 1 <= k <= TOP
  {
    && (Unblocked(mem', root, w, k) <==> Unblocked(mem, root, w, k))
    && (Reaches(mem', root, w, k) <==> Reaches(mem, root, w, k) || (wanted && w / Span(k + 1) == va / Span(k + 1)))
  }

  ghost predicate OpenedFrom(mem: Memory, mem': Memory, root: nat, va: nat, l: nat, w: nat, k: nat)
    requires 1 <= k <= TOP
  {
    OpenedAt(mem, mem', root, va, l <= k, w, k)
  }

  ghost predicate OpenedOnly(mem: Memory, mem': Memory, root: nat, va: nat, l: nat, w: nat, k: nat)
    requires 1 <= k <= TOP
  {
    OpenedAt(mem, mem', root, va, k == l, w, k)
  }

  // from mem to mem' the table of va at level l was opened, and no other
  ghost predicate OpenedOne(mem: Memory, mem': Memory, root: nat, va: nat, l: nat)
  {
    forall w: nat, k: nat {:trigger OpenedOnly(mem, mem', root, va, l, w, k)} ::
      w < Span(5) && 1 <= k <= TOP ==> OpenedOnly(mem, mem', root, va, l, w, k)
  }

  // from mem to mem' the tables of va from level l up were opened, and no others
  ghost predicate Opened(mem: Memory, mem': Memory, root: nat, va: nat, l: nat)
  {
    forall w: nat, k: nat {:trigger OpenedFrom(mem, mem', root, va, l, w, k)} ::
      w < Span(5) && 1 <= k <= TOP ==> OpenedFrom(mem, mem', root, va, l, w, k)
  }

  // the same but for the addresses of the page of va at level l
  ghost predicate OpenedBut(mem: Memory, mem': Memory, root: nat, va: nat, l: nat)
  {
    forall w: nat, k: nat {:trigger OpenedFrom(mem, mem', root, va, l, w, k)} ::
      w < Span(5) && 1 <= k <= TOP && w / Span(l) != va / Span(l) ==> OpenedFrom(mem, mem', root, va, l, w, k)
  }

  lemma OpenedNone(mem: Memory, root: nat, va: nat)
    requires va < Span(5)
    ensures Opened(mem, mem, root, va, TOP)
  {
    forall w: nat, k: nat | w < Span(5) && 1 <= k <= TOP ensures OpenedFrom(mem, mem, root, va, TOP, w, k) {
    }
  }

  lemma LinkOpens(mem: Memory, root: nat, level: Levels, up: Parents, va: nat, l: nat, t: nat, f: nat, table: Table, w: nat, k: nat)
    requires Sound(mem, root, level, up) && 1 < l <= TOP && va < Span(5) && w < Span(5) && f !in level && 1 <= k <= TOP
    requires |table| == ENTRIES && forall j {:trigger table[j]} :: 0 <= j < ENTRIES ==> table[j] == EMPTY
    requires Reach(mem, root, TOP, va, l) == Some(t) && t in level && level[t] == l
    requires !mem[t][Index(va, l)].present && !mem[t][Index(va, l)].huge
    ensures OpenedOnly(mem, mem[f := table][t := mem[t][Index(va, l) := Entry(true, false, f)]], root, va, l - 1, w, k)
  {
    var i := Index(va, l);
    var mem' := mem[f := table][t := mem[t][i := Entry(true, false, f)]];
    IndexSplit(w, l);
    IndexSplit(va, l);
    if w / Span(l) == va / Span(l) {
      SameReach(mem, root, TOP, w, va, l);
      ReachFrame(mem, mem', root, level, up, t, root, TOP, w, l);
      if l <= k {
        ReachAbove(mem, root, TOP, w, l, k);
        ReachAbove(mem', root, TOP, w, l, k);
      } else {
        PathVia(mem, root, TOP, w, l, k);
        PathVia(mem', root, TOP, w, l, k);
        assert mem'[f] == table;
      }
    } else {
      if Reach(mem, root, TOP, w, l) == Some(t) {
        SameTable(mem, root, level, up, w, va, l);
      }
      EntryKept(mem, mem', root, level, up, t, l, i, w, k);
    }
  }

  // one level further down: the table is there, or it is opened
  lemma OpenedDown(mem0: Memory, mem: Memory, mem': Memory, root: nat, va: nat, l: nat)
    requires 1 < l <= TOP && va < Span(5) && Opened(mem0, mem, root, va, l)
    requires if mem' == mem then Reaches(mem, root, va, l - 1)
      else OpenedOne(mem, mem', root, va, l - 1)
    ensures Opened(mem0, mem', root, va, l - 1)
  {
    var m := l - 1;
    forall w: nat, k: nat | w < Span(5) && 1 <= k <= TOP ensures OpenedFrom(mem0, mem', root, va, m, w, k) {
      assert OpenedFrom(mem0, mem, root, va, l, w, k);
      if mem' != mem {
        assert OpenedOnly(mem, mem', root, va, m, w, k);
      } else if k == l - 1 && w / Span(l) == va / Span(l) {
        SameReach(mem, root, TOP, w, va, l - 1);
      }
    }
  }

  // a leaf stored for va at level l leaves the tables of all other addresses
  lemma StoredBut(mem0: Memory, mem: Memory, mem': Memory, root: nat, level: Levels, up: Parents, va: nat, l: nat, t: nat, e: Entry)
    requires Sound(mem, root, level, up) && 1 <= l < TOP && va < Span(5) && Opened(mem0, mem, root, va, l)
    requires Reach(mem, root, TOP, va, l) == Some(t) && t in level && level[t] == l
    requires mem' == mem[t := mem[t][Index(va, l) := e]]
    ensures OpenedBut(mem0, mem', root, va, l)
  {
    forall w: nat, k: nat | w < Span(5) && 1 <= k <= TOP && w / Span(l) != va / Span(l)
      ensures OpenedFrom(mem0, mem', root, va, l, w, k)
    {
      assert OpenedFrom(mem0, mem, root, va, l, w, k);
      IndexSplit(w, l);
      IndexSplit(va, l);
      if Reach(mem, root, TOP, w, l) == Some(t) {
        SameTable(mem, root, level, up, w, va, l);
      }
      EntryKept(mem, mem', root, level, up, t, l, Index(va, l), w, k);
    }
  }

  // ---------- how many tables are missing ----------

  ghost function Missing(mem: Memory, t: nat, l: nat, v: nat, k: nat): nat
    requires 1 <= k <= l <= TOP
    decreases l - k
  {
    if k == l then 0 else (if Reach(mem, t, l, v, k).Some? then 0 else 1) + Missing(mem, t, l, v, k + 1)
  }

  lemma {:induction false} MissingDown(mem: Memory, t: nat, l: nat, v: nat, k: nat)
    requires 1 <= k < l <= TOP && t in mem && |mem[t]| == ENTRIES
    requires mem[t][Index(v, l)].present && !IsLeaf(mem[t][Index(v, l)], l)
    ensures Missing(mem, t, l, v, k) == Missing(mem, mem[t][Index(v, l)].frame, l - 1, v, k)
    decreases l - k
  {
    if k + 1 < l {
      MissingDown(mem, t, l, v, k + 1);
    }
  }

  lemma {:induction false} MissingAll(mem: Memory, t: nat, l: nat, v: nat, k: nat)
    requires 1 <= k < l <= TOP && t in mem && |mem[t]| == ENTRIES && !mem[t][Index(v, l)].present
    ensures Missing(mem, t, l, v, k) == l - k
    decreases l - k
  {
    if k + 1 < l {
      MissingAll(mem, t, l, v, k + 1);
    }
  }

  // what a mapping needs is the number of tables that are not there
  lemma {:induction false} NeedMissing(mem: Memory, t: nat, l: nat, v: nat, k: nat)
    requires 1 <= k <= l <= TOP && Need(mem, t, l, v, k).Some?
    ensures Need(mem, t, l, v, k).value == Missing(mem, t, l, v, k)
    decreases l
  {
    if k < l {
      var e := mem[t][Index(v, l)];
      if e.present {
        NeedMissing(mem, e.frame, l - 1, v, k);
        MissingDown(mem, t, l, v, k);
      } else {
        MissingAll(mem, t, l, v, k);
      }
    }
  }
}
