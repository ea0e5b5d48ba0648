/** Which tables a page map can still reach, and which ones a large page cuts off. */
module TableLinks {
  import opened BitMath
  import opened Common
  import opened PageTables

  type Levels = map<nat, nat>
  type Parents = map<nat, (nat, nat)>

  // t hangs from the entry that up names
  ghost predicate Hangs(mem: Memory, root: nat, level: Levels, up: Parents, t: nat)
    requires t in level
  {
    t != root ==>
      && t in up && up[t].0 in level && level[up[t].0] == level[t] + 1 && up[t].1 < ENTRIES
      && up[t].0 in mem && |mem[up[t].0]| == ENTRIES && mem[up[t].0][up[t].1] == Entry(true, false, t)
  }

  ghost predicate Rooted(mem: Memory, root: nat, level: Levels, up: Parents)
  {
    && root in level && level[root] == TOP
    && forall t {:trigger Hangs(mem, root, level, up, t)} :: t in level ==>
         level[t] <= TOP && (level[t] == TOP ==> t == root) && Hangs(mem, root, level, up, t)
  }

  lemma Compose(q: nat, i: nat, s: nat)
    requires i < ENTRIES && 0 < s
    ensures var w := (ENTRIES * q + i) * s; w / s == ENTRIES * q + i && w / (ENTRIES * s) == q
  {
    var w, n := (ENTRIES * q + i) * s, ENTRIES * s;
    DivUnique(w, s, ENTRIES * q + i, 0);
    Parts(q, i, s);
    DivUnique(w, n, q, i * s);
  }

  lemma Parts(q: nat, i: nat, s: nat)
    requires i < 512
    ensures (512 * q + i) * s == q * (512 * s) + i * s && (0 < s ==> i * s < 512 * s)
  {
    assert (512 * q) * s == q * (512 * s);
    assert 0 < s ==> (512 - i) * s > 0;
  }

  lemma SpanNext(l: nat)
    requires 1 <= l <= TOP
    ensures Span(l + 1) == ENTRIES * Span(l)
  {
  }

  lemma {:induction false} InSpace(v: nat, w: nat, l: nat)
    requires 1 <= l <= TOP && v < Span(5) && w / Span(l + 1) == v / Span(l + 1)
    ensures w < Span(5)
    decreases TOP - l
  {
    if l < TOP {
      IndexSplit(v, l + 1);
      IndexSplit(w, l + 1);
      InSpace(v, w, l + 1);
    }
  }

  // an address in the range of v above level l, with this index at level l
  lemma Address(v: nat, l: nat, i: nat) returns (w: nat)
    requires 1 <= l <= TOP && i < ENTRIES && v < Span(5)
    ensures w < Span(5) && w / Span(l + 1) == v / Span(l + 1) && Index(w, l) == i
  {
    var q := v / Span(l + 1);
    w := (ENTRIES * q + i) * Span(l);
    SpanNext(l);
    Compose(q, i, Span(l));
    InSpace(v, w, l);
  }

  // every table is reached by some address
  lemma {:induction false} Reached(mem: Memory, root: nat, level: Levels, up: Parents, t: nat) returns (v: nat)
    requires Sound(mem, root, level, up) && Rooted(mem, root, level, up) && t in level
    ensures v < Span(5) && 1 <= level[t] <= TOP && Reach(mem, root, TOP, v, level[t]) == Some(t)
    decreases TOP - level[t]
  {
    assert Hangs(mem, root, level, up, t);
    if t == root {
      v := 0;
    } else {
      var p, i := up[t].0, up[t].1;
      var w := Reached(mem, root, level, up, p);
      v := Address(w, level[p], i);
      SameReach(mem, root, TOP, v, w, level[p]);
      ReachNext(mem, root, TOP, v, level[p]);
    }
  }

  // ---------- what hangs below an entry ----------

  // going up at most k parents from t leads through entry i of table c
  ghost predicate Via(up: Parents, t: nat, c: nat, i: nat, k: nat)
    decreases k
  {
    k > 0 && t in up && (up[t] == (c, i) || Via(up, up[t].0, c, i, k - 1))
  }

  ghost predicate Under(level: Levels, up: Parents, t: nat, c: nat, i: nat)
    requires t in level && level[t] <= TOP
  {
    Via(up, t, c, i, TOP - level[t])
  }

  // the tables below entry i of table c
  ghost function Below(level: Levels, up: Parents, c: nat, i: nat): set<nat>
  {
    set t | t in level && level[t] <= TOP && Under(level, up, t, c, i)
  }

  lemma UnderUp(mem: Memory, root: nat, level: Levels, up: Parents, t: nat, c: nat, i: nat)
    requires Rooted(mem, root, level, up) && t in level && t != root
    ensures Hangs(mem, root, level, up, t) && level[t] < TOP
    ensures Under(level, up, t, c, i) <==> up[t] == (c, i) || Under(level, up, up[t].0, c, i)
  {
    assert Hangs(mem, root, level, up, t);
  }

  lemma {:induction false} UnderLower(mem: Memory, root: nat, level: Levels, up: Parents, t: nat, c: nat, i: nat)
    requires Rooted(mem, root, level, up) && t in level && level[t] <= TOP && c in level && Under(level, up, t, c, i)
    ensures level[t] < level[c] && t != root
    decreases TOP - level[t]
  {
    assert Hangs(mem, root, level, up, t);
    if t != root && up[t] != (c, i) {
      UnderLower(mem, root, level, up, up[t].0, c, i);
    }
  }

  // some table hangs from the entry itself
  lemma {:induction false} UnderDirect(mem: Memory, root: nat, level: Levels, up: Parents, t: nat, c: nat, i: nat) returns (d: nat)
    requires Rooted(mem, root, level, up) && t in level && level[t] <= TOP && Under(level, up, t, c, i)
    ensures d in level && d != root && Hangs(mem, root, level, up, d) && up[d] == (c, i)
    decreases TOP - level[t]
  {
    assert Hangs(mem, root, level, up, t);
    if up[t] == (c, i) {
      d := t;
    } else {
      d := UnderDirect(mem, root, level, up, up[t].0, c, i);
    }
  }

  // nothing hangs below an entry exactly when it is no present table entry
  lemma NoneBelow(mem: Memory, root: nat, level: Levels, up: Parents, c: nat, i: nat)
    requires Sound(mem, root, level, up) && Rooted(mem, root, level, up) && c in level && i < ENTRIES
    ensures Below(level, up, c, i) == {} <==> !(1 < level[c] && mem[c][i].present && !mem[c][i].huge)
  {
    var e := mem[c][i];
    assert EntryOk(e, c, i, level, up);
    if 1 < level[c] && e.present && !e.huge {
      assert Under(level, up, e.frame, c, i) && e.frame in Below(level, up, c, i);
    } else {
      forall t | t in Below(level, up, c, i) ensures false {
        var d := UnderDirect(mem, root, level, up, t, c, i);
      }
    }
  }

  // a leaf in place of an entry cuts off exactly what hung below it
  lemma StoreKeeps(mem: Memory, root: nat, level: Levels, up: Parents, c: nat, i: nat, e: Entry)
    requires Sound(mem, root, level, up) && Rooted(mem, root, level, up) && c in level && i < ENTRIES
    requires (!e.present || IsLeaf(e, level[c])) && (level[c] == TOP ==> !e.huge)
    ensures var mem', level' := mem[c := mem[c][i := e]], level - Below(level, up, c, i);
      Sound(mem', root, level', up) && Rooted(mem', root, level', up)
  {
    var mem', level' := mem[c := mem[c][i := e]], level - Below(level, up, c, i);
    forall t, k | t in level' && 0 <= k < ENTRIES ensures EntryOk(mem'[t][k], t, k, level', up) {
      assert EntryOk(mem[t][k], t, k, level, up);
      var f := mem[t][k].frame;
      if (t, k) != (c, i) && 1 < level[t] && mem[t][k].present && !mem[t][k].huge {
        assert f != root;
        UnderUp(mem, root, level, up, f, c, i);
      }
    }
    forall t | t in level'
      ensures level'[t] <= TOP && (level'[t] == TOP ==> t == root) && Hangs(mem', root, level', up, t)
    {
      assert Hangs(mem, root, level, up, t);
      if t != root {
        UnderUp(mem, root, level, up, t, c, i);
      }
    }
  }

  lemma LinkRooted(mem: Memory, root: nat, level: Levels, up: Parents, c: nat, i: nat, f: nat, table: Table)
    requires Sound(mem, root, level, up) && Rooted(mem, root, level, up) && c in level && 1 < level[c] && i < ENTRIES && f !in level
    requires !mem[c][i].present
    ensures var mem' := mem[f := table][c := mem[c][i := Entry(true, false, f)]];
      Rooted(mem', root, level[f := level[c] - 1], up[f := (c, i)])
  {
    var mem' := mem[f := table][c := mem[c][i := Entry(true, false, f)]];
    var level', up' := level[f := level[c] - 1], up[f := (c, i)];
    forall t | t in level'
      ensures level'[t] <= TOP && (level'[t] == TOP ==> t == root) && Hangs(mem', root, level', up', t)
    {
      if t != f { assert Hangs(mem, root, level, up, t); }
    }
  }

  lemma UnlinkRooted(mem: Memory, root: nat, level: Levels, up: Parents, c: nat, i: nat)
    requires Sound(mem, root, level, up) && Rooted(mem, root, level, up) && c in level && 1 < level[c] && i < ENTRIES
    requires mem[c][i].present && !mem[c][i].huge && mem[c][i].frame in level && IsEmpty(mem[mem[c][i].frame])
    ensures Rooted(mem[c := mem[c][i := EMPTY]], root, level - {mem[c][i].frame}, up)
  {
    var f := mem[c][i].frame;
    assert EntryOk(mem[c][i], c, i, level, up);
    var mem', level' := mem[c := mem[c][i := EMPTY]], level - {f};
    forall t | t in level'
      ensures level'[t] <= TOP && (level'[t] == TOP ==> t == root) && Hangs(mem', root, level', up, t)
    {
      assert Hangs(mem, root, level, up, t);
    }
  }

  // ---------- the entry of an address ----------

  function EntryAt(mem: Memory, root: nat, va: nat, l: nat): Option<Entry>
    requires 1 <= l <= TOP
  {
    var t := Reach(mem, root, TOP, va, l);
    if t.Some? && t.value in mem && |mem[t.value]| == ENTRIES then Some(mem[t.value][Index(va, l)]) else None
  }

  // the tables that a leaf at level l for va cuts off
  ghost function Hanging(mem: Memory, root: nat, level: Levels, up: Parents, va: nat, l: nat): set<nat>
    requires 1 <= l <= TOP
  {
    var t := Reach(mem, root, TOP, va, l);
    if t.Some? then Below(level, up, t.value, Index(va, l)) else {}
  }

  // some are cut off exactly when the entry is a present table entry above level 1
  lemma HangingExact(mem: Memory, root: nat, level: Levels, up: Parents, va: nat, l: nat)
    requires Sound(mem, root, level, up) && Rooted(mem, root, level, up) && 1 <= l <= TOP
    ensures Hanging(mem, root, level, up, va, l) != {} <==>
      var e := EntryAt(mem, root, va, l); 1 < l && e.Some? && e.value.present && !e.value.huge
  {
    var t := Reach(mem, root, TOP, va, l);
    if t.Some? {
      ReachLevel(mem, root, level, up, root, TOP, va, l);
      NoneBelow(mem, root, level, up, t.value, Index(va, l));
    }
  }

  // after the cut no address reaches those tables, and some address still reaches each of the others
  lemma CutOff(mem: Memory, root: nat, level: Levels, up: Parents, t: nat)
    requires Sound(mem, root, level, up) && Rooted(mem, root, level, up)
    ensures t in level <==> exists v: nat, k: nat :: v < Span(5) && 1 <= k <= TOP && Reach(mem, root, TOP, v, k) == Some(t)
  {
    if t in level {
      var v := Reached(mem, root, level, up, t);
    }
    forall v: nat, k: nat | v < Span(5) && 1 <= k <= TOP && Reach(mem, root, TOP, v, k) == Some(t) ensures t in level {
      ReachLevel(mem, root, level, up, root, TOP, v, k);
    }
  }

  // a missing table is what keeps an entry from being reached
  lemma {:induction false} NeedReach(mem: Memory, t: nat, l: nat, v: nat, k: nat)
    requires 1 <= k <= l <= TOP
    ensures Reach(mem, t, l, v, k).Some? <==> Need(mem, t, l, v, k) == Some(0)
    decreases l
  {
    if k < l && t in mem && |mem[t]| == ENTRIES {
      NeedReach(mem, mem[t][Index(v, l)].frame, l - 1, v, k);
    }
  }

  // below level 2 only the table of the entry itself hangs
  lemma BelowTwo(mem: Memory, root: nat, level: Levels, up: Parents, c: nat, i: nat)
    requires Sound(mem, root, level, up) && Rooted(mem, root, level, up) && c in level && level[c] == 2 && i < ENTRIES
    requires mem[c][i].present && !mem[c][i].huge
    ensures Below(level, up, c, i) == {mem[c][i].frame}
  {
    var f := mem[c][i].frame;
    assert EntryOk(mem[c][i], c, i, level, up);
    forall t | t in level && level[t] <= TOP ensures Under(level, up, t, c, i) <==> t == f {
      if Under(level, up, t, c, i) {
        UnderLower(mem, root, level, up, t, c, i);
        UnderUp(mem, root, level, up, t, c, i);
        if up[t] != (c, i) {
          UnderLower(mem, root, level, up, up[t].0, c, i);
        }
      }
    }
  }

  // a present leaf is where the walk of its address ends
  lemma {:induction false} LeafHere(mem: Memory, t: nat, l: nat, v: nat, k: nat)
    requires 1 <= k <= l <= TOP && Reach(mem, t, l, v, k).Some?
    requires var r := Reach(mem, t, l, v, k).value;
      r in mem && |mem[r]| == ENTRIES && mem[r][Index(v, k)].present && IsLeaf(mem[r][Index(v, k)], k)
    ensures LeafLevel(mem, t, l, v) == k
    decreases l
  {
    if k < l {
      LeafHere(mem, mem[t][Index(v, l)].frame, l - 1, v, k);
    }
  }
}
