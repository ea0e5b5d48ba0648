/** Where every physical page is, over any run of the moves that the allocator makes. */
module PageRuns {
  import opened Common
  import opened PageBits

  // free in the bitmap, in a slot of a CPU's stack, or handed out
  datatype Pages = Pages(free: set<nat>, stacks: seq<seq<nat>>, held: set<nat>)

  ghost predicate InStack(s: Pages, i: int, p: nat)
    requires 0 <= i < |s.stacks|
  {
    p in s.stacks[i]
  }

  ghost predicate Cached(s: Pages, p: nat)
  {
    exists i {:trigger InStack(s, i, p)} :: 0 <= i < |s.stacks| && InStack(s, i, p)
  }

  // each page below total is in exactly one place, and in a stack at most once
  ghost predicate Partition(s: Pages, total: nat, reserved: set<nat>)
  {
    && (forall p: nat {:trigger p in s.free} {:trigger p in s.held} {:trigger p in reserved} ::
         (p in s.free || p in s.held || p in reserved ==> p < total)
         && !(p in s.free && p in s.held) && !(p in s.free && p in reserved) && !(p in s.held && p in reserved))
    && (forall i: int, p: nat {:trigger InStack(s, i, p)} :: 0 <= i < |s.stacks| && InStack(s, i, p) ==>
         p < total && p !in s.free && p !in s.held && p !in reserved)
    && (forall i: int, j: int, p: nat {:trigger InStack(s, i, p), InStack(s, j, p)} ::
         0 <= i < |s.stacks| && 0 <= j < |s.stacks| && InStack(s, i, p) && InStack(s, j, p) ==> i == j)
    && (forall i {:trigger s.stacks[i]} :: 0 <= i < |s.stacks| ==> NoDup(s.stacks[i]))
    && (forall p: nat {:trigger Cached(s, p)} :: p < total && p !in s.free && p !in s.held && p !in reserved ==> Cached(s, p))
  }

  datatype Move =
    | Refill(core: nat, batch: seq<nat>)
    | Flush(core: nat, kept: nat)
    | Pop(core: nat)
    | Push(core: nat, page: nat)
    | Take(first: nat, count: nat)
    | Give(first: nat, count: nat)

  // what a move needs: callers give back only what they hold
  ghost predicate Enabled(s: Pages, m: Move)
  {
    match m
    case Refill(c, batch) => c < |s.stacks| && s.stacks[c] == [] && NoDup(batch) && Elems(batch) <= s.free
    case Flush(c, kept) => c < |s.stacks| && kept <= |s.stacks[c]|
    case Pop(c) => c < |s.stacks| && 0 < |s.stacks[c]|
    case Push(c, p) => c < |s.stacks| && p in s.held
    case Take(first, count) => RunSet(first, count) <= s.free
    case Give(first, count) => RunSet(first, count) <= s.held
  }

  ghost function Next(s: Pages, m: Move): Pages
    requires Enabled(s, m)
  {
    match m
    case Refill(c, batch) => s.(free := s.free - Elems(batch), stacks := s.stacks[c := batch])
    case Flush(c, kept) => s.(free := s.free + Elems(s.stacks[c][kept..]), stacks := s.stacks[c := s.stacks[c][..kept]])
    case Pop(c) =>
      var n := |s.stacks[c]| - 1;
      s.(held := s.held + {s.stacks[c][n]}, stacks := s.stacks[c := s.stacks[c][..n]])
    case Push(c, p) => s.(held := s.held - {p}, stacks := s.stacks[c := s.stacks[c] + [p]])
    case Take(first, count) => s.(free := s.free - RunSet(first, count), held := s.held + RunSet(first, count))
    case Give(first, count) => s.(free := s.free + RunSet(first, count), held := s.held - RunSet(first, count))
  }

  lemma CachedBy(s: Pages, i: int, p: nat)
    requires 0 <= i < |s.stacks| && p in s.stacks[i]
    ensures InStack(s, i, p) && Cached(s, p)
  {
    assert InStack(s, i, p);
  }

  // the other stacks keep their pages
  lemma StillCached(s: Pages, s': Pages, c: nat, p: nat)
    requires c < |s.stacks| == |s'.stacks| && Cached(s, p)
    requires forall i {:trigger s'.stacks[i]} :: 0 <= i < |s.stacks| && i != c ==> s'.stacks[i] == s.stacks[i]
    requires p in s.stacks[c] ==> p in s'.stacks[c]
    ensures Cached(s', p)
  {
    var i :| 0 <= i < |s.stacks| && InStack(s, i, p);
    CachedBy(s', i, p);
  }

  lemma RefillKeeps(s: Pages, c: nat, batch: seq<nat>, total: nat, reserved: set<nat>)
    requires Partition(s, total, reserved) && Enabled(s, Refill(c, batch))
    ensures Partition(Next(s, Refill(c, batch)), total, reserved)
  {
    var s' := Next(s, Refill(c, batch));
    forall i: int, p: nat | 0 <= i < |s'.stacks| && InStack(s', i, p)
      ensures p < total && p !in s'.free && p !in s'.held && p !in reserved
    {
      if i == c { assert p in Elems(batch); } else { assert InStack(s, i, p); }
    }
    forall i: int, j: int, p: nat | 0 <= i < |s'.stacks| && 0 <= j < |s'.stacks| && InStack(s', i, p) && InStack(s', j, p) ensures i == j {
      if i != c { assert InStack(s, i, p); } else { assert p in Elems(batch); }
      if j != c { assert InStack(s, j, p); } else { assert p in Elems(batch); }
    }
    forall p: nat | p < total && p !in s'.free && p !in s'.held && p !in reserved ensures Cached(s', p) {
      if p in s.free { CachedBy(s', c, p); } else { StillCached(s, s', c, p); }
    }
  }

  lemma FlushKeeps(s: Pages, c: nat, kept: nat, total: nat, reserved: set<nat>)
    requires Partition(s, total, reserved) && Enabled(s, Flush(c, kept))
    ensures Partition(Next(s, Flush(c, kept)), total, reserved)
  {
    var s' := Next(s, Flush(c, kept));
    var stack := s.stacks[c];
    forall i: int, p: nat | 0 <= i < |s'.stacks| && InStack(s', i, p)
      ensures InStack(s, i, p) && p !in s'.free
    {
      assert InStack(s, i, p);
      if p in Elems(stack[kept..]) {
        var k :| 0 <= k < |stack[kept..]| && stack[kept..][k] == p;
        assert stack[kept + k] == p && InStack(s, c, p);
      }
    }
    forall p: nat | p in Elems(stack[kept..]) ensures InStack(s, c, p) {
      assert p in stack;
    }
    forall p: nat | p < total && p !in s'.free && p !in s'.held && p !in reserved ensures Cached(s', p) {
      if p in stack {
        assert stack == stack[..kept] + stack[kept..];
      }
      StillCached(s, s', c, p);
    }
  }

  lemma PopKeeps(s: Pages, c: nat, total: nat, reserved: set<nat>)
    requires Partition(s, total, reserved) && Enabled(s, Pop(c))
    ensures Partition(Next(s, Pop(c)), total, reserved)
  {
    var s' := Next(s, Pop(c));
    var stack := s.stacks[c];
    var n := |stack| - 1;
    assert InStack(s, c, stack[n]);
    forall i: int, p: nat | 0 <= i < |s'.stacks| && InStack(s', i, p)
      ensures InStack(s, i, p) && p !in s'.held
    {
      assert InStack(s, i, p);
    }
    forall p: nat | p < total && p !in s'.free && p !in s'.held && p !in reserved ensures Cached(s', p) {
      assert stack == stack[..n] + [stack[n]];
      StillCached(s, s', c, p);
    }
  }

  lemma PushKeeps(s: Pages, c: nat, page: nat, total: nat, reserved: set<nat>)
    requires Partition(s, total, reserved) && Enabled(s, Push(c, page))
    ensures Partition(Next(s, Push(c, page)), total, reserved)
  {
    var s' := Next(s, Push(c, page));
    assert page !in s.stacks[c] by {
      if page in s.stacks[c] { assert InStack(s, c, page); }
    }
    forall i: int, p: nat | 0 <= i < |s'.stacks| && InStack(s', i, p)
      ensures (InStack(s, i, p) || (i == c && p == page)) && p !in s'.held
    {
      if !(i == c && p == page) { assert InStack(s, i, p); }
    }
    forall p: nat | p < total && p !in s'.free && p !in s'.held && p !in reserved ensures Cached(s', p) {
      if p == page { CachedBy(s', c, p); } else { StillCached(s, s', c, p); }
    }
  }

  lemma RunMoveKeeps(s: Pages, m: Move, total: nat, reserved: set<nat>)
    requires Partition(s, total, reserved) && Enabled(s, m) && (m.Take? || m.Give?)
    ensures Partition(Next(s, m), total, reserved)
  {
    var s' := Next(s, m);
    forall i: int, p: nat | 0 <= i < |s'.stacks| && InStack(s', i, p) ensures InStack(s, i, p) {
    }
    forall p: nat | p < total && p !in s'.free && p !in s'.held && p !in reserved ensures Cached(s', p) {
      assert Cached(s, p);
      var i :| 0 <= i < |s.stacks| && InStack(s, i, p);
      CachedBy(s', i, p);
    }
  }

  lemma MoveKeeps(s: Pages, m: Move, total: nat, reserved: set<nat>)
    requires Partition(s, total, reserved) && Enabled(s, m)
    ensures Partition(Next(s, m), total, reserved)
  {
    match m
    case Refill(c, batch) => RefillKeeps(s, c, batch, total, reserved);
    case Flush(c, kept) => FlushKeeps(s, c, kept, total, reserved);
    case Pop(c) => PopKeeps(s, c, total, reserved);
    case Push(c, p) => PushKeeps(s, c, p, total, reserved);
    case Take(first, count) => RunMoveKeeps(s, m, total, reserved);
    case Give(first, count) => RunMoveKeeps(s, m, total, reserved);
  }

  // ---------- runs ----------

  // states[i] and states[i + 1] are the pages before and after moves[i]
  ghost predicate IsRun(states: seq<Pages>, moves: seq<Move>)
  {
    && |states| == |moves| + 1
    && forall i {:trigger moves[i]} :: 0 <= i < |moves| ==> Enabled(states[i], moves[i]) && states[i + 1] == Next(states[i], moves[i])
  }

  // every page is in exactly one place in every state of every run
  lemma {:induction false} RunKeeps(states: seq<Pages>, moves: seq<Move>, total: nat, reserved: set<nat>, i: nat)
    requires IsRun(states, moves) && Partition(states[0], total, reserved) && i < |states|
    ensures Partition(states[i], total, reserved)
  {
    if i > 0 {
      RunKeeps(states, moves, total, reserved, i - 1);
      MoveKeeps(states[i - 1], moves[i - 1], total, reserved);
    }
  }

  // the pages that a move hands to a caller
  ghost function HandedOut(s: Pages, m: Move): set<nat>
    requires Enabled(s, m)
  {
    match m
    case Pop(c) => {s.stacks[c][|s.stacks[c]| - 1]}
    case Take(first, count) => RunSet(first, count)
    case _ => {}
  }

  // the pages that a caller gives back by a move
  ghost function GivenBack(m: Move): set<nat>
  {
    match m
    case Push(c, p) => {p}
    case Give(first, count) => RunSet(first, count)
    case _ => {}
  }

  lemma HeldChange(s: Pages, m: Move)
    requires Enabled(s, m)
    ensures Next(s, m).held == s.held + HandedOut(s, m) - GivenBack(m)
    ensures GivenBack(m) <= s.held
  {
  }

  // a page stays with its holder until it is given back, and no call hands it out in between
  lemma {:induction false} HeldStays(states: seq<Pages>, moves: seq<Move>, total: nat, reserved: set<nat>, i: nat,
      j: nat, p: nat)
    requires IsRun(states, moves) && Partition(states[0], total, reserved) && i <= j < |states| && p in states[i].held
    requires forall k {:trigger moves[k]} :: i <= k < j ==> p !in GivenBack(moves[k])
    ensures p in states[j].held
    ensures j < |moves| ==> p !in HandedOut(states[j], moves[j])
    decreases j
  {
    if i < j {
      HeldStays(states, moves, total, reserved, i, j - 1, p);
      HeldChange(states[j - 1], moves[j - 1]);
    }
    RunKeeps(states, moves, total, reserved, j);
    if j < |moves| && moves[j].Pop? {
      var c := moves[j].core;
      assert InStack(states[j], c, states[j].stacks[c][|states[j].stacks[c]| - 1]);
    }
  }

  // ---------- counting ----------

  ghost function SumLen(stacks: seq<seq<nat>>): nat
  {
    if stacks == [] then 0 else SumLen(stacks[..|stacks| - 1]) + |stacks[|stacks| - 1]|
  }

  ghost function Union(stacks: seq<seq<nat>>): set<nat>
  {
    if stacks == [] then {} else Union(stacks[..|stacks| - 1]) + Elems(stacks[|stacks| - 1])
  }

  lemma {:induction false} InUnion(stacks: seq<seq<nat>>, p: nat)
    ensures p in Union(stacks) <==> exists i :: 0 <= i < |stacks| && p in stacks[i]
  {
    if stacks != [] {
      var n := |stacks| - 1;
      InUnion(stacks[..n], p);
      if p in Union(stacks[..n]) {
        var i :| 0 <= i < n && p in stacks[..n][i];
        assert p in stacks[i];
      }
      if i :| 0 <= i < |stacks| && p in stacks[i] {
        if i < n { assert p in stacks[..n][i]; }
      }
    }
  }

  lemma {:induction false} UnionSize(stacks: seq<seq<nat>>)
    requires forall i {:trigger stacks[i]} :: 0 <= i < |stacks| ==> NoDup(stacks[i])
    requires forall i, j, p {:trigger p in stacks[i], p in stacks[j]} ::
      0 <= i < |stacks| && 0 <= j < |stacks| && p in stacks[i] && p in stacks[j] ==> i == j
    ensures |Union(stacks)| == SumLen(stacks)
  {
    if stacks != [] {
      var n := |stacks| - 1;
      UnionSize(stacks[..n]);
      ElemsCount(stacks[n]);
      forall p | p in Union(stacks[..n]) ensures p !in Elems(stacks[n]) {
        InUnion(stacks[..n], p);
        var i :| 0 <= i < n && p in stacks[..n][i];
        assert p in stacks[i];
      }
      assert Union(stacks[..n]) !! Elems(stacks[n]);
    }
  }

  // total pages = free + held + reserved + all that the stacks hold
  lemma PagesAddUp(s: Pages, total: nat, reserved: set<nat>)
    requires Partition(s, total, reserved)
    ensures total == |s.free| + |s.held| + |reserved| + SumLen(s.stacks)
  {
    forall i, j, p | 0 <= i < |s.stacks| && 0 <= j < |s.stacks| && p in s.stacks[i] && p in s.stacks[j] ensures i == j {
      assert InStack(s, i, p) && InStack(s, j, p);
    }
    UnionSize(s.stacks);
    AllSize(total);
    PartsAll(s, total, reserved);
    PartsSize(s.free, s.held, reserved, Union(s.stacks));
  }

  lemma PartsAll(s: Pages, total: nat, reserved: set<nat>)
    requires Partition(s, total, reserved)
    ensures RunSet(0, total) == s.free + s.held + reserved + Union(s.stacks)
    ensures s.free !! s.held && s.free + s.held !! reserved && s.free + s.held + reserved !! Union(s.stacks)
  {
    forall p: nat ensures p in Union(s.stacks) <==> Cached(s, p) {
      InUnion(s.stacks, p);
      if i :| 0 <= i < |s.stacks| && p in s.stacks[i] { CachedBy(s, i, p); }
    }
    forall p: nat ensures p in RunSet(0, total) <==> p in s.free + s.held + reserved + Union(s.stacks) {
      assert p < total <==> InRun(p, 0, total);
    }
  }

  lemma PartsSize(a: set<nat>, b: set<nat>, c: set<nat>, d: set<nat>)
    requires a !! b && a + b !! c && a + b + c !! d
    ensures |a + b + c + d| == |a| + |b| + |c| + |d|
  {
  }

  lemma {:induction false} AllSize(total: nat)
    ensures |RunSet(0, total)| == total
  {
    if total == 0 {
      assert RunSet(0, 0) == {};
    } else {
      AllSize(total - 1);
      assert RunSet(0, total) == RunSet(0, total - 1) + {total - 1};
    }
  }
}
