/**
 * `sortActions`: sort a list of actions by `compareActions` and then, in
 * place, the children of every group it reaches, recursively. Sorting only
 * permutes child lists, so each reached group ends up with its children sorted
 * exactly once over (re-sorting a sorted list changes nothing), and every
 * other action is left alone.
 */
module ActionSorting {
  import opened Types
  import opened Actions
  import opened Sorting

  /** `target` is `r` itself or lies under the group `r`. */
  predicate Hit(nodes: seq<Action>, r: ActionRef, target: ActionRef)
    requires WellFormed(nodes) && r < |nodes|
  {
    r == target || (nodes[r].kind == Group && target in Preorder(nodes, nodes[r].actions))
  }

  /** `target` is one of `refs` or lies under one of them. */
  predicate HitAny(nodes: seq<Action>, refs: seq<ActionRef>, target: ActionRef)
    requires WellFormed(nodes) && ValidRefs(nodes, refs)
  {
    exists k :: 0 <= k < |refs| && Hit(nodes, refs[k], target)
  }

  /** What the walk reaches: each reference and what lies under it. */
  lemma {:induction false} PreorderMembers(nodes: seq<Action>, refs: seq<ActionRef>, target: ActionRef)
    requires WellFormed(nodes) && ValidRefs(nodes, refs)
    ensures target in Preorder(nodes, refs) <==> HitAny(nodes, refs, target)
    decreases |refs|
  {
    if refs != [] {
      var n := |refs| - 1;
      var init := refs[..n];
      PreorderMembers(nodes, init, target);
      PreorderLast(nodes, refs, target);
      ExistsLast(nodes, refs, target);
    }
  }

  lemma PreorderLast(nodes: seq<Action>, refs: seq<ActionRef>, target: ActionRef)
    requires WellFormed(nodes) && ValidRefs(nodes, refs) && refs != []
    ensures target in Preorder(nodes, refs)
      <==> target in Preorder(nodes, refs[..|refs| - 1]) || Hit(nodes, refs[|refs| - 1], target)
  {
  }

  lemma ExistsLast(nodes: seq<Action>, refs: seq<ActionRef>, target: ActionRef)
    requires WellFormed(nodes) && ValidRefs(nodes, refs) && refs != []
    ensures HitAny(nodes, refs, target)
      <==> HitAny(nodes, refs[..|refs| - 1], target) || Hit(nodes, refs[|refs| - 1], target)
  {
    var init := refs[..|refs| - 1];
    if exists k :: 0 <= k < |refs| && Hit(nodes, refs[k], target) {
      var k :| 0 <= k < |refs| && Hit(nodes, refs[k], target);
      if k < |init| {
        assert init[k] == refs[k];
      }
    }
    if exists k :: 0 <= k < |init| && Hit(nodes, init[k], target) {
      var k :| 0 <= k < |init| && Hit(nodes, init[k], target);
      assert refs[k] == init[k];
    }
  }

  /** The walk reaches the same actions whatever the order of the references. */
  lemma PreorderPermute(nodes: seq<Action>, a: seq<ActionRef>, b: seq<ActionRef>, target: ActionRef)
    requires WellFormed(nodes) && ValidRefs(nodes, a) && multiset(a) == multiset(b)
    ensures ValidRefs(nodes, b)
    ensures target in Preorder(nodes, a) <==> target in Preorder(nodes, b)
  {
    PermutationValidRefs(nodes, a, b);
    PreorderMembers(nodes, a, target);
    PreorderMembers(nodes, b, target);
    if exists k :: 0 <= k < |a| && Hit(nodes, a[k], target) {
      var k :| 0 <= k < |a| && Hit(nodes, a[k], target);
      assert a[k] in multiset(b);
      var j :| 0 <= j < |b| && b[j] == a[k];
    }
    if exists k :: 0 <= k < |b| && Hit(nodes, b[k], target) {
      var k :| 0 <= k < |b| && Hit(nodes, b[k], target);
      assert b[k] in multiset(a);
      var j :| 0 <= j < |a| && a[j] == b[k];
    }
  }

  /** Two arenas whose actions differ at most in the order of their children. */
  predicate Reordered(n0: seq<Action>, n1: seq<Action>) {
    |n1| == |n0|
    && forall i :: 0 <= i < |n0| ==>
      n1[i] == n0[i].(actions := n1[i].actions) && multiset(n1[i].actions) == multiset(n0[i].actions)
  }

  lemma ReorderedWellFormed(n0: seq<Action>, n1: seq<Action>)
    requires WellFormed(n0) && Reordered(n0, n1)
    ensures WellFormed(n1)
  {
    forall i, k | 0 <= i < |n1| && 0 <= k < |n1[i].actions| ensures i < n1[i].actions[k] < |n1| {
      var c := n1[i].actions[k];
      assert c in multiset(n0[i].actions);
      var j :| 0 <= j < |n0[i].actions| && n0[i].actions[j] == c;
    }
  }

  /** Every reference in the walk lies at or after the smallest starting reference. */
  lemma {:induction false} PreorderAbove(nodes: seq<Action>, refs: seq<ActionRef>, target: ActionRef)
    requires WellFormed(nodes) && ValidRefs(nodes, refs) && target in Preorder(nodes, refs)
    ensures MinRef(|nodes|, refs) <= target
    decreases |nodes| - MinRef(|nodes|, refs), |refs|
  {
    PreorderMembers(nodes, refs, target);
    var k :| 0 <= k < |refs| && Hit(nodes, refs[k], target);
    var r := refs[k];
    if r != target {
      var children := nodes[r].actions;
      assert MinRef(|nodes|, children) > MinRef(|nodes|, refs);
      PreorderAbove(nodes, children, target);
    }
  }

  /** Reordering children does not change what a walk reaches. */
  lemma {:induction false} ReachReordered(n0: seq<Action>, n1: seq<Action>, refs: seq<ActionRef>, target: ActionRef)
    requires WellFormed(n0) && Reordered(n0, n1) && ValidRefs(n0, refs)
    ensures WellFormed(n1)
    ensures target in Preorder(n0, refs) <==> target in Preorder(n1, refs)
    decreases |n0| - MinRef(|n0|, refs), |refs|
  {
    ReorderedWellFormed(n0, n1);
    PreorderMembers(n0, refs, target);
    PreorderMembers(n1, refs, target);
    forall k | 0 <= k < |refs| ensures Hit(n0, refs[k], target) <==> Hit(n1, refs[k], target) {
      var r := refs[k];
      if n0[r].kind == Group {
        var c0, c1 := n0[r].actions, n1[r].actions;
        assert MinRef(|n0|, c0) > MinRef(|n0|, refs);
        ReachReordered(n0, n1, c0, target);
        PreorderPermute(n1, c0, c1, target);
      }
    }
  }

  /** The groups a walk from `refs` reaches. */
  function Reach(nodes: seq<Action>, refs: seq<ActionRef>): set<ActionRef>
    requires WellFormed(nodes) && ValidRefs(nodes, refs)
  {
    var walk := Preorder(nodes, refs);
    set k | 0 <= k < |walk| && nodes[walk[k]].kind == Group :: walk[k]
  }

  lemma ReachMembers(nodes: seq<Action>, refs: seq<ActionRef>, x: ActionRef)
    requires WellFormed(nodes) && ValidRefs(nodes, refs)
    ensures x in Reach(nodes, refs) <==> x in Preorder(nodes, refs) && nodes[x].kind == Group
  {
    var walk := Preorder(nodes, refs);
    if x in walk {
      var k :| 0 <= k < |walk| && walk[k] == x;
    }
  }

  /** The arena with the children of every group in `groups` sorted by `compareActions`. */
  function SortAt(n0: seq<Action>, groups: set<ActionRef>): (r: seq<Action>)
    ensures |r| == |n0|
  {
    seq(|n0|, i requires 0 <= i < |n0| =>
      if i in groups then n0[i].(actions := SortBy(n0[i].actions, RefCompare(n0))) else n0[i])
  }

  lemma SortAtReordered(n0: seq<Action>, groups: set<ActionRef>)
    ensures Reordered(n0, SortAt(n0, groups))
  {
  }

  lemma ReorderedCompare(n0: seq<Action>, n1: seq<Action>)
    requires Reordered(n0, n1)
    ensures forall x, y :: RefCompare(n1)(x, y) == RefCompare(n0)(x, y)
  {
    forall x, y ensures RefCompare(n1)(x, y) == RefCompare(n0)(x, y) {
      assert At(n1, x).start == At(n0, x).start && At(n1, x).end == At(n0, x).end;
      assert At(n1, x).conflictPosition == At(n0, x).conflictPosition;
      assert At(n1, y).start == At(n0, y).start && At(n1, y).end == At(n0, y).end;
      assert At(n1, y).conflictPosition == At(n0, y).conflictPosition;
    }
  }

  /**
   * What `SortAt` promises: each chosen group's children are a permutation
   * of the old ones, sorted by `compareActions` on the new arena; everything
   * else is as it was.
   */
  lemma SortAtSorts(n0: seq<Action>, groups: set<ActionRef>, i: nat)
    requires i < |n0|
    ensures var n := SortAt(n0, groups);
      n[i].kind == n0[i].kind && n[i].start == n0[i].start && n[i].end == n0[i].end
      && n[i].newCode == n0[i].newCode && n[i].conflictPosition == n0[i].conflictPosition
      && multiset(n[i].actions) == multiset(n0[i].actions)
      && (i in groups ==> SortedBy(n[i].actions, RefCompare(n)))
      && (i !in groups ==> n[i] == n0[i])
  {
    var n := SortAt(n0, groups);
    if i in groups {
      RefCompareConsistent(n0);
      SortBySorted(n0[i].actions, RefCompare(n0));
      SortAtReordered(n0, groups);
      ReorderedCompare(n0, n);
    }
  }

  /** Sorting groups that are already sorted changes nothing more. */
  lemma SortAtCompose(n0: seq<Action>, a: set<ActionRef>, b: set<ActionRef>)
    ensures SortAt(SortAt(n0, a), b) == SortAt(n0, a + b)
  {
    var n1 := SortAt(n0, a);
    SortAtReordered(n0, a);
    ReorderedCompare(n0, n1);
    RefCompareConsistent(n0);
    var lhs, rhs := SortAt(n1, b), SortAt(n0, a + b);
    forall i | 0 <= i < |n0| ensures lhs[i] == rhs[i] {
      if i in b {
        var c := n1[i].actions;
        SortByAgree(c, RefCompare(n1), RefCompare(n0));
        if i in a {
          SortByIdempotent(n0[i].actions, RefCompare(n0));
        }
      }
    }
  }

  lemma ReachStep(nodes: seq<Action>, refs: seq<ActionRef>, i: nat)
    requires WellFormed(nodes) && ValidRefs(nodes, refs) && i < |refs|
    ensures Reach(nodes, refs[..i + 1]) == Reach(nodes, refs[..i]) + Reach(nodes, [refs[i]])
  {
    PreorderStep(nodes, refs, i);
    PreorderSingle(nodes, refs[i]);
    forall x ensures x in Reach(nodes, refs[..i + 1]) <==> x in Reach(nodes, refs[..i]) + Reach(nodes, [refs[i]]) {
      ReachMembers(nodes, refs[..i + 1], x);
      ReachMembers(nodes, refs[..i], x);
      ReachMembers(nodes, [refs[i]], x);
    }
  }

  lemma ReachPermute(nodes: seq<Action>, a: seq<ActionRef>, b: seq<ActionRef>)
    requires WellFormed(nodes) && ValidRefs(nodes, a) && multiset(a) == multiset(b)
    ensures ValidRefs(nodes, b) && Reach(nodes, a) == Reach(nodes, b)
  {
    PermutationValidRefs(nodes, a, b);
    forall x ensures x in Reach(nodes, a) <==> x in Reach(nodes, b) {
      PreorderPermute(nodes, a, b, x);
      ReachMembers(nodes, a, x);
      ReachMembers(nodes, b, x);
    }
  }

  lemma ReachOfReordered(n0: seq<Action>, n1: seq<Action>, refs: seq<ActionRef>)
    requires WellFormed(n0) && Reordered(n0, n1) && ValidRefs(n0, refs)
    ensures WellFormed(n1) && Reach(n1, refs) == Reach(n0, refs)
  {
    ReorderedWellFormed(n0, n1);
    forall x ensures x in Reach(n1, refs) <==> x in Reach(n0, refs) {
      ReachReordered(n0, n1, refs, x);
      ReachMembers(n0, refs, x);
      ReachMembers(n1, refs, x);
    }
  }

  /** A group reaches itself and what its children reach, which lies after it. */
  lemma ReachGroup(nodes: seq<Action>, g: ActionRef)
    requires WellFormed(nodes) && g < |nodes| && nodes[g].kind == Group
    ensures Reach(nodes, [g]) == {g} + Reach(nodes, nodes[g].actions)
    ensures g !in Reach(nodes, nodes[g].actions)
  {
    var children := nodes[g].actions;
    PreorderSingle(nodes, g);
    forall x ensures x in Reach(nodes, [g]) <==> x in {g} + Reach(nodes, children) {
      ReachMembers(nodes, [g], x);
      ReachMembers(nodes, children, x);
    }
    if g in Preorder(nodes, children) {
      PreorderAbove(nodes, children, g);
    }
    ReachMembers(nodes, children, g);
  }

  lemma ReachLeaf(nodes: seq<Action>, x: ActionRef)
    requires WellFormed(nodes) && x < |nodes| && nodes[x].kind != Group
    ensures Reach(nodes, [x]) == {}
  {
    PreorderSingle(nodes, x);
    forall y ensures y !in Reach(nodes, [x]) {
      ReachMembers(nodes, [x], y);
    }
  }

  /**
   * `sortActions(actions)`: the list sorted by `compareActions`, and the
   * children of every group it reaches sorted in place, recursively.
   */
  method SortActions(h: ActionHeap, actions: seq<ActionRef>) returns (sorted: seq<ActionRef>)
    requires h.Valid() && ValidRefs(h.nodes, actions)
    modifies h
    ensures h.Valid()
    ensures sorted == SortBy(actions, RefCompare(old(h.nodes)))
    ensures h.nodes == SortAt(old(h.nodes), Reach(old(h.nodes), actions))
    decreases |h.nodes| - MinRef(|h.nodes|, actions), 1
  {
    ghost var n0 := h.nodes;
    sorted := SortBy(actions, RefCompare(h.nodes));
    ReachPermute(n0, actions, sorted);
    assert h.nodes == SortAt(n0, Reach(n0, sorted[..0])) by {
      assert Preorder(n0, sorted[..0]) == [];
      assert Reach(n0, sorted[..0]) == {};
    }
    for i := 0 to |sorted|
      invariant h.Valid() && |h.nodes| == |n0|
      invariant h.nodes == SortAt(n0, Reach(n0, sorted[..i]))
    {
      var x := sorted[i];
      assert x in multiset(actions);
      ReachStep(n0, sorted, i);
      if h.nodes[x].kind == Group {
        ghost var cur := h.nodes;
        SortAtReordered(n0, Reach(n0, sorted[..i]));
        ReachOfReordered(n0, cur, [x]);
        SortChildren(h, x);
        SortAtCompose(n0, Reach(n0, sorted[..i]), Reach(n0, [x]));
      } else {
        ReachLeaf(n0, x);
      }
    }
    assert sorted[..|sorted|] == sorted;
  }

  /** The callback of `sortActions`'s `forEach` for a group: sort its children in place. */
  method SortChildren(h: ActionHeap, g: ActionRef)
    requires h.Valid() && g < |h.nodes| && h.nodes[g].kind == Group
    modifies h
    ensures h.Valid()
    ensures h.nodes == SortAt(old(h.nodes), Reach(old(h.nodes), [g]))
    decreases |h.nodes| - g, 0
  {
    ghost var n0 := h.nodes;
    var children := h.nodes[g].actions;
    assert MinRef(|h.nodes|, children) > g;
    var s := SortActions(h, children);
    ReachGroup(n0, g);
    SortOneMore(n0, Reach(n0, children), g);
    h.nodes := h.nodes[g := h.nodes[g].(actions := s)];
    assert Reach(n0, children) + {g} == Reach(n0, [g]);
    SortAtReordered(n0, Reach(n0, [g]));
    ReorderedWellFormed(n0, h.nodes);
  }

  /** Writing one more group's sorted children into the arena. */
  lemma SortOneMore(n0: seq<Action>, groups: set<ActionRef>, g: ActionRef)
    requires g < |n0| && g !in groups
    ensures var m := SortAt(n0, groups);
      m[g := m[g].(actions := SortBy(n0[g].actions, RefCompare(n0)))] == SortAt(n0, groups + {g})
  {
  }
}
