/**
 * The edit engine: flattening, ordering and applying the actions of a test
 * result to a file's source, and rebasing the remaining actions after one of
 * them has been applied.
 */
module Actions {
  import opened Wrappers
  import opened Types
  import opened JsText
  import opened Seqs
  import opened Sorting

  // ---------------------------------------------------------------------------
  // Traversals of the action graph
  // ---------------------------------------------------------------------------

  /** The smallest reference in `refs`, or `n` when there is none; it bounds how deep a traversal can go. */
  function MinRef(n: nat, refs: seq<ActionRef>): (m: nat)
    requires forall k :: 0 <= k < |refs| ==> refs[k] < n
    ensures m <= n
    ensures forall k :: 0 <= k < |refs| ==> m <= refs[k]
    ensures m == n || m in refs
  {
    if refs == [] then n
    else
      var m := MinRef(n, refs[1..]);
      if refs[0] < m then refs[0] else m
  }

  /** The leaves under `refs`, left to right, each group replaced by the leaves under its children. */
  function Flat(nodes: seq<Action>, refs: seq<ActionRef>): (r: seq<ActionRef>)
    requires WellFormed(nodes) && ValidRefs(nodes, refs)
    ensures ValidRefs(nodes, r)
    ensures forall k :: 0 <= k < |r| ==> nodes[r[k]].kind != Group
    decreases |nodes| - MinRef(|nodes|, refs), |refs|
  {
    if refs == [] then []
    else
      var last := refs[|refs| - 1];
      Flat(nodes, refs[..|refs| - 1])
        + (if nodes[last].kind == Group then Flat(nodes, nodes[last].actions) else [last])
  }

  /** Every action under `refs` in the order a depth-first walk meets it: a group comes before its children. */
  function Preorder(nodes: seq<Action>, refs: seq<ActionRef>): (r: seq<ActionRef>)
    requires WellFormed(nodes) && ValidRefs(nodes, refs)
    ensures ValidRefs(nodes, r)
    decreases |nodes| - MinRef(|nodes|, refs), |refs|
  {
    if refs == [] then []
    else
      var last := refs[|refs| - 1];
      Preorder(nodes, refs[..|refs| - 1]) + [last]
        + (if nodes[last].kind == Group then Preorder(nodes, nodes[last].actions) else [])
  }

  /** The action is not a group. */
  function IsLeaf(nodes: seq<Action>): ActionRef -> bool {
    (x: ActionRef) => x < |nodes| && nodes[x].kind != Group
  }

  /** Flattening keeps exactly the leaves of the depth-first walk, in the walk's order. */
  lemma {:induction false} FlatIsLeavesOfPreorder(nodes: seq<Action>, refs: seq<ActionRef>)
    requires WellFormed(nodes) && ValidRefs(nodes, refs)
    ensures Flat(nodes, refs) == Filter(Preorder(nodes, refs), IsLeaf(nodes))
    decreases |nodes| - MinRef(|nodes|, refs), |refs|
  {
    if refs != [] {
      var init := refs[..|refs| - 1];
      var last := refs[|refs| - 1];
      var p := IsLeaf(nodes);
      var sub := if nodes[last].kind == Group then Preorder(nodes, nodes[last].actions) else [];
      var tail := if nodes[last].kind == Group then Flat(nodes, nodes[last].actions) else [last];
      assert Filter(sub, p) == (if p(last) then [] else tail) by {
        if nodes[last].kind == Group {
          FlatIsLeavesOfPreorder(nodes, nodes[last].actions);
        }
      }
      assert Filter(Preorder(nodes, init), p) == Flat(nodes, init) by {
        FlatIsLeavesOfPreorder(nodes, init);
      }
      FilterStep(Preorder(nodes, init), last, sub, p, tail);
    }
  }

  /** One step of the induction above, stated on plain sequences. */
  lemma FilterStep<T>(pre: seq<T>, last: T, sub: seq<T>, p: T -> bool, tail: seq<T>)
    requires Filter(sub, p) == (if p(last) then [] else tail)
    requires p(last) ==> tail == [last]
    ensures Filter(pre + [last] + sub, p) == Filter(pre, p) + tail
  {
    FilterAppend(pre + [last], sub, p);
    FilterAppend(pre, [last], p);
  }

  /** Flattening distributes over concatenation. */
  lemma {:induction false} FlatAppend(nodes: seq<Action>, a: seq<ActionRef>, b: seq<ActionRef>)
    requires WellFormed(nodes) && ValidRefs(nodes, a) && ValidRefs(nodes, b)
    ensures Flat(nodes, a + b) == Flat(nodes, a) + Flat(nodes, b)
    decreases |b|
  {
    if b == [] {
      assert a + b == a;
    } else {
      var last := b[|b| - 1];
      assert (a + b)[..|a + b| - 1] == a + b[..|b| - 1];
      FlatAppend(nodes, a, b[..|b| - 1]);
    }
  }

  /** A list without groups is already flat. */
  lemma {:induction false} FlatOfLeaves(nodes: seq<Action>, refs: seq<ActionRef>)
    requires WellFormed(nodes) && ValidRefs(nodes, refs)
    requires forall k :: 0 <= k < |refs| ==> nodes[refs[k]].kind != Group
    ensures Flat(nodes, refs) == refs
  {
    if refs != [] {
      FlatOfLeaves(nodes, refs[..|refs| - 1]);
    }
  }

  /** Two arenas whose actions have the same kinds and children. */
  predicate SameStructure(n1: seq<Action>, n2: seq<Action>) {
    |n1| == |n2| && forall i :: 0 <= i < |n1| ==> n1[i].kind == n2[i].kind && n1[i].actions == n2[i].actions
  }

  /** The walk depends only on the kinds and children of the actions. */
  lemma {:induction false} PreorderFrame(n1: seq<Action>, n2: seq<Action>, refs: seq<ActionRef>)
    requires WellFormed(n1) && SameStructure(n1, n2) && ValidRefs(n1, refs)
    ensures WellFormed(n2) && Preorder(n1, refs) == Preorder(n2, refs)
    decreases |n1| - MinRef(|n1|, refs), |refs|
  {
    if refs != [] {
      var last := refs[|refs| - 1];
      PreorderFrame(n1, n2, refs[..|refs| - 1]);
      if n1[last].kind == Group {
        PreorderFrame(n1, n2, n1[last].actions);
      }
    }
  }

  /** The walk reaches every action of `refs`. */
  lemma {:induction false} PreorderCovers(nodes: seq<Action>, refs: seq<ActionRef>, k: nat)
    requires WellFormed(nodes) && ValidRefs(nodes, refs) && k < |refs|
    ensures refs[k] in Preorder(nodes, refs)
    decreases |refs|
  {
    var init := refs[..|refs| - 1];
    var sub := if nodes[refs[|refs| - 1]].kind == Group then Preorder(nodes, nodes[refs[|refs| - 1]].actions) else [];
    assert Preorder(nodes, refs) == Preorder(nodes, init) + [refs[|refs| - 1]] + sub;
    if k < |refs| - 1 {
      assert refs[k] == init[k];
      PreorderCovers(nodes, init, k);
    }
  }

  /** The walk reaches every child of a group it reaches. */
  lemma {:induction false} PreorderClosed(nodes: seq<Action>, refs: seq<ActionRef>, g: ActionRef, k: nat)
    requires WellFormed(nodes) && ValidRefs(nodes, refs)
    requires g in Preorder(nodes, refs) && nodes[g].kind == Group && k < |nodes[g].actions|
    ensures nodes[g].actions[k] in Preorder(nodes, refs)
    decreases |nodes| - MinRef(|nodes|, refs), |refs|
  {
    var init := refs[..|refs| - 1];
    var last := refs[|refs| - 1];
    var sub := if nodes[last].kind == Group then Preorder(nodes, nodes[last].actions) else [];
    assert Preorder(nodes, refs) == Preorder(nodes, init) + [last] + sub;
    if g in Preorder(nodes, init) {
      PreorderClosed(nodes, init, g, k);
    } else if g == last {
      PreorderCovers(nodes, nodes[last].actions, k);
    } else {
      PreorderClosed(nodes, nodes[last].actions, g, k);
    }
  }

  /** `flatActions`: the actions with every group replaced by its flattened children. */
  method FlatActions(h: ActionHeap, actions: seq<ActionRef>) returns (flattenActions: seq<ActionRef>)
    requires h.Valid() && ValidRefs(h.nodes, actions)
    ensures flattenActions == Flat(h.nodes, actions)
    decreases |h.nodes| - MinRef(|h.nodes|, actions)
  {
    flattenActions := [];
    for i := 0 to |actions|
      invariant flattenActions == Flat(h.nodes, actions[..i])
    {
      var action := actions[i];
      assert actions[..i + 1][..i] == actions[..i];
      if h.nodes[action].kind == Group {
        var children := FlatActions(h, h.nodes[action].actions);
        flattenActions := flattenActions + children;
      } else {
        flattenActions := flattenActions + [action];
      }
    }
    assert actions[..|actions|] == actions;
  }

  // ---------------------------------------------------------------------------
  // Ordering
  // ---------------------------------------------------------------------------

  /** A JavaScript number is truthy unless it is undefined or zero. */
  predicate Truthy(n: Option<int>) {
    n.Some? && n.value != 0
  }

  /** `compareActions`: by start, then by end, then by conflict position when both have a truthy one. */
  function CompareActions(actionA: Action, actionB: Action): int {
    if actionA.start > actionB.start then 1
    else if actionA.start < actionB.start then -1
    else if actionA.end > actionB.end then 1
    else if actionA.end < actionB.end then -1
    else if Truthy(actionA.conflictPosition) && Truthy(actionB.conflictPosition)
            && actionA.conflictPosition.value > actionB.conflictPosition.value then 1
    else if Truthy(actionA.conflictPosition) && Truthy(actionB.conflictPosition)
            && actionA.conflictPosition.value < actionB.conflictPosition.value then -1
    else 0
  }

  /** Swapping the arguments negates the comparison; the result is always -1, 0 or 1. */
  lemma CompareActionsAntisymmetric(a: Action, b: Action)
    ensures CompareActions(a, b) == -CompareActions(b, a)
    ensures CompareActions(a, b) in {-1, 0, 1}
  {
  }

  /** A tie means equal ranges and no two distinct truthy conflict positions. */
  lemma CompareActionsTie(a: Action, b: Action)
    ensures CompareActions(a, b) == 0 <==>
      a.start == b.start && a.end == b.end
      && !(Truthy(a.conflictPosition) && Truthy(b.conflictPosition) && a.conflictPosition != b.conflictPosition)
  {
  }

  /** "Goes before" is transitive. */
  lemma CompareActionsTransitive(a: Action, b: Action, c: Action)
    requires CompareActions(a, b) < 0 && CompareActions(b, c) < 0
    ensures CompareActions(a, c) < 0
  {
  }

  /**
   * Ties are not transitive: an action without a conflict position ties with
   * two actions whose conflict positions order them. No ordering of such a
   * list is stable with respect to the comparator.
   */
  lemma CompareActionsTiesNotTransitive()
    ensures var a := Action(Replace, 0, 1, Some("a"), [], Some(2));
            var b := Action(Replace, 0, 1, Some("b"), [], None);
            var c := Action(Replace, 0, 1, Some("c"), [], Some(1));
            CompareActions(a, b) == 0 && CompareActions(b, c) == 0 && CompareActions(a, c) == 1
  {
  }

  /** The action a reference names, or an empty replacement when it names none. */
  function At(nodes: seq<Action>, x: ActionRef): Action {
    if x < |nodes| then nodes[x] else Action(Replace, 0, 0, None, [], None)
  }

  /** `compareActions` lifted to references into the arena. */
  function RefCompare(nodes: seq<Action>): (ActionRef, ActionRef) -> int {
    (x: ActionRef, y: ActionRef) => CompareActions(At(nodes, x), At(nodes, y))
  }

  lemma RefCompareConsistent(nodes: seq<Action>)
    ensures Consistent(RefCompare(nodes))
  {
    var cmp := RefCompare(nodes);
    forall x, y, z | cmp(x, y) < 0 && cmp(y, z) < 0 ensures cmp(x, z) < 0 {
      CompareActionsTransitive(At(nodes, x), At(nodes, y), At(nodes, z));
    }
  }

  lemma PermutationValidRefs(nodes: seq<Action>, a: seq<ActionRef>, b: seq<ActionRef>)
    requires multiset(a) == multiset(b)
    ensures ValidRefs(nodes, a) ==> ValidRefs(nodes, b)
  {
    if ValidRefs(nodes, a) {
      forall k | 0 <= k < |b| ensures b[k] < |nodes| {
        assert b[k] in multiset(a);
      }
    }
  }

  /** Reordering keeps a list free of group actions. */
  lemma PermutationLeaves(nodes: seq<Action>, a: seq<ActionRef>, b: seq<ActionRef>)
    requires multiset(a) == multiset(b) && ValidRefs(nodes, a)
    requires forall k :: 0 <= k < |a| ==> nodes[a[k]].kind != Group
    ensures ValidRefs(nodes, b) && forall k :: 0 <= k < |b| ==> nodes[b[k]].kind != Group
  {
    forall k | 0 <= k < |b| ensures b[k] < |nodes| && nodes[b[k]].kind != Group {
      assert b[k] in multiset(a);
      var j :| 0 <= j < |a| && a[j] == b[k];
    }
  }

  /** `sortFlattenActions`: the flattened actions in `compareActions` order. */
  function SortFlattenActions(nodes: seq<Action>, flattenActions: seq<ActionRef>): (r: seq<ActionRef>)
    ensures multiset(r) == multiset(flattenActions)
    ensures SortedBy(r, RefCompare(nodes))
    ensures ValidRefs(nodes, flattenActions) ==> ValidRefs(nodes, r)
  {
    RefCompareConsistent(nodes);
    SortBySorted(flattenActions, RefCompare(nodes));
    var r := SortBy(flattenActions, RefCompare(nodes));
    PermutationValidRefs(nodes, flattenActions, r);
    r
  }

  // ---------------------------------------------------------------------------
  // Applying edits to a source text
  // ---------------------------------------------------------------------------

  /** The text JavaScript concatenates for `newCode`: an undefined one reads as "undefined". */
  function CodeText(code: Option<string>): string {
    match code
    case Some(c) => c
    case None => "undefined"
  }

  /** `source.slice(0, start) + newCode + source.slice(end)`. */
  function Splice(source: string, action: Action): string {
    Slice(source, 0, action.start) + CodeText(action.newCode) + SliceFrom(source, action.end)
  }

  /** Inside the text, a splice replaces exactly the characters `[start, end)`. */
  lemma SpliceInBounds(source: string, action: Action)
    requires 0 <= action.start <= action.end <= |source|
    ensures Splice(source, action) == source[..action.start] + CodeText(action.newCode) + source[action.end..]
  {
  }

  /** The splices of `actions`, one after the other, from the first to the last. */
  function SpliceAll(source: string, actions: seq<Action>): string
    decreases |actions|
  {
    if actions == [] then source
    else Splice(SpliceAll(source, actions[..|actions| - 1]), actions[|actions| - 1])
  }

  /** The actions the references name. */
  function NodesOf(nodes: seq<Action>, refs: seq<ActionRef>): (r: seq<Action>)
    requires ValidRefs(nodes, refs)
    ensures |r| == |refs| && forall k :: 0 <= k < |refs| ==> r[k] == nodes[refs[k]]
  {
    seq(|refs|, k requires 0 <= k < |refs| => nodes[refs[k]])
  }

  /** Applying sorted edits from the last to the first, so that no splice moves a position still to be edited. */
  function Batch(source: string, sorted: seq<Action>): string {
    SpliceAll(source, Reverse(sorted))
  }

  /**
   * `replaceTestResult`: flatten the result's actions, sort them, and splice
   * them into the source from the last to the first.
   */
  method ReplaceTestResult(h: ActionHeap, result: TestResult, source: string) returns (r: string)
    requires h.Valid() && ValidRefs(h.nodes, result.actions)
    ensures r == Batch(source, NodesOf(h.nodes, SortFlattenActions(h.nodes, Flat(h.nodes, result.actions))))
  {
    var flattenActions := FlatActions(h, result.actions);
    var sorted := SortFlattenActions(h.nodes, flattenActions);
    PermutationLeaves(h.nodes, flattenActions, sorted);
    ReverseLeaves(h.nodes, sorted);
    r := SpliceInOrder(h, Reverse(sorted), source);
    NodesOfReverse(h.nodes, sorted);
  }

  /** The loop of `replaceTestResult`: splices the actions `order` names, one after the other. */
  method SpliceInOrder(h: ActionHeap, order: seq<ActionRef>, source: string) returns (r: string)
    requires ValidRefs(h.nodes, order) && forall k :: 0 <= k < |order| ==> h.nodes[order[k]].kind != Group
    ensures r == SpliceAll(source, NodesOf(h.nodes, order))
  {
    ghost var edits := NodesOf(h.nodes, order);
    r := source;
    for i := 0 to |order|
      invariant r == SpliceAll(source, edits[..i])
    {
      var action := h.nodes[order[i]];
      assert edits[..i + 1][..i] == edits[..i];
      if action.kind == Group {
        assert false;
      } else {
        r := Splice(r, action);
      }
    }
    assert edits[..|order|] == edits;
  }

  lemma ReverseLeaves(nodes: seq<Action>, refs: seq<ActionRef>)
    requires ValidRefs(nodes, refs) && forall k :: 0 <= k < |refs| ==> nodes[refs[k]].kind != Group
    ensures ValidRefs(nodes, Reverse(refs)) && forall k :: 0 <= k < |refs| ==> nodes[Reverse(refs)[k]].kind != Group
  {
    var r := Reverse(refs);
    forall k | 0 <= k < |refs| ensures r[k] < |nodes| && nodes[r[k]].kind != Group {
      assert r[k] == refs[|refs| - 1 - k];
    }
  }

  lemma NodesOfReverse(nodes: seq<Action>, refs: seq<ActionRef>)
    requires ValidRefs(nodes, refs) && ValidRefs(nodes, Reverse(refs))
    ensures NodesOf(nodes, Reverse(refs)) == Reverse(NodesOf(nodes, refs))
  {
    var a, b := NodesOf(nodes, Reverse(refs)), Reverse(NodesOf(nodes, refs));
    forall k | 0 <= k < |refs| ensures a[k] == b[k] {
      assert Reverse(refs)[k] == refs[|refs| - 1 - k];
    }
  }

  // ---------------------------------------------------------------------------
  // Updating actions in place
  // ---------------------------------------------------------------------------

  /** The arena after `f` has been applied, in order, to every action that `visit` names. */
  function ApplyAlong(nodes: seq<Action>, visit: seq<ActionRef>, f: Action -> Action): (r: seq<Action>)
    ensures |r| == |nodes|
    decreases |visit|
  {
    if visit == [] then nodes
    else
      var n := ApplyAlong(nodes, visit[..|visit| - 1], f);
      var v := visit[|visit| - 1];
      if v < |n| then n[v := f(n[v])] else n
  }

  /** The update keeps every action's kind and children. */
  ghost predicate KeepsStructure(f: Action -> Action) {
    forall a :: f(a).kind == a.kind && f(a).actions == a.actions
  }

  lemma {:induction false} ApplyAlongStructure(nodes: seq<Action>, visit: seq<ActionRef>, f: Action -> Action)
    requires KeepsStructure(f)
    ensures SameStructure(ApplyAlong(nodes, visit, f), nodes)
    decreases |visit|
  {
    if visit != [] {
      ApplyAlongStructure(nodes, visit[..|visit| - 1], f);
    }
  }

  lemma {:induction false} ApplyAlongAppend(nodes: seq<Action>, a: seq<ActionRef>, b: seq<ActionRef>, f: Action -> Action)
    ensures ApplyAlong(nodes, a + b, f) == ApplyAlong(ApplyAlong(nodes, a, f), b, f)
    decreases |b|
  {
    if b == [] {
      assert a + b == a;
    } else {
      assert (a + b)[..|a + b| - 1] == a + b[..|b| - 1];
      ApplyAlongAppend(nodes, a, b[..|b| - 1], f);
    }
  }

  /** When `visit` names no action twice, each action it names is updated exactly once and the others are untouched. */
  lemma {:induction false} ApplyAlongOnce(nodes: seq<Action>, visit: seq<ActionRef>, f: Action -> Action, i: nat)
    requires forall j, k :: 0 <= j < k < |visit| ==> visit[j] != visit[k]
    requires i < |nodes|
    ensures ApplyAlong(nodes, visit, f)[i] == if i in visit then f(nodes[i]) else nodes[i]
    decreases |visit|
  {
    if visit != [] {
      var init := visit[..|visit| - 1];
      ApplyAlongOnce(nodes, init, f, i);
      assert visit == init + [visit[|visit| - 1]];
    }
  }

  /**
   * `iterateActions`: call `func` on every action under `actions`, a group
   * before its children. The update is in place, on the shared action objects.
   */
  method IterateActions(h: ActionHeap, actions: seq<ActionRef>, func: Action -> Action)
    requires h.Valid() && ValidRefs(h.nodes, actions) && KeepsStructure(func)
    modifies h
    ensures h.Valid() && SameStructure(h.nodes, old(h.nodes))
    ensures h.nodes == ApplyAlong(old(h.nodes), Preorder(old(h.nodes), actions), func)
    decreases |h.nodes| - MinRef(|h.nodes|, actions), 1
  {
    ghost var n0 := h.nodes;
    for i := 0 to |actions|
      invariant h.nodes == ApplyAlong(n0, Preorder(n0, actions[..i]), func)
    {
      ghost var walked := Preorder(n0, actions[..i]);
      ApplyAlongKeepsWellFormed(n0, walked, func);
      VisitAction(h, actions[i], func);
      IterateStep(n0, actions, i, func);
    }
    ApplyAlongKeepsWellFormed(n0, Preorder(n0, actions), func);
    assert actions[..|actions|] == actions;
  }

  lemma ApplyAlongKeepsWellFormed(nodes: seq<Action>, visit: seq<ActionRef>, f: Action -> Action)
    requires WellFormed(nodes) && KeepsStructure(f)
    ensures SameStructure(ApplyAlong(nodes, visit, f), nodes) && WellFormed(ApplyAlong(nodes, visit, f))
  {
    ApplyAlongStructure(nodes, visit, f);
    var n := ApplyAlong(nodes, visit, f);
    forall i, k | 0 <= i < |n| && 0 <= k < |n[i].actions| ensures i < n[i].actions[k] < |n| {
      assert n[i].actions == nodes[i].actions;
    }
  }

  /** One iteration of `iterateActions`: the walk of `actions[..i + 1]` is the walk of `actions[..i]` and then of `actions[i]`. */
  lemma IterateStep(n0: seq<Action>, actions: seq<ActionRef>, i: nat, func: Action -> Action)
    requires WellFormed(n0) && ValidRefs(n0, actions) && i < |actions| && KeepsStructure(func)
    ensures var before := ApplyAlong(n0, Preorder(n0, actions[..i]), func);
            WellFormed(before) &&
            ApplyAlong(before, Preorder(before, [actions[i]]), func) == ApplyAlong(n0, Preorder(n0, actions[..i + 1]), func)
  {
    var walked := Preorder(n0, actions[..i]);
    var before := ApplyAlong(n0, walked, func);
    var sub := Preorder(n0, [actions[i]]);
    StepFrame(n0, walked, actions[i], func);
    ApplyAlongAppend(n0, walked, sub, func);
    StepWalk(n0, actions, i);
  }

  lemma StepFrame(n0: seq<Action>, walked: seq<ActionRef>, a: ActionRef, func: Action -> Action)
    requires WellFormed(n0) && a < |n0| && KeepsStructure(func)
    ensures var before := ApplyAlong(n0, walked, func);
            WellFormed(before) && Preorder(before, [a]) == Preorder(n0, [a])
  {
    ApplyAlongKeepsWellFormed(n0, walked, func);
    PreorderFrame(n0, ApplyAlong(n0, walked, func), [a]);
  }

  lemma StepWalk(n0: seq<Action>, actions: seq<ActionRef>, i: nat)
    requires WellFormed(n0) && ValidRefs(n0, actions) && i < |actions|
    ensures Preorder(n0, actions[..i + 1]) == Preorder(n0, actions[..i]) + Preorder(n0, [actions[i]])
  {
    PreorderStep(n0, actions, i);
    PreorderSingle(n0, actions[i]);
  }

  /** The callback `iterateActions` runs for each action: update it, then walk a group's children. */
  method VisitAction(h: ActionHeap, action: ActionRef, func: Action -> Action)
    requires h.Valid() && action < |h.nodes| && KeepsStructure(func)
    modifies h
    ensures h.Valid() && SameStructure(h.nodes, old(h.nodes))
    ensures h.nodes == ApplyAlong(old(h.nodes), Preorder(old(h.nodes), [action]), func)
    decreases |h.nodes| - action, 0
  {
    ghost var n0 := h.nodes;
    h.nodes := h.nodes[action := func(h.nodes[action])];
    VisitOne(n0, [], action, func);
    ApplyAlongStructure(n0, [action], func);
    if h.nodes[action].kind == Group {
      var children := h.nodes[action].actions;
      IterateActions(h, children, func);
      PreorderFrame(n0, ApplyAlong(n0, [action], func), children);
      ApplyAlongAppend(n0, [action], Preorder(n0, children), func);
    }
    PreorderSingle(n0, action);
  }

  /** Visiting one more action updates that action and nothing else. */
  lemma VisitOne(nodes: seq<Action>, visit: seq<ActionRef>, v: ActionRef, f: Action -> Action)
    requires v < |nodes|
    ensures var n := ApplyAlong(nodes, visit, f); ApplyAlong(nodes, visit + [v], f) == n[v := f(n[v])]
  {
    assert (visit + [v])[..|visit|] == visit;
  }

  lemma PreorderSingle(nodes: seq<Action>, action: ActionRef)
    requires WellFormed(nodes) && action < |nodes|
    ensures Preorder(nodes, [action]) == [action]
      + (if nodes[action].kind == Group then Preorder(nodes, nodes[action].actions) else [])
  {
    assert [action][..0] == [];
  }

  /** The walk of one more action is the walk so far, that action, and the walk of its children. */
  lemma PreorderStep(nodes: seq<Action>, refs: seq<ActionRef>, i: nat)
    requires WellFormed(nodes) && ValidRefs(nodes, refs) && i < |refs|
    ensures Preorder(nodes, refs[..i + 1]) == Preorder(nodes, refs[..i]) + [refs[i]]
      + (if nodes[refs[i]].kind == Group then Preorder(nodes, nodes[refs[i]].actions) else [])
  {
    assert refs[..i + 1][..i] == refs[..i];
  }

  /** The shift one applied edit causes: positions at or after `end` move by `size`. */
  datatype Offset = Offset(start: int, end: int, size: int)

  /** The shift of an applied action. Its `newCode!` throws a TypeError when the code is undefined. */
  function OffsetOf(action: Action): Offset
    requires action.newCode.Some?
  {
    Offset(action.start, action.end, |action.newCode.value| - (action.end - action.start))
  }

  /** A position after the offsets have been applied one after the other. */
  function ShiftPosition(x: int, offsets: seq<Offset>): int
    decreases |offsets|
  {
    if offsets == [] then x
    else ShiftPosition(if x >= offsets[0].end then x + offsets[0].size else x, offsets[1..])
  }

  /** The action with both of its ends shifted. */
  function Rebase(action: Action, offsets: seq<Offset>): (r: Action)
    ensures r.kind == action.kind && r.actions == action.actions
    ensures r.newCode == action.newCode && r.conflictPosition == action.conflictPosition
  {
    action.(start := ShiftPosition(action.start, offsets), end := ShiftPosition(action.end, offsets))
  }

  /** The callback `replaceTestAction` gives to `iterateActions`. */
  function Rebaser(offsets: seq<Offset>): (f: Action -> Action)
    ensures KeepsStructure(f)
  {
    (a: Action) => Rebase(a, offsets)
  }

  /** The actions `replaceTestAction` splices, in order: a group's children last to first, or the action itself. */
  function Applied(nodes: seq<Action>, action: ActionRef): seq<Action>
    requires WellFormed(nodes) && action < |nodes|
  {
    if nodes[action].kind == Group then NodesOf(nodes, Reverse(nodes[action].actions)) else [nodes[action]]
  }

  /** Every applied action has a defined `newCode`. */
  predicate AllCoded(actions: seq<Action>) {
    forall k :: 0 <= k < |actions| ==> actions[k].newCode.Some?
  }

  function Offsets(actions: seq<Action>): (r: seq<Offset>)
    requires AllCoded(actions)
    ensures |r| == |actions| && forall k :: 0 <= k < |actions| ==> r[k] == OffsetOf(actions[k])
  {
    seq(|actions|, k requires 0 <= k < |actions| => OffsetOf(actions[k]))
  }

  /** The arena after a group's children have been reversed in place. */
  function ReverseChildren(nodes: seq<Action>, action: ActionRef): seq<Action>
    requires action < |nodes|
  {
    if nodes[action].kind == Group then nodes[action := nodes[action].(actions := Reverse(nodes[action].actions))]
    else nodes
  }

  /** Reversing a group's children keeps the arena well formed and leaves the children themselves alone. */
  lemma ReverseChildrenFacts(nodes: seq<Action>, action: ActionRef)
    requires WellFormed(nodes) && action < |nodes|
    ensures WellFormed(ReverseChildren(nodes, action))
    ensures nodes[action].kind == Group ==>
      var children := Reverse(nodes[action].actions);
      ValidRefs(nodes, children) && forall k :: 0 <= k < |children| ==> ReverseChildren(nodes, action)[children[k]] == nodes[children[k]]
  {
    if nodes[action].kind == Group {
      var children := nodes[action].actions;
      var n1 := ReverseChildren(nodes, action);
      forall i, k | 0 <= i < |n1| && 0 <= k < |n1[i].actions| ensures i < n1[i].actions[k] < |n1| {
        if i == action {
          assert n1[i].actions[k] == children[|children| - 1 - k];
        }
      }
      forall k | 0 <= k < |children| ensures Reverse(children)[k] > action {
        assert Reverse(children)[k] == children[|children| - 1 - k];
      }
    }
  }

  /**
   * The arena after `replaceTestAction` has applied `action` and rebased
   * every action under `refs` by the offsets of the applied edits.
   */
  function Rebased(nodes: seq<Action>, action: ActionRef, refs: seq<ActionRef>): seq<Action>
    requires WellFormed(nodes) && action < |nodes| && ValidRefs(nodes, refs) && AllCoded(Applied(nodes, action))
  {
    ReverseChildrenFacts(nodes, action);
    var n1 := ReverseChildren(nodes, action);
    ApplyAlong(n1, Preorder(n1, refs), Rebaser(Offsets(Applied(nodes, action))))
  }

  /**
   * The loop over a group's reversed children in `replaceTestAction`: splice
   * each child into the source and record its offset. `None` stands for the
   * TypeError `newCode!.length` raises on a child without code.
   */
  method SpliceEach(source: string, edits: seq<Action>) returns (r: Option<(string, seq<Offset>)>)
    ensures r.Some? <==> AllCoded(edits)
    ensures r.Some? ==> r.value.0 == SpliceAll(source, edits) && r.value.1 == Offsets(edits)
  {
    var src := source;
    var offsets: seq<Offset> := [];
    for i := 0 to |edits|
      invariant AllCoded(edits[..i]) && src == SpliceAll(source, edits[..i]) && offsets == Offsets(edits[..i])
    {
      var childAction := edits[i];
      assert edits[..i + 1][..i] == edits[..i];
      src := Splice(src, childAction);
      if childAction.newCode.None? {
        assert !AllCoded(edits);
        return None;
      }
      offsets := offsets + [OffsetOf(childAction)];
    }
    assert edits[..|edits|] == edits;
    return Some((src, offsets));
  }

  /**
   * `replaceTestAction`: splice one action (a group: its children, last to
   * first) into the source, then shift the positions of every action of the
   * result that lies after an applied edit. `None` stands for the TypeError
   * raised when an applied action has no `newCode`.
   */
  method ReplaceTestAction(h: ActionHeap, result: TestResult, action: ActionRef, source: string)
    returns (r: Option<string>)
    requires h.Valid() && action < |h.nodes| && ValidRefs(h.nodes, result.actions)
    modifies h, result
    ensures h.Valid() && result.actions == old(result.actions)
    ensures r.Some? <==> AllCoded(Applied(old(h.nodes), action))
    ensures r.Some? ==> r.value == SpliceAll(source, Applied(old(h.nodes), action))
    ensures h.nodes == if r.Some? && |result.actions| > 0
                       then Rebased(old(h.nodes), action, result.actions)
                       else ReverseChildren(old(h.nodes), action)
    ensures result.fileSource == if r.Some? && |result.actions| > 0 then r else old(result.fileSource)
  {
    ghost var n0 := h.nodes;
    ReverseChildrenFacts(n0, action);
    var edited: Option<(string, seq<Offset>)>;
    if h.nodes[action].kind == Group {
      var children := Reverse(h.nodes[action].actions);
      h.nodes := h.nodes[action := h.nodes[action].(actions := children)];
      assert NodesOf(h.nodes, children) == Applied(n0, action);
      edited := SpliceEach(source, NodesOf(h.nodes, children));
    } else {
      var a := h.nodes[action];
      var src := Splice(source, a);
      if a.newCode.None? {
        edited := None;
      } else {
        edited := Some((src, [OffsetOf(a)]));
      }
      assert [a][..0] == [] && [a][0] == a && Applied(n0, action) == [a];
      assert edited.Some? ==> edited.value.1 == Offsets([a]);
    }
    assert h.nodes == ReverseChildren(n0, action);
    if edited.None? {
      r := None;
    } else {
      if |result.actions| > 0 {
        IterateActions(h, result.actions, Rebaser(edited.value.1));
        result.fileSource := Some(edited.value.0);
      }
      r := Some(edited.value.0);
    }
  }
}
