/**
 * The edit engine on the file "hello world" with the actions of the
 * repository's own test scenarios, worked out through the specification
 * functions that the engine's methods are proved against.
 */
module ActionScenarios {
  import opened Wrappers
  import opened Types
  import opened Actions
  import opened JsText

  /** `[replace 5..6 "--", group 0..11 [replace 0..5 "hi", replace 6..11 "foo"]]` in an arena. */
  function GroupArena(): seq<Action> {
    [ Action(Replace, 5, 6, Some("--"), [], None),
      Action(Group, 0, 11, None, [2, 3], None),
      Action(Replace, 0, 5, Some("hi"), [], None),
      Action(Replace, 6, 11, Some("foo"), [], None) ]
  }

  lemma GroupArenaWellFormed()
    ensures WellFormed(GroupArena())
  {
  }

  lemma FlatOne(nodes: seq<Action>, a: ActionRef)
    requires WellFormed(nodes) && a < |nodes|
    ensures Flat(nodes, [a]) == if nodes[a].kind == Group then Flat(nodes, nodes[a].actions) else [a]
  {
    assert [a][..0] == [];
  }

  lemma FlatPair(nodes: seq<Action>, a: ActionRef, b: ActionRef)
    requires WellFormed(nodes) && a < |nodes| && b < |nodes|
    ensures Flat(nodes, [a, b]) == Flat(nodes, [a]) + Flat(nodes, [b])
  {
    FlatAppend(nodes, [a], [b]);
    assert [a] + [b] == [a, b];
  }

  lemma GroupArenaFlatGroup()
    ensures WellFormed(GroupArena()) && Flat(GroupArena(), [1]) == Flat(GroupArena(), [2, 3])
  {
    GroupArenaWellFormed();
    FlatOne(GroupArena(), 1);
  }

  lemma GroupArenaFlatChildren()
    ensures WellFormed(GroupArena()) && Flat(GroupArena(), [1]) == [2, 3]
  {
    var n := GroupArena();
    GroupArenaFlatGroup();
    FlatPair(n, 2, 3);
    FlatOne(n, 2);
    FlatOne(n, 3);
  }

  lemma GroupArenaFlat()
    ensures WellFormed(GroupArena()) && Flat(GroupArena(), [0, 1]) == [0, 2, 3]
  {
    var n := GroupArena();
    GroupArenaFlatChildren();
    FlatPair(n, 0, 1);
    FlatOne(n, 0);
  }

  /** Sorting three elements when only the first two are out of order. */
  lemma SortThree<T>(x: T, y: T, z: T, cmp: (T, T) -> int)
    requires cmp(x, y) > 0 && cmp(y, z) <= 0 && cmp(x, z) <= 0
    ensures Sorting.SortBy([x, y, z], cmp) == [y, x, z]
  {
    assert [x][..0] == [];
    assert Sorting.SortBy([x], cmp) == [x];
    assert [x, y][..1] == [x];
    assert Sorting.SortBy([x, y], cmp) == Sorting.Insert(y, [x], cmp) == [y, x];
    assert [x, y, z][..2] == [x, y];
    assert Sorting.SortBy([x, y, z], cmp) == Sorting.Insert(z, [y, x], cmp);
    assert [y, x][1..] == [x];
    assert Sorting.Insert(z, [x], cmp) == [x, z];
  }

  lemma GroupArenaSort()
    ensures SortFlattenActions(GroupArena(), [0, 2, 3]) == [2, 0, 3]
  {
    var n := GroupArena();
    var cmp := RefCompare(n);
    assert At(n, 0) == n[0] && At(n, 2) == n[2] && At(n, 3) == n[3];
    SortThree<ActionRef>(0, 2, 3, cmp);
  }

  /** Three splices, one after the other. */
  lemma SpliceThree(s: string, a: Action, b: Action, c: Action)
    ensures SpliceAll(s, [a, b, c]) == Splice(Splice(Splice(s, a), b), c)
  {
    assert [a][..0] == [];
    assert SpliceAll(s, [a]) == Splice(s, a);
    assert [a, b][..1] == [a];
    assert SpliceAll(s, [a, b]) == Splice(Splice(s, a), b);
    assert [a, b, c][..2] == [a, b];
  }

  lemma GroupArenaSplices()
    ensures Batch("hello world", NodesOf(GroupArena(), [2, 0, 3])) == "hi--foo"
  {
    var n := GroupArena();
    assert Seqs.Reverse(NodesOf(n, [2, 0, 3])) == [n[3], n[0], n[2]];
    SpliceThree("hello world", n[3], n[0], n[2]);
    var s0 := "hello world";
    var s1 := Splice(s0, n[3]);
    assert s1 == "hello foo" by {
      assert Slice(s0, 0, 6) == "hello ";
      assert SliceFrom(s0, 11) == "";
    }
    var s2 := Splice(s1, n[0]);
    assert s2 == "hello--foo" by {
      assert Slice(s1, 0, 5) == "hello";
      assert SliceFrom(s1, 6) == "foo";
    }
    assert Splice(s2, n[2]) == "hi--foo" by {
      assert Slice(s2, 0, 0) == "";
      assert SliceFrom(s2, 5) == "--foo";
    }
  }

  /** Applying the whole result splices "foo", then "--", then "hi". */
  lemma ReplaceTestResultExample()
    ensures WellFormed(GroupArena())
    ensures Batch("hello world", NodesOf(GroupArena(), SortFlattenActions(GroupArena(), Flat(GroupArena(), [0, 1]))))
            == "hi--foo"
  {
    GroupArenaFlat();
    GroupArenaSort();
    GroupArenaSplices();
  }

  /** `[replace 0..5 "hi", replace 6..11 "foo"]` in an arena. */
  function LeafArena(): seq<Action> {
    [ Action(Replace, 0, 5, Some("hi"), [], None),
      Action(Replace, 6, 11, Some("foo"), [], None) ]
  }

  /** Applying "hi" to "hello world" moves the remaining "foo" edit from 6..11 to 3..8. */
  lemma ReplaceTestActionExample()
    ensures WellFormed(LeafArena()) && AllCoded(Applied(LeafArena(), 0))
    ensures SpliceAll("hello world", Applied(LeafArena(), 0)) == "hi world"
    ensures Rebased(LeafArena(), 0, [1])[1] == Action(Replace, 3, 8, Some("foo"), [], None)
  {
    var n := LeafArena();
    HiSplice();
    HiShifts();
    var offsets := [Offset(0, 5, -3)];
    assert Preorder(n, [1]) == [1] by {
      assert [1][..0] == [];
    }
    assert ApplyAlong(n, [1], Rebaser(offsets))[1] == Rebase(n[1], offsets) by {
      assert [1][..0] == [];
    }
  }

  /** The edit "hi" itself: one splice, one offset. */
  lemma HiSplice()
    ensures WellFormed(LeafArena()) && AllCoded(Applied(LeafArena(), 0))
    ensures SpliceAll("hello world", Applied(LeafArena(), 0)) == "hi world"
    ensures Offsets(Applied(LeafArena(), 0)) == [Offset(0, 5, -3)]
  {
    var n := LeafArena();
    assert Applied(n, 0) == [n[0]];
    assert [n[0]][..0] == [];
    assert Splice("hello world", n[0]) == "hi world" by {
      assert Slice("hello world", 0, 0) == "";
      assert SliceFrom("hello world", 5) == " world";
    }
  }

  /** Positions after the edit move three to the left. */
  lemma HiShifts()
    ensures ShiftPosition(6, [Offset(0, 5, -3)]) == 3 && ShiftPosition(11, [Offset(0, 5, -3)]) == 8
  {
    var offsets := [Offset(0, 5, -3)];
    assert offsets[1..] == [];
  }

  lemma PreorderOfGroup()
    ensures WellFormed(GroupArena()) && Preorder(GroupArena(), [1]) == [1, 2, 3]
  {
    var n := GroupArena();
    GroupArenaWellFormed();
    PreorderSingle(n, 1);
    PreorderOfChildren();
  }

  lemma PreorderOfChildren()
    ensures WellFormed(GroupArena()) && Preorder(GroupArena(), [2, 3]) == [2, 3]
  {
    var n := GroupArena();
    GroupArenaWellFormed();
    PreorderStep(n, [2, 3], 1);
    assert [2, 3][..1] == [2] && [2, 3][..2] == [2, 3];
    PreorderSingle(n, 2);
  }

  /** Applying "--" to "hello world" widens the group to 0..12 and moves its "foo" child to 7..12. */
  lemma ReplaceTestActionGroupInResultExample()
    ensures WellFormed(GroupArena()) && AllCoded(Applied(GroupArena(), 0))
    ensures SpliceAll("hello world", Applied(GroupArena(), 0)) == "hello--world"
    ensures var r := Rebased(GroupArena(), 0, [1]);
            r[1] == Action(Group, 0, 12, None, [2, 3], None)
            && r[2] == Action(Replace, 0, 5, Some("hi"), [], None)
            && r[3] == Action(Replace, 7, 12, Some("foo"), [], None)
  {
    var n := GroupArena();
    PreorderOfGroup();
    DashSplice();
    DashShifts();
    var f := Rebaser([Offset(5, 6, 1)]);
    ApplyAlongOnce(n, [1, 2, 3], f, 1);
    ApplyAlongOnce(n, [1, 2, 3], f, 2);
    ApplyAlongOnce(n, [1, 2, 3], f, 3);
  }

  /** The edit "--" itself: one splice, one offset. */
  lemma DashSplice()
    ensures WellFormed(GroupArena()) && AllCoded(Applied(GroupArena(), 0))
    ensures SpliceAll("hello world", Applied(GroupArena(), 0)) == "hello--world"
    ensures Offsets(Applied(GroupArena(), 0)) == [Offset(5, 6, 1)]
  {
    var n := GroupArena();
    GroupArenaWellFormed();
    assert Applied(n, 0) == [n[0]];
    assert [n[0]][..0] == [];
    assert Splice("hello world", n[0]) == "hello--world" by {
      assert Slice("hello world", 0, 5) == "hello";
      assert SliceFrom("hello world", 6) == "world";
    }
  }

  /** Positions before the edit stay, positions after it move one to the right. */
  lemma DashShifts()
    ensures ShiftPosition(0, [Offset(5, 6, 1)]) == 0 && ShiftPosition(11, [Offset(5, 6, 1)]) == 12
    ensures ShiftPosition(5, [Offset(5, 6, 1)]) == 5 && ShiftPosition(6, [Offset(5, 6, 1)]) == 7
  {
    var offsets := [Offset(5, 6, 1)];
    assert offsets[1..] == [];
  }

  lemma ShiftTwo(x: int, a: Offset, b: Offset)
    ensures ShiftPosition(x, [a, b]) ==
      var y := if x >= a.end then x + a.size else x;
      if y >= b.end then y + b.size else y
  {
    assert [a, b][1..] == [b] && [b][1..] == [];
    var y := if x >= a.end then x + a.size else x;
    assert ShiftPosition(x, [a, b]) == ShiftPosition(y, [b]);
    assert ShiftPosition(y, [b]) == ShiftPosition(if y >= b.end then y + b.size else y, []);
  }

  lemma GroupApplied()
    ensures WellFormed(GroupArena()) && Applied(GroupArena(), 1) == [GroupArena()[3], GroupArena()[2]]
  {
    GroupArenaWellFormed();
    assert Seqs.Reverse([2, 3]) == [3, 2];
  }

  /** Applying the group splices "foo" and then "hi", and moves the remaining "--" edit from 5..6 to 2..3. */
  lemma ReplaceTestActionGroupExample()
    ensures WellFormed(GroupArena()) && AllCoded(Applied(GroupArena(), 1))
    ensures SpliceAll("hello world", Applied(GroupArena(), 1)) == "hi foo"
    ensures Rebased(GroupArena(), 1, [0])[0] == Action(Replace, 2, 3, Some("--"), [], None)
  {
    GroupApplied();
    GroupSplices();
    GroupRebase();
  }

  lemma GroupSplices()
    ensures SpliceAll("hello world", [GroupArena()[3], GroupArena()[2]]) == "hi foo"
  {
    var n := GroupArena();
    assert [n[3], n[2]][..1] == [n[3]] && [n[3]][..0] == [];
    assert SpliceAll("hello world", [n[3]]) == Splice("hello world", n[3]);
    assert Splice("hello world", n[3]) == "hello foo" by {
      assert Slice("hello world", 0, 6) == "hello ";
      assert SliceFrom("hello world", 11) == "";
    }
    assert Splice("hello foo", n[2]) == "hi foo" by {
      assert Slice("hello foo", 0, 0) == "";
      assert SliceFrom("hello foo", 5) == " foo";
    }
  }

  lemma GroupRebase()
    ensures WellFormed(GroupArena()) && AllCoded(Applied(GroupArena(), 1))
    ensures Rebased(GroupArena(), 1, [0])[0] == Action(Replace, 2, 3, Some("--"), [], None)
  {
    var n := GroupArena();
    GroupApplied();
    var offsets := Offsets([n[3], n[2]]);
    assert offsets == [Offset(6, 11, -2), Offset(0, 5, -3)];
    ShiftTwo(5, offsets[0], offsets[1]);
    ShiftTwo(6, offsets[0], offsets[1]);
    var n1 := ReverseChildren(n, 1);
    ReverseChildrenFacts(n, 1);
    assert Preorder(n1, [0]) == [0] by {
      PreorderSingle(n1, 0);
    }
    assert ApplyAlong(n1, [0], Rebaser(offsets))[0] == Rebase(n1[0], offsets) by {
      assert [0][..0] == [];
    }
  }
}
