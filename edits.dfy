/**
 * What applying edits means. A list of edits sorted by position and not
 * overlapping describes one simultaneous rewrite of a text (`Weave`). The
 * engine's two ways of carrying it out are proved to produce that rewrite:
 * splicing the whole sorted list from the last edit to the first
 * (`replaceTestResult`), and splicing a run of edits and then shifting the
 * others by the run's offsets (`replaceTestAction`).
 */
module EditAlgebra {
  import opened Wrappers
  import opened Types
  import opened Actions
  import Seqs
  import JsText

  /** The edits lie inside `[p, q]`, each one starting at or after the end of the one before. */
  predicate Ordered(edits: seq<Action>, p: int, q: int)
    decreases |edits|
  {
    if edits == [] then p <= q
    else p <= edits[0].start <= edits[0].end <= q && Ordered(edits[1..], edits[0].end, q)
  }

  /** Sorted, non-overlapping edits inside the stretch `[p, q]` of `s`. */
  predicate Fits(s: string, edits: seq<Action>, p: int, q: int) {
    0 <= p && q <= |s| && Ordered(edits, p, q)
  }

  /** The same facts as quantified statements about every edit and every pair. */
  lemma {:induction false} FitsAll(s: string, edits: seq<Action>, p: int, q: int)
    requires Fits(s, edits, p, q)
    ensures forall k :: 0 <= k < |edits| ==> p <= edits[k].start <= edits[k].end <= q
    ensures forall i, j :: 0 <= i < j < |edits| ==> edits[i].end <= edits[j].start
    decreases |edits|
  {
    if edits != [] {
      var rest := edits[1..];
      FitsAll(s, rest, edits[0].end, q);
      forall k | 0 <= k < |edits| ensures p <= edits[k].start <= edits[k].end <= q {
        if k > 0 {
          assert edits[k] == rest[k - 1];
        }
      }
      forall i, j | 0 <= i < j < |edits| ensures edits[i].end <= edits[j].start {
        assert edits[j] == rest[j - 1];
        if i > 0 {
          assert edits[i] == rest[i - 1];
        }
      }
    }
  }

  lemma FitsWiden(s: string, edits: seq<Action>, p: int, m: int, q: int)
    requires Fits(s, edits, m, q) && 0 <= p <= m
    ensures Fits(s, edits, p, q)
  {
  }

  /** Cutting fitting edits before `b` leaves two fitting runs that meet at `b`'s first start. */
  lemma {:induction false} FitsCut(s: string, a: seq<Action>, b: seq<Action>, p: int, q: int)
    requires Fits(s, a + b, p, q) && b != []
    ensures Fits(s, a, p, b[0].start) && Fits(s, b, b[0].start, q)
    decreases |a|
  {
    if a == [] {
      assert a + b == b;
    } else {
      assert (a + b)[0] == a[0] && (a + b)[1..] == a[1..] + b;
      FitsCut(s, a[1..], b, a[0].end, q);
    }
  }

  /** A fitting run also fits from its first start to its last end. */
  lemma {:induction false} FitsTight(s: string, edits: seq<Action>, p: int, q: int)
    requires Fits(s, edits, p, q) && edits != []
    ensures Fits(s, edits, edits[0].start, edits[|edits| - 1].end)
    ensures edits[|edits| - 1].end <= q
    decreases |edits|
  {
    var rest := edits[1..];
    if rest != [] {
      FitsTight(s, rest, edits[0].end, q);
      assert rest[|rest| - 1] == edits[|edits| - 1];
    }
  }

  /** The text `s[p..q]` with every edit's range replaced by its code: all edits at once. */
  function Weave(s: string, edits: seq<Action>, p: int, q: int): string
    requires Fits(s, edits, p, q)
    decreases |edits|
  {
    if edits == [] then s[p..q]
    else s[p..edits[0].start] + CodeText(edits[0].newCode) + Weave(s, edits[1..], edits[0].end, q)
  }

  lemma WeaveSplitFront(s: string, edits: seq<Action>, p: int, m: int, q: int)
    requires Fits(s, edits, m, q) && 0 <= p <= m
    ensures Fits(s, edits, p, q)
    ensures Weave(s, edits, p, q) == s[p..m] + Weave(s, edits, m, q)
  {
    if edits != [] {
      assert s[p..edits[0].start] == s[p..m] + s[m..edits[0].start];
    } else {
      assert s[p..q] == s[p..m] + s[m..q];
    }
  }

  lemma {:induction false} WeaveConcat(s: string, a: seq<Action>, b: seq<Action>, p: int, m: int, q: int)
    requires Fits(s, a, p, m) && Fits(s, b, m, q)
    ensures Fits(s, a + b, p, q)
    ensures Weave(s, a + b, p, q) == Weave(s, a, p, m) + Weave(s, b, m, q)
    decreases |a|
  {
    if a == [] {
      assert a + b == b;
      WeaveSplitFront(s, b, p, m, q);
    } else {
      var e := a[0];
      assert (a + b)[0] == e && (a + b)[1..] == a[1..] + b;
      WeaveConcat(s, a[1..], b, e.end, m, q);
      var head := s[p..e.start] + CodeText(e.newCode);
      assert Weave(s, a + b, p, q) == head + Weave(s, a[1..] + b, e.end, q);
      assert Weave(s, a, p, m) == head + Weave(s, a[1..], e.end, m);
      Seqs.AppendAssoc(head, Weave(s, a[1..], e.end, m), Weave(s, b, m, q));
    }
  }

  /** The rewrite of `[p, q]` depends only on those characters. */
  lemma {:induction false} WeaveFrame(s: string, t: string, edits: seq<Action>, p: int, q: int)
    requires Fits(s, edits, p, q) && q <= |t| && s[p..q] == t[p..q]
    ensures Fits(t, edits, p, q) && Weave(s, edits, p, q) == Weave(t, edits, p, q)
    decreases |edits|
  {
    if edits != [] {
      var e := edits[0];
      assert s[p..e.start] == s[p..q][..e.start - p] == t[p..e.start];
      assert s[e.end..q] == s[p..q][e.end - p..] == t[e.end..q];
      WeaveFrame(s, t, edits[1..], e.end, q);
    }
  }

  /** An edit moved by `d`. */
  function Moved(e: Action, d: int): (r: Action)
    ensures r.end - r.start == e.end - e.start && r.newCode == e.newCode
  {
    e.(start := e.start + d, end := e.end + d)
  }

  function MovedAll(edits: seq<Action>, d: int): (r: seq<Action>)
    ensures |r| == |edits| && forall k :: 0 <= k < |edits| ==> r[k] == Moved(edits[k], d)
  {
    seq(|edits|, k requires 0 <= k < |edits| => Moved(edits[k], d))
  }

  lemma MovedSlices(s: string, t: string, e: Action, p: int, q: int, d: int)
    requires 0 <= p <= e.start <= e.end <= q <= |s| && 0 <= p + d && q + d <= |t|
    requires t[p + d..q + d] == s[p..q]
    ensures t[p + d..e.start + d] == s[p..e.start]
    ensures t[e.end + d..q + d] == s[e.end..q]
  {
    assert t[p + d..e.start + d] == t[p + d..q + d][..e.start - p];
    assert s[p..e.start] == s[p..q][..e.start - p];
    assert t[e.end + d..q + d] == t[p + d..q + d][e.end - p..];
    assert s[e.end..q] == s[p..q][e.end - p..];
  }

  /** Moving the text and the edits by the same amount moves the rewrite. */
  lemma {:induction false} WeaveShift(s: string, t: string, edits: seq<Action>, p: int, q: int, d: int)
    requires Fits(s, edits, p, q) && 0 <= p + d && q + d <= |t| && t[p + d..q + d] == s[p..q]
    ensures Fits(t, MovedAll(edits, d), p + d, q + d)
    ensures Weave(t, MovedAll(edits, d), p + d, q + d) == Weave(s, edits, p, q)
    decreases |edits|
  {
    var m := MovedAll(edits, d);
    if edits != [] {
      var e := edits[0];
      assert m[0] == Moved(e, d);
      assert m[1..] == MovedAll(edits[1..], d);
      MovedSlices(s, t, e, p, q, d);
      WeaveShift(s, t, edits[1..], e.end, q, d);
      assert Ordered(m, p + d, q + d);
      assert Weave(t, m, p + d, q + d) ==
        t[p + d..e.start + d] + CodeText(e.newCode) + Weave(t, m[1..], e.end + d, q + d);
    } else {
      assert m == [];
    }
  }

  lemma SpliceAllSnoc(s: string, edits: seq<Action>, e: Action)
    ensures SpliceAll(s, edits + [e]) == Splice(SpliceAll(s, edits), e)
  {
    assert (edits + [e])[..|edits|] == edits;
  }

  lemma SpliceFront(s: string, e: Action, w: string)
    requires 0 <= e.start <= e.end <= |s|
    ensures Splice(s[..e.end] + w, e) == s[..e.start] + CodeText(e.newCode) + w
  {
    var t := s[..e.end] + w;
    SpliceInBounds(t, e);
    assert t[..e.start] == s[..e.start];
    assert t[e.end..] == w;
  }

  lemma BatchFront(s: string, edits: seq<Action>)
    requires edits != []
    ensures Batch(s, edits) == Splice(Batch(s, edits[1..]), edits[0])
  {
    assert Seqs.Reverse(edits) == Seqs.Reverse(edits[1..]) + [edits[0]];
    SpliceAllSnoc(s, Seqs.Reverse(edits[1..]), edits[0]);
  }

  /**
   * Splicing sorted, non-overlapping edits from the last to the first
   * rewrites every range at once: `replaceTestResult` is the simultaneous rewrite.
   */
  lemma {:induction false} BatchIsWeave(s: string, edits: seq<Action>)
    requires Fits(s, edits, 0, |s|)
    ensures Batch(s, edits) == Weave(s, edits, 0, |s|)
    decreases |edits|
  {
    if edits != [] {
      var e := edits[0];
      var rest := edits[1..];
      BatchFront(s, edits);
      FitsWiden(s, rest, 0, e.end, |s|);
      BatchIsWeave(s, rest);
      WeaveSplitFront(s, rest, 0, e.end, |s|);
      SpliceFront(s, e, Weave(s, rest, e.end, |s|));
    }
  }

  /** How much longer an edit makes the text. */
  function GrowthOf(e: Action): int {
    |CodeText(e.newCode)| - (e.end - e.start)
  }

  function Growth(edits: seq<Action>): int
    decreases |edits|
  {
    if edits == [] then 0 else GrowthOf(edits[0]) + Growth(edits[1..])
  }

  lemma {:induction false} GrowthSnoc(edits: seq<Action>, e: Action)
    ensures Growth(edits + [e]) == Growth(edits) + GrowthOf(e)
    decreases |edits|
  {
    if edits == [] {
      assert [e][1..] == [];
    } else {
      assert (edits + [e])[1..] == edits[1..] + [e];
      GrowthSnoc(edits[1..], e);
    }
  }

  lemma {:induction false} WeaveLength(s: string, edits: seq<Action>, p: int, q: int)
    requires Fits(s, edits, p, q)
    ensures |Weave(s, edits, p, q)| == q - p + Growth(edits)
    decreases |edits|
  {
    if edits != [] {
      WeaveLength(s, edits[1..], edits[0].end, q);
    }
  }

  /** Every action shifted by the offsets, as the rebase callback does to each action it visits. */
  function RebaseAll(edits: seq<Action>, offsets: seq<Offset>): (r: seq<Action>)
    ensures |r| == |edits| && forall k :: 0 <= k < |edits| ==> r[k] == Rebase(edits[k], offsets)
  {
    seq(|edits|, k requires 0 <= k < |edits| => Rebase(edits[k], offsets))
  }

  /** The offsets of edits taken last edit first, the order in which a group's reversed children are spliced. */
  function OffsetsBackward(edits: seq<Action>): seq<Offset>
    requires AllCoded(edits)
    decreases |edits|
  {
    if edits == [] then [] else [OffsetOf(edits[|edits| - 1])] + OffsetsBackward(edits[..|edits| - 1])
  }

  lemma {:induction false} OffsetsOfReverse(edits: seq<Action>)
    requires AllCoded(edits)
    ensures AllCoded(Seqs.Reverse(edits))
    ensures Offsets(Seqs.Reverse(edits)) == OffsetsBackward(edits)
    decreases |edits|
  {
    var r := Seqs.Reverse(edits);
    assert AllCoded(r);
    if edits != [] {
      var init := edits[..|edits| - 1];
      Seqs.ReverseLast(edits);
      OffsetsOfReverse(init);
      var o := Offsets(r);
      assert o == [o[0]] + o[1..];
      assert o[1..] == Offsets(Seqs.Reverse(init));
    }
  }

  /**
   * A position at or after the last of sorted edits moves by their total
   * growth when the offsets are taken last edit first: each shift keeps it at
   * or after the start of the edit just undone, so at or after the end of the
   * one before.
   */
  lemma {:induction false} ShiftAbove(x: int, edits: seq<Action>)
    requires AllCoded(edits)
    requires forall i, j :: 0 <= i < j < |edits| ==> edits[i].end <= edits[j].start
    requires forall k :: 0 <= k < |edits| ==> edits[k].start <= edits[k].end
    requires edits != [] ==> edits[|edits| - 1].end <= x
    ensures ShiftPosition(x, OffsetsBackward(edits)) == x + Growth(edits)
    decreases |edits|
  {
    if edits != [] {
      var n := |edits| - 1;
      var init := edits[..n];
      var last := edits[n];
      var o := OffsetsBackward(edits);
      assert o[0] == OffsetOf(last) && o[1..] == OffsetsBackward(init);
      assert ShiftPosition(x, o) == ShiftPosition(x + GrowthOf(last), o[1..]);
      assert n > 0 ==> init[n - 1].end <= last.start;
      ShiftAbove(x + GrowthOf(last), init);
      assert edits == init + [last];
      GrowthSnoc(init, last);
    }
  }

  /** A position before the end of every edit is not moved by their offsets. */
  lemma {:induction false} ShiftBelow(x: int, edits: seq<Action>)
    requires AllCoded(edits)
    requires forall k :: 0 <= k < |edits| ==> x < edits[k].end
    ensures ShiftPosition(x, OffsetsBackward(edits)) == x
    decreases |edits|
  {
    if edits != [] {
      ShiftBelow(x, edits[..|edits| - 1]);
    }
  }

  /** Every edit of `a` ends before the first edit of `g` ends. */
  predicate EndsBefore(a: seq<Action>, g: seq<Action>)
    requires g != []
  {
    forall i :: 0 <= i < |a| ==> a[i].end < g[0].end
  }

  /** An edit ending before the first applied edit ends is not moved by the rebase. */
  lemma RebaseBefore(e: Action, g: seq<Action>)
    requires g != [] && AllCoded(g) && e.start <= e.end < g[0].end
    requires forall i, j :: 0 <= i < j < |g| ==> g[i].end <= g[j].start
    requires forall k :: 0 <= k < |g| ==> g[k].start <= g[k].end
    ensures Rebase(e, OffsetsBackward(g)) == e
  {
    forall k | 0 <= k < |g| ensures e.end < g[k].end {
      assert k == 0 || g[0].end <= g[k].start;
    }
    ShiftBelow(e.start, g);
    ShiftBelow(e.end, g);
  }

  lemma RebaseBy(e: Action, o: seq<Offset>, d: int)
    requires ShiftPosition(e.start, o) == e.start + d && ShiftPosition(e.end, o) == e.end + d
    ensures Rebase(e, o) == Moved(e, d)
  {
  }

  /** An edit starting after the last applied edit moves by their total growth. */
  lemma RebaseAfter(e: Action, g: seq<Action>)
    requires g != [] && AllCoded(g) && g[|g| - 1].end <= e.start <= e.end
    requires forall i, j :: 0 <= i < j < |g| ==> g[i].end <= g[j].start
    requires forall k :: 0 <= k < |g| ==> g[k].start <= g[k].end
    ensures Rebase(e, OffsetsBackward(g)) == Moved(e, Growth(g))
  {
    ShiftAbove(e.start, g);
    ShiftAbove(e.end, g);
    RebaseBy(e, OffsetsBackward(g), Growth(g));
  }

  /** The rebase leaves the edits before the applied ones alone and moves those after them. */
  lemma RebaseSides(s: string, a: seq<Action>, g: seq<Action>, b: seq<Action>, lo: int, hi: int)
    requires g != [] && AllCoded(g) && EndsBefore(a, g)
    requires Fits(s, a, 0, lo) && Fits(s, g, lo, hi) && Fits(s, b, g[|g| - 1].end, |s|)
    ensures RebaseAll(a + b, OffsetsBackward(g)) == a + MovedAll(b, Growth(g))
  {
    FitsAll(s, a, 0, lo);
    FitsAll(s, g, lo, hi);
    FitsAll(s, b, g[|g| - 1].end, |s|);
    var o := OffsetsBackward(g);
    RebaseAllAppend(a, b, o);
    RebaseAllBefore(a, g);
    RebaseAllAfter(b, g);
  }

  lemma RebaseAllAppend(a: seq<Action>, b: seq<Action>, o: seq<Offset>)
    ensures RebaseAll(a + b, o) == RebaseAll(a, o) + RebaseAll(b, o)
  {
    var lhs, rhs := RebaseAll(a + b, o), RebaseAll(a, o) + RebaseAll(b, o);
    forall k | 0 <= k < |lhs| ensures lhs[k] == rhs[k] {
      if k < |a| {
        assert (a + b)[k] == a[k];
      } else {
        assert (a + b)[k] == b[k - |a|];
      }
    }
  }

  lemma RebaseAllBefore(a: seq<Action>, g: seq<Action>)
    requires g != [] && AllCoded(g) && EndsBefore(a, g)
    requires forall k :: 0 <= k < |a| ==> a[k].start <= a[k].end
    requires forall i, j :: 0 <= i < j < |g| ==> g[i].end <= g[j].start
    requires forall k :: 0 <= k < |g| ==> g[k].start <= g[k].end
    ensures RebaseAll(a, OffsetsBackward(g)) == a
  {
    var lhs := RebaseAll(a, OffsetsBackward(g));
    forall k | 0 <= k < |a| ensures lhs[k] == a[k] {
      RebaseBefore(a[k], g);
    }
  }

  lemma RebaseAllAfter(b: seq<Action>, g: seq<Action>)
    requires g != [] && AllCoded(g)
    requires forall k :: 0 <= k < |b| ==> g[|g| - 1].end <= b[k].start <= b[k].end
    requires forall i, j :: 0 <= i < j < |g| ==> g[i].end <= g[j].start
    requires forall k :: 0 <= k < |g| ==> g[k].start <= g[k].end
    ensures RebaseAll(b, OffsetsBackward(g)) == MovedAll(b, Growth(g))
  {
    var lhs, rhs := RebaseAll(b, OffsetsBackward(g)), MovedAll(b, Growth(g));
    forall k | 0 <= k < |b| ensures lhs[k] == rhs[k] {
      RebaseAfter(b[k], g);
    }
  }

  /** Splicing a run of sorted edits changes only the stretch from its first start to its last end. */
  lemma BatchOfRun(s: string, g: seq<Action>, lo: int, hi: int)
    requires g != [] && lo == g[0].start && hi == g[|g| - 1].end && Fits(s, g, lo, hi)
    ensures Fits(s, g, 0, |s|)
    ensures Batch(s, g) == s[..lo] + Weave(s, g, lo, hi) + s[hi..]
    ensures |Weave(s, g, lo, hi)| == hi - lo + Growth(g)
  {
    WeaveConcat(s, g, [], lo, hi, |s|);
    assert g + [] == g;
    WeaveSplitFront(s, g, 0, lo, |s|);
    BatchIsWeave(s, g);
    WeaveLength(s, g, lo, hi);
  }

  /** The text after a run has been spliced, with the remaining edits rebased, rewrites as the three parts. */
  lemma RebasedWeave(s: string, t: string, a: seq<Action>, w: string, b: seq<Action>, lo: int, hi: int, d: int)
    requires Fits(s, a, 0, lo) && Fits(s, b, hi, |s|) && lo <= hi
    requires t == s[..lo] + w + s[hi..] && |w| == hi - lo + d
    ensures Fits(t, a + MovedAll(b, d), 0, |t|)
    ensures Batch(t, a + MovedAll(b, d)) == Weave(s, a, 0, lo) + w + Weave(s, b, hi, |s|)
  {
    var b' := MovedAll(b, d);
    var wa, wb := Weave(s, a, 0, lo), Weave(s, b, hi, |s|);
    RebasedFront(s, t, a, w, lo, hi);
    RebasedBack(s, t, b, w, lo, hi, d);
    RebasedMiddle(s, t, w, lo, hi, d);
    WeaveSplitFront(t, b', lo, hi + d, |t|);
    assert Weave(t, b', lo, |t|) == w + wb;
    WeaveConcat(t, a, b', 0, lo, |t|);
    assert Weave(t, a + b', 0, |t|) == wa + (w + wb);
    BatchIsWeave(t, a + b');
    Seqs.AppendAssoc(wa, w, wb);
  }

  /** The spliced run sits where the run was. */
  lemma RebasedMiddle(s: string, t: string, w: string, lo: int, hi: int, d: int)
    requires 0 <= lo <= hi <= |s| && t == s[..lo] + w + s[hi..] && |w| == hi - lo + d
    ensures |t| == |s| + d && t[lo..hi + d] == w
  {
    var x := s[..lo] + w;
    assert |x| == hi + d && t == x + s[hi..];
    assert t[lo..hi + d] == x[lo..];
  }

  /** The edits before the run see the same text before and after it is spliced. */
  lemma RebasedFront(s: string, t: string, a: seq<Action>, w: string, lo: int, hi: int)
    requires Fits(s, a, 0, lo) && lo <= hi <= |s| && t == s[..lo] + w + s[hi..]
    ensures Fits(t, a, 0, lo) && Weave(t, a, 0, lo) == Weave(s, a, 0, lo)
  {
    assert t[0..lo] == s[..lo] == s[0..lo];
    WeaveFrame(s, t, a, 0, lo);
  }

  /** The edits after the run, moved by its growth, see the same text, moved. */
  lemma RebasedBack(s: string, t: string, b: seq<Action>, w: string, lo: int, hi: int, d: int)
    requires Fits(s, b, hi, |s|) && 0 <= lo <= hi && t == s[..lo] + w + s[hi..] && |w| == hi - lo + d
    ensures Fits(t, MovedAll(b, d), hi + d, |t|)
    ensures Weave(t, MovedAll(b, d), hi + d, |t|) == Weave(s, b, hi, |s|)
  {
    var x := s[..lo] + w;
    assert |x| == hi + d && t == x + s[hi..];
    assert t[hi + d..] == s[hi..];
    assert t[hi + d..|s| + d] == t[hi + d..] && s[hi..|s|] == s[hi..];
    WeaveShift(s, t, b, hi, |s|, d);
  }

  /** All the edits at once, cut into the edits before a run, the run and the edits after it. */
  lemma BatchThreeParts(s: string, a: seq<Action>, g: seq<Action>, b: seq<Action>, lo: int, hi: int)
    requires Fits(s, a, 0, lo) && Fits(s, g, lo, hi) && Fits(s, b, hi, |s|)
    ensures Fits(s, a + g + b, 0, |s|)
    ensures Batch(s, a + g + b) == Weave(s, a, 0, lo) + Weave(s, g, lo, hi) + Weave(s, b, hi, |s|)
  {
    WeaveConcat(s, g, b, lo, hi, |s|);
    WeaveConcat(s, a, g + b, 0, lo, |s|);
    assert a + (g + b) == a + g + b;
    BatchIsWeave(s, a + g + b);
  }

  /** Cutting fitting edits into the part before a run, the run, and the part after it. */
  lemma FitsThree(s: string, edits: seq<Action>, i: int, j: int)
    requires Fits(s, edits, 0, |s|) && 0 <= i < j <= |edits|
    ensures Fits(s, edits[..i], 0, edits[i].start)
    ensures Fits(s, edits[i..j], edits[i].start, edits[j - 1].end)
    ensures Fits(s, edits[j..], edits[j - 1].end, |s|)
  {
    assert edits == edits[..i] + edits[i..];
    FitsCut(s, edits[..i], edits[i..], 0, |s|);
    var rest := edits[i..];
    if j < |edits| {
      assert rest == edits[i..j] + edits[j..];
      FitsCut(s, edits[i..j], edits[j..], edits[i].start, |s|);
      FitsTight(s, edits[i..j], edits[i].start, edits[j].start);
      FitsWiden(s, edits[j..], edits[j - 1].end, edits[j].start, |s|);
    } else {
      assert edits[i..j] == rest;
      FitsTight(s, rest, edits[i].start, |s|);
      assert edits[j..] == [];
    }
  }

  /**
   * Applying a run of sorted, non-overlapping edits on its own and then
   * rebasing every other edit by the run's offsets, as `replaceTestAction`
   * does, leaves the remaining edits describing the same final text as
   * applying all of them at once. The one extra condition: every edit before
   * the run must end before the run's first edit ends, which only matters
   * when that first edit is an insertion at the very position where an
   * earlier edit ends (see `RebaseBoundary`).
   */
  lemma ApplyThenRebase(s: string, edits: seq<Action>, i: int, j: int)
    requires Fits(s, edits, 0, |s|) && 0 <= i < j <= |edits|
    requires AllCoded(edits[i..j]) && EndsBefore(edits[..i], edits[i..j])
    ensures Batch(Batch(s, edits[i..j]), RebaseAll(edits[..i] + edits[j..], OffsetsBackward(edits[i..j])))
      == Batch(s, edits)
  {
    var a, g, b := edits[..i], edits[i..j], edits[j..];
    var lo, hi := edits[i].start, edits[j - 1].end;
    assert g[0] == edits[i] && g[|g| - 1] == edits[j - 1];
    FitsThree(s, edits, i, j);
    RebaseSides(s, a, g, b, lo, hi);
    BatchOfRun(s, g, lo, hi);
    RebasedWeave(s, Batch(s, g), a, Weave(s, g, lo, hi), b, lo, hi, Growth(g));
    BatchThreeParts(s, a, g, b, lo, hi);
    Seqs.SliceThree(edits, i, j);
  }

  /**
   * Why `ApplyThenRebase` needs `EndsBefore`: on "abc", replacing "a" by "X"
   * and inserting "Y" at position 1 gives "XYbc" at once, but applying the
   * insertion on its own moves the end of the replacement past the inserted
   * text (the rebase shifts every position at or after an offset's end), so
   * the remaining replacement swallows the "Y" and the result is "Xbc".
   */
  lemma RebaseBoundary()
    ensures var s := "abc";
      var a := Action(Replace, 0, 1, Some("X"), [], None);
      var b := Action(Replace, 1, 1, Some("Y"), [], None);
      Fits(s, [a, b], 0, |s|) && !EndsBefore([a], [b])
      && Batch(s, [a, b]) == "XYbc"
      && Batch(Batch(s, [b]), RebaseAll([a], OffsetsBackward([b]))) == "Xbc"
  {
    var s := "abc";
    var a := Action(Replace, 0, 1, Some("X"), [], None);
    var b := Action(Replace, 1, 1, Some("Y"), [], None);
    assert [a, b][1..] == [b] && [b][1..] == [];
    assert Fits(s, [a, b], 0, |s|);
    var sb := Splice(s, b);
    assert sb == "aYbc" by {
      assert JsText.Slice(s, 0, 1) == "a" && JsText.SliceFrom(s, 1) == "bc";
    }
    BatchOne(s, b);
    assert Batch(s, [a, b]) == Splice(sb, a) by {
      BatchFront(s, [a, b]);
    }
    assert Splice(sb, a) == "XYbc" by {
      assert JsText.Slice(sb, 0, 0) == "" && JsText.SliceFrom(sb, 1) == "Ybc";
    }
    var o := OffsetsBackward([b]);
    assert o == [Offset(1, 1, 1)] by {
      assert [b][..0] == [];
      assert o == [OffsetOf(b)] + OffsetsBackward([]);
    }
    var a' := Action(Replace, 0, 2, Some("X"), [], None);
    assert Rebase(a, o) == a' by {
      assert ShiftPosition(0, o) == ShiftPosition(0, []) == 0;
      assert ShiftPosition(1, o) == ShiftPosition(2, []) == 2;
    }
    assert RebaseAll([a], o) == [a'];
    BatchOne(sb, a');
    assert Splice(sb, a') == "Xbc" by {
      assert JsText.Slice(sb, 0, 0) == "" && JsText.SliceFrom(sb, 2) == "bc";
    }
  }

  lemma BatchOne(s: string, e: Action)
    ensures Batch(s, [e]) == Splice(s, e)
  {
    assert Seqs.Reverse([e]) == Seqs.Reverse([e][1..]) + [e];
    assert [e][1..] == [];
    SpliceAllSnoc(s, [], e);
    assert [] + [e] == [e];
  }

  /** The edits `replaceTestAction` applies, in text order: a group's children, or the action itself. */
  function Run(nodes: seq<Action>, action: ActionRef): (r: seq<Action>)
    requires WellFormed(nodes) && action < |nodes|
    ensures r != [] || nodes[action].kind == Group
  {
    if nodes[action].kind == Group then NodesOf(nodes, nodes[action].actions) else [nodes[action]]
  }

  /**
   * `replaceTestAction` splices the run last edit first and records the
   * offsets in that order: what it splices is the batch of the run, and its
   * offsets are the run's offsets taken backward.
   */
  lemma AppliedIsRun(nodes: seq<Action>, action: ActionRef)
    requires WellFormed(nodes) && action < |nodes|
    ensures Applied(nodes, action) == Seqs.Reverse(Run(nodes, action))
    ensures forall s :: SpliceAll(s, Applied(nodes, action)) == Batch(s, Run(nodes, action))
    ensures AllCoded(Applied(nodes, action)) <==> AllCoded(Run(nodes, action))
    ensures AllCoded(Run(nodes, action)) ==> Offsets(Applied(nodes, action)) == OffsetsBackward(Run(nodes, action))
  {
    var run := Run(nodes, action);
    var app := Applied(nodes, action);
    var r := Seqs.Reverse(run);
    if nodes[action].kind == Group {
      var children := nodes[action].actions;
      forall k | 0 <= k < |app| ensures app[k] == r[k] {
        assert Seqs.Reverse(children)[k] == children[|children| - 1 - k];
      }
    } else {
      assert r == Seqs.Reverse(run[1..]) + [run[0]];
    }
    assert app == r;
    Seqs.ReverseMembers(run);
    assert AllCoded(app) ==> AllCoded(run) by {
      if AllCoded(app) {
        forall k | 0 <= k < |run| ensures run[k].newCode.Some? {
          assert run[k] == app[|run| - 1 - k];
        }
      }
    }
    if AllCoded(run) {
      OffsetsOfReverse(run);
    }
  }

  /** References to plain actions, none of them a group. */
  predicate Leaves(nodes: seq<Action>, refs: seq<ActionRef>)
    requires ValidRefs(nodes, refs)
  {
    forall k :: 0 <= k < |refs| ==> nodes[refs[k]].kind != Group
  }

  lemma {:induction false} PreorderOfLeaves(nodes: seq<Action>, refs: seq<ActionRef>)
    requires WellFormed(nodes) && ValidRefs(nodes, refs) && Leaves(nodes, refs)
    ensures Preorder(nodes, refs) == refs
    decreases |refs|
  {
    if refs != [] {
      PreorderOfLeaves(nodes, refs[..|refs| - 1]);
    }
  }

  /**
   * When the test result lists distinct plain actions, `replaceTestAction`
   * leaves each of them rebased by the run's offsets taken backward, which
   * is the rebase `ApplyThenRebase` is about.
   */
  lemma RebasedLeaves(nodes: seq<Action>, action: ActionRef, refs: seq<ActionRef>, others: seq<ActionRef>)
    requires WellFormed(nodes) && action < |nodes| && ValidRefs(nodes, refs) && Leaves(nodes, refs)
    requires forall j, k :: 0 <= j < k < |refs| ==> refs[j] != refs[k]
    requires AllCoded(Run(nodes, action))
    requires forall k :: 0 <= k < |others| ==> others[k] in refs
    ensures AllCoded(Applied(nodes, action)) && ValidRefs(nodes, others)
    ensures NodesOf(Rebased(nodes, action, refs), others)
      == RebaseAll(NodesOf(nodes, others), OffsetsBackward(Run(nodes, action)))
  {
    AppliedIsRun(nodes, action);
    ReverseChildrenFacts(nodes, action);
    var n1 := ReverseChildren(nodes, action);
    forall k | 0 <= k < |refs| ensures n1[refs[k]] == nodes[refs[k]] {
      assert nodes[refs[k]].kind != Group;
    }
    assert Leaves(n1, refs);
    PreorderOfLeaves(n1, refs);
    var f := Rebaser(Offsets(Applied(nodes, action)));
    var after := Rebased(nodes, action, refs);
    assert after == ApplyAlong(n1, refs, f);
    var lhs := NodesOf(after, others);
    var rhs := RebaseAll(NodesOf(nodes, others), OffsetsBackward(Run(nodes, action)));
    forall k | 0 <= k < |others| ensures lhs[k] == rhs[k] {
      var x := others[k];
      var j :| 0 <= j < |refs| && refs[j] == x;
      ApplyAlongOnce(n1, refs, f, x);
      assert n1[x] == nodes[x];
    }
    assert lhs == rhs;
  }
}
