/**
 * The snippet search on the repository's own test data: the four snippets
 * that `sortSnippets` orders for the text "ruby", and the two snippets that
 * `filterSnippets` narrows down.
 */
module SnippetScenarios {
  import opened Wrappers
  import opened Types
  import opened JsText
  import Sorting
  import Seqs
  import Snippets

  /** A text that lacks one of the characters of `sub` cannot include it. */
  lemma MissingChar(s: string, sub: string, k: int)
    requires 0 <= k < |sub| && sub[k] !in s
    ensures !Includes(s, sub)
  {
    IncludesAt(s, sub);
  }

  /** A text that ends with `sub` includes it. */
  lemma IncludesSuffix(p: string, sub: string)
    ensures Includes(p + sub, sub)
  {
    assert (p + sub)[|p|..|p| + |sub|] == sub;
    assert OccursAt(p + sub, sub, |p|);
    IncludesAt(p + sub, sub);
  }

  /** Lower-casing leaves a text without capitals as it is. */
  lemma LowerFixed(s: string)
    requires forall i :: 0 <= i < |s| ==> !('A' <= s[i] <= 'Z')
    ensures ToLowerCase(s) == s
  {
  }

  /** Strings with a common prefix compare as what follows the prefix. */
  lemma {:induction false} JsLessAfterPrefix(p: string, a: string, b: string)
    ensures JsLess(p + a, p + b) == JsLess(a, b)
  {
    if p != [] {
      assert p + a != [] && p + b != [];
      assert (p + a)[0] == p[0] == (p + b)[0];
      assert (p + a)[1..] == p[1..] + a && (p + b)[1..] == p[1..] + b;
      JsLessAfterPrefix(p[1..], a, b);
      assert JsLess(p + a, p + b) == JsLess((p + a)[1..], (p + b)[1..]);
    } else {
      assert p + a == a && p + b == b;
    }
  }

  const S1: Snippet := Snippet(1, "group ruby", "name rspec", Some("description rspec"), "")
  const S2: Snippet := Snippet(2, "group rails", "name rspec", Some("description ruby"), "")
  const S3: Snippet := Snippet(3, "group rspec", "name ruby", Some("description rails"), "")
  const S4: Snippet := Snippet(4, "group ruby", "name rails", Some("description rails"), "")

  lemma RubyLower()
    ensures ToLowerCase("ruby") == "ruby"
  {
    LowerFixed("ruby");
  }

  lemma GroupRubyMatches()
    ensures Snippets.Contains("group ruby", "ruby")
  {
    LowerFixed("group ruby");
    assert "group ruby" == "group " + "ruby";
    IncludesSuffix("group ", "ruby");
  }

  lemma NameRubyMatches()
    ensures Snippets.Contains("name ruby", "ruby")
  {
    LowerFixed("name ruby");
    assert "name ruby" == "name " + "ruby";
    IncludesSuffix("name ", "ruby");
  }

  /** A field without capitals that lacks a character of the text does not contain the text. */
  lemma Lacks(field: string, text: string, k: int)
    requires 0 <= k < |text| && text[k] !in field
    requires forall i :: 0 <= i < |field| ==> !('A' <= field[i] <= 'Z')
    ensures !Snippets.Contains(field, text)
  {
    LowerFixed(field);
    MissingChar(field, text, k);
  }

  /** "group ruby/name rails" sorts before "group ruby/name rspec". */
  lemma RailsBeforeRspec()
    ensures JsLess(Snippets.Key(S4), Snippets.Key(S1))
    ensures !JsLess(Snippets.Key(S1), Snippets.Key(S4))
  {
    var p := "group ruby/name r";
    assert Snippets.Key(S4) == p + "ails";
    assert Snippets.Key(S1) == p + "spec";
    JsLessAfterPrefix(p, "ails", "spec");
    JsLessAfterPrefix(p, "spec", "ails");
  }

  lemma GroupRailsMisses()
    ensures !Snippets.Contains("group rails", "ruby")
  {
    Lacks("group rails", "ruby", 2);
  }

  lemma GroupRspecMisses()
    ensures !Snippets.Contains("group rspec", "ruby")
  {
    Lacks("group rspec", "ruby", 2);
  }

  lemma NameRspecMisses()
    ensures !Snippets.Contains("name rspec", "ruby")
  {
    Lacks("name rspec", "ruby", 2);
  }

  lemma NameRailsMisses()
    ensures !Snippets.Contains("name rails", "ruby")
  {
    Lacks("name rails", "ruby", 2);
  }

  /** A group match goes before a snippet whose group does not match. */
  lemma GroupFirst(a: Snippet, b: Snippet, t: string)
    requires Snippets.Contains(a.group, t) && !Snippets.Contains(b.group, t)
    ensures Snippets.CompareSnippets(a, b, t) == -1
  {
  }

  /** Between two snippets whose groups do not match, a name match goes first. */
  lemma NameFirst(a: Snippet, b: Snippet, t: string)
    requires !Snippets.Contains(a.group, t) && !Snippets.Contains(b.group, t)
    requires !Snippets.Contains(a.name, t) && Snippets.Contains(b.name, t)
    ensures Snippets.CompareSnippets(a, b, t) == 1
  {
  }

  /** With the same matches, "group/name" decides. */
  lemma KeyDecides(a: Snippet, b: Snippet, t: string)
    requires Snippets.Contains(a.group, t) == Snippets.Contains(b.group, t)
    requires Snippets.Contains(a.name, t) == Snippets.Contains(b.name, t)
    requires JsLess(Snippets.Key(b), Snippets.Key(a)) && !JsLess(Snippets.Key(a), Snippets.Key(b))
    ensures Snippets.CompareSnippets(a, b, t) == 1
  {
  }

  lemma CompareS1S2()
    ensures Snippets.CompareSnippets(S1, S2, "ruby") == -1
  {
    GroupRubyMatches();
    GroupRailsMisses();
    GroupFirst(S1, S2, "ruby");
  }

  lemma CompareS1S3()
    ensures Snippets.CompareSnippets(S1, S3, "ruby") == -1
  {
    GroupRubyMatches();
    GroupRspecMisses();
    GroupFirst(S1, S3, "ruby");
  }

  lemma CompareS2S3()
    ensures Snippets.CompareSnippets(S2, S3, "ruby") == 1
  {
    GroupRailsMisses();
    GroupRspecMisses();
    NameRspecMisses();
    NameRubyMatches();
    NameFirst(S2, S3, "ruby");
  }

  lemma CompareS1S4()
    ensures Snippets.CompareSnippets(S1, S4, "ruby") == 1
  {
    GroupRubyMatches();
    NameRspecMisses();
    NameRailsMisses();
    RailsBeforeRspec();
    KeyDecides(S1, S4, "ruby");
  }

  /** Insertion sort on three elements when only the last two are out of order. */
  lemma SortThreeLast<T>(x1: T, x2: T, x3: T, cmp: (T, T) -> int)
    requires cmp(x1, x2) <= 0 && cmp(x1, x3) <= 0 && cmp(x2, x3) > 0
    ensures Sorting.SortBy([x1, x2, x3], cmp) == [x1, x3, x2]
  {
    assert [x1, x2, x3][..2] == [x1, x2];
    assert [x1, x2][..1] == [x1];
    assert [x1][..0] == [];
    assert Sorting.SortBy([x1], cmp) == [x1];
    assert Sorting.SortBy([x1, x2], cmp) == [x1, x2];
    assert Sorting.Insert(x3, [x2], cmp) == [x3, x2];
  }

  /** Sorting one more element inserts it into the sorted rest. */
  lemma SortBySnoc<T>(s: seq<T>, x: T, cmp: (T, T) -> int)
    ensures Sorting.SortBy(s + [x], cmp) == Sorting.Insert(x, Sorting.SortBy(s, cmp), cmp)
  {
    assert (s + [x])[..|s + [x]| - 1] == s;
  }

  /** An element that goes before the first one is inserted in front. */
  lemma InsertFront<T>(x: T, s: seq<T>, cmp: (T, T) -> int)
    requires s != [] && cmp(s[0], x) > 0
    ensures Sorting.Insert(x, s, cmp) == [x] + s
  {
  }

  lemma ConsThree<T>(a: T, b: T, c: T, d: T)
    ensures [a] + [b, c, d] == [a, b, c, d]
  {
  }

  lemma SnocThree<T>(a: T, b: T, c: T, d: T)
    ensures [a, b, c] + [d] == [a, b, c, d]
  {
  }

  /** Insertion sort on four elements, given the comparisons it makes. */
  lemma SortFour<T>(x1: T, x2: T, x3: T, x4: T, cmp: (T, T) -> int)
    requires cmp(x1, x2) <= 0 && cmp(x1, x3) <= 0 && cmp(x2, x3) > 0 && cmp(x1, x4) > 0
    ensures Sorting.SortBy([x1, x2, x3] + [x4], cmp) == [x4] + [x1, x3, x2]
  {
    SortBySnoc([x1, x2, x3], x4, cmp);
    SortThreeLast(x1, x2, x3, cmp);
    InsertFront(x4, [x1, x3, x2], cmp);
  }

  /** Sorting by "ruby" puts the two group matches first (rails before rspec), then the name match. */
  lemma SortSnippetsExample()
    ensures Sorting.SortBy([S1, S2, S3, S4], Snippets.SnippetOrder(ToLowerCase("ruby"))) == [S4, S1, S3, S2]
  {
    RubyLower();
    var cmp := Snippets.SnippetOrder("ruby");
    CompareS1S2();
    assert cmp(S1, S2) == -1;
    CompareS1S3();
    assert cmp(S1, S3) == -1;
    CompareS2S3();
    assert cmp(S2, S3) == 1;
    CompareS1S4();
    assert cmp(S1, S4) == 1;
    SortFour(S1, S2, S3, S4, cmp);
    SnocThree(S1, S2, S3, S4);
    ConsThree(S4, S1, S3, S2);
  }

  // ---------------------------------------------------------------- filterSnippets

  const F1: Snippet := Snippet(1, "group1", "name1", Some("description1"), "")
  const F2: Snippet := Snippet(2, "group2", "name2", Some("description2"), "")

  /** Filtering two elements when only the first satisfies the test. */
  lemma FilterFirstOfTwo<T>(a: T, b: T, p: T -> bool)
    requires p(a) && !p(b)
    ensures Seqs.Filter([a, b], p) == [a]
  {
    assert [a, b][1..] == [b] && [b][1..] == [];
  }

  /** Every text includes itself. */
  lemma IncludesSelf(s: string)
    ensures Includes(s, s)
  {
  }

  lemma Group2Lacks(text: string)
    requires text != [] && text[|text| - 1] == '1'
    ensures !Snippets.Contains("group2", text)
  {
    Lacks("group2", text, |text| - 1);
  }

  lemma Name2Lacks(text: string)
    requires text != [] && text[|text| - 1] == '1'
    ensures !Snippets.Contains("name2", text)
  {
    Lacks("name2", text, |text| - 1);
  }

  lemma Description2Lacks(text: string)
    requires text != [] && text[|text| - 1] == '1'
    ensures !Snippets.Contains("description2", text)
  {
    Lacks("description2", text, |text| - 1);
  }

  /** The second snippet has no "1" anywhere, so no text ending in "1" matches it. */
  lemma SecondMisses(text: string)
    requires text != [] && text[|text| - 1] == '1'
    ensures !Snippets.FilterMatch(F2, text)
  {
    Group2Lacks(text);
    Name2Lacks(text);
    Description2Lacks(text);
  }

  lemma FilterByGroupExample()
    ensures Snippets.FilterSnippets([F1, F2], "group1") == [F1]
  {
    LowerFixed("group1");
    IncludesSelf("group1");
    SecondMisses("group1");
    FilterFirstOfTwo(F1, F2, Snippets.FilterBy("group1"));
  }

  lemma FilterByNameExample()
    ensures Snippets.FilterSnippets([F1, F2], "name1") == [F1]
  {
    LowerFixed("name1");
    IncludesSelf("name1");
    SecondMisses("name1");
    FilterFirstOfTwo(F1, F2, Snippets.FilterBy("name1"));
  }

  /** A snippet whose present, non-empty description contains the text passes the filter. */
  lemma MatchByDescription(a: Snippet, t: string)
    requires a.description.Some? && a.description.value != [] && Snippets.Contains(a.description.value, t)
    ensures Snippets.FilterMatch(a, t)
  {
  }

  lemma Description1Matches()
    ensures Snippets.Contains("description1", "description1")
  {
    LowerFixed("description1");
    IncludesSelf("description1");
  }

  lemma FilterByDescriptionExample()
    ensures Snippets.FilterSnippets([F1, F2], "description1") == [F1]
  {
    LowerFixed("description1");
    Description1Matches();
    MatchByDescription(F1, "description1");
    SecondMisses("description1");
    FilterFirstOfTwo(F1, F2, Snippets.FilterBy("description1"));
  }
}
