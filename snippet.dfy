/**
 * Snippet search and composition: filtering and ordering the snippet list by
 * a search text, and wrapping a generated snippet body in the rewriter
 * template of its language.
 */
module Snippets {
  import opened Types
  import Seqs
  import Sorting
  import JsText

  // ---------------------------------------------------------------- search

  /** `field.toLowerCase().includes(lowerText)`. */
  predicate Contains(field: string, lowerText: string) {
    JsText.Includes(JsText.ToLowerCase(field), lowerText)
  }

  /** The test `filterSnippets` applies, for an already lower-cased text. */
  predicate FilterMatch(snippet: Snippet, lowerText: string) {
    Contains(snippet.group, lowerText) ||
    Contains(snippet.name, lowerText) ||
    (snippet.description.Some? && snippet.description.value != [] && Contains(snippet.description.value, lowerText))
  }

  function FilterBy(lowerText: string): Snippet -> bool {
    (snippet: Snippet) => FilterMatch(snippet, lowerText)
  }

  /** `filterSnippets`: the snippets whose group, name or description contains the text, ignoring case. */
  function FilterSnippets(snippets: seq<Snippet>, text: string): seq<Snippet> {
    Seqs.Filter(snippets, FilterBy(JsText.ToLowerCase(text)))
  }

  /** A snippet is kept exactly when its group, name or non-empty description contains the text. */
  lemma FilterSnippetsMembers(snippets: seq<Snippet>, text: string, x: Snippet)
    ensures x in FilterSnippets(snippets, text) <==>
      x in snippets &&
      (Contains(x.group, JsText.ToLowerCase(text)) || Contains(x.name, JsText.ToLowerCase(text)) ||
       (x.description.Some? && x.description.value != [] && Contains(x.description.value, JsText.ToLowerCase(text))))
  {
    Seqs.FilterMembers(snippets, FilterBy(JsText.ToLowerCase(text)), x);
  }

  /** An empty search text keeps every snippet, in order. */
  lemma FilterSnippetsEmptyText(snippets: seq<Snippet>)
    ensures FilterSnippets(snippets, "") == snippets
  {
    forall x | x in snippets ensures FilterBy("")(x) {
      JsText.IncludesEmpty(JsText.ToLowerCase(x.group));
    }
    Seqs.FilterAll(snippets, FilterBy(JsText.ToLowerCase("")));
  }

  /** Filtering a concatenation filters each part. */
  lemma FilterSnippetsAppend(a: seq<Snippet>, b: seq<Snippet>, text: string)
    ensures FilterSnippets(a + b, text) == FilterSnippets(a, text) + FilterSnippets(b, text)
  {
    Seqs.FilterAppend(a, b, FilterBy(JsText.ToLowerCase(text)));
  }

  // ---------------------------------------------------------------- ordering

  /** The string `${group}/${name}` the order falls back on. */
  function Key(snippet: Snippet): string {
    snippet.group + "/" + snippet.name
  }

  /** The comparator of `sortSnippets`, for an already lower-cased text. */
  function CompareSnippets(a: Snippet, b: Snippet, lowerText: string): int {
    if Contains(a.group, lowerText) && !Contains(b.group, lowerText) then -1
    else if !Contains(a.group, lowerText) && Contains(b.group, lowerText) then 1
    else if Contains(a.name, lowerText) && !Contains(b.name, lowerText) then -1
    else if !Contains(a.name, lowerText) && Contains(b.name, lowerText) then 1
    else if JsText.JsLess(Key(a), Key(b)) then -1
    else if JsText.JsLess(Key(b), Key(a)) then 1
    else 0
  }

  function SnippetOrder(lowerText: string): (Snippet, Snippet) -> int {
    (a: Snippet, b: Snippet) => CompareSnippets(a, b, lowerText)
  }

  /** The snippets the comparator cannot tell from `x`: the same two matches and the same "group/name" key. */
  predicate SameRank(a: Snippet, x: Snippet, lowerText: string) {
    Contains(a.group, lowerText) == Contains(x.group, lowerText) &&
    Contains(a.name, lowerText) == Contains(x.name, lowerText) &&
    Key(a) == Key(x)
  }

  function SameRankAs(x: Snippet, lowerText: string): Snippet -> bool {
    (a: Snippet) => SameRank(a, x, lowerText)
  }

  /**
   * `sortSnippets`: sorts the caller's array in place and returns it. The sort
   * is stable: snippets that tie keep their relative order.
   */
  method SortSnippets(snippets: array<Snippet>, text: string) returns (sorted: array<Snippet>)
    modifies snippets
    ensures sorted == snippets
    ensures snippets[..] == Sorting.SortBy(old(snippets[..]), SnippetOrder(JsText.ToLowerCase(text)))
    ensures forall x :: (Seqs.Filter(snippets[..], SameRankAs(x, JsText.ToLowerCase(text)))
                         == Seqs.Filter(old(snippets[..]), SameRankAs(x, JsText.ToLowerCase(text))))
  {
    ghost var before := snippets[..];
    var order := Sorting.SortBy(snippets[..], SnippetOrder(JsText.ToLowerCase(text)));
    forall i | 0 <= i < snippets.Length {
      snippets[i] := order[i];
    }
    assert snippets[..] == order;
    forall x ensures Seqs.Filter(order, SameRankAs(x, JsText.ToLowerCase(text)))
      == Seqs.Filter(before, SameRankAs(x, JsText.ToLowerCase(text)))
    {
      SortSnippetsStable(before, text, x);
    }
    sorted := snippets;
  }

  /** Two snippets tie exactly when they agree on both matches and on their "group/name" key. */
  lemma CompareSnippetsTie(a: Snippet, b: Snippet, lowerText: string)
    ensures CompareSnippets(a, b, lowerText) == 0 <==>
      Contains(a.group, lowerText) == Contains(b.group, lowerText) &&
      Contains(a.name, lowerText) == Contains(b.name, lowerText) &&
      Key(a) == Key(b)
  {
    if Key(a) == Key(b) {
      JsText.JsLessIrreflexive(Key(a));
    } else {
      JsText.JsLessTotal(Key(a), Key(b));
    }
  }

  /** The comparator is antisymmetric. */
  lemma CompareSnippetsFlip(a: Snippet, b: Snippet, lowerText: string)
    ensures CompareSnippets(a, b, lowerText) < 0 <==> CompareSnippets(b, a, lowerText) > 0
  {
    if JsText.JsLess(Key(a), Key(b)) {
      JsText.JsLessAsymmetric(Key(a), Key(b));
    }
  }

  /** The comparator is transitive. */
  lemma CompareSnippetsTransitive(a: Snippet, b: Snippet, c: Snippet, lowerText: string)
    requires CompareSnippets(a, b, lowerText) < 0 && CompareSnippets(b, c, lowerText) < 0
    ensures CompareSnippets(a, c, lowerText) < 0
  {
    if JsText.JsLess(Key(a), Key(b)) && JsText.JsLess(Key(b), Key(c)) {
      JsText.JsLessTransitive(Key(a), Key(b), Key(c));
    }
  }

  /** So the sort can rely on it. */
  lemma SnippetOrderConsistent(lowerText: string)
    ensures Sorting.Consistent(SnippetOrder(lowerText))
  {
    var cmp := SnippetOrder(lowerText);
    forall a, b ensures cmp(a, b) < 0 <==> cmp(b, a) > 0 {
      CompareSnippetsFlip(a, b, lowerText);
    }
    forall a, b, c | cmp(a, b) < 0 && cmp(b, c) < 0 ensures cmp(a, c) < 0 {
      CompareSnippetsTransitive(a, b, c, lowerText);
    }
  }

  /**
   * The sorted list puts the snippets whose group matches first; among those
   * with the same group match, the ones whose name matches; and otherwise
   * orders by "group/name".
   */
  lemma SortSnippetsOrder(snippets: seq<Snippet>, text: string, i: int, j: int)
    requires 0 <= i < j < |snippets|
    ensures var t := JsText.ToLowerCase(text);
      var r := Sorting.SortBy(snippets, SnippetOrder(t));
      (Contains(r[j].group, t) ==> Contains(r[i].group, t)) &&
      (Contains(r[i].group, t) == Contains(r[j].group, t) && Contains(r[j].name, t) ==> Contains(r[i].name, t)) &&
      (Contains(r[i].group, t) == Contains(r[j].group, t) && Contains(r[i].name, t) == Contains(r[j].name, t) ==>
         !JsText.JsLess(Key(r[j]), Key(r[i])))
  {
    var t := JsText.ToLowerCase(text);
    SnippetOrderConsistent(t);
    Sorting.SortBySorted(snippets, SnippetOrder(t));
    var r := Sorting.SortBy(snippets, SnippetOrder(t));
    assert SnippetOrder(t)(r[i], r[j]) <= 0;
  }

  /** Sorting keeps the snippets: the result is a permutation of the input. */
  lemma SortSnippetsPermutes(snippets: seq<Snippet>, text: string)
    ensures multiset(Sorting.SortBy(snippets, SnippetOrder(JsText.ToLowerCase(text)))) == multiset(snippets)
  {
  }

  /** Ties of the comparator are transitive: they are exactly the snippets of the same rank. */
  lemma SnippetTiesTransitive(lowerText: string)
    ensures Sorting.TiesTransitive(SnippetOrder(lowerText))
  {
    var cmp := SnippetOrder(lowerText);
    forall a, b, c | cmp(a, b) == 0 && cmp(b, c) == 0 ensures cmp(a, c) == 0 {
      CompareSnippetsTie(a, b, lowerText);
      CompareSnippetsTie(b, c, lowerText);
      CompareSnippetsTie(a, c, lowerText);
    }
  }

  /** The sort is stable: the snippets of any one rank come out in the order they went in. */
  lemma SortSnippetsStable(snippets: seq<Snippet>, text: string, x: Snippet)
    ensures var t := JsText.ToLowerCase(text);
      Seqs.Filter(Sorting.SortBy(snippets, SnippetOrder(t)), SameRankAs(x, t)) == Seqs.Filter(snippets, SameRankAs(x, t))
  {
    var t := JsText.ToLowerCase(text);
    var cmp := SnippetOrder(t);
    SnippetOrderConsistent(t);
    SnippetTiesTransitive(t);
    Sorting.SortByStable(snippets, cmp, x);
    forall y ensures Sorting.TiesWith(cmp, x)(y) == SameRankAs(x, t)(y) {
      CompareSnippetsTie(y, x, t);
    }
    Seqs.FilterAgree(snippets, Sorting.TiesWith(cmp, x), SameRankAs(x, t));
    Seqs.FilterAgree(Sorting.SortBy(snippets, cmp), Sorting.TiesWith(cmp, x), SameRankAs(x, t));
  }

  // ---------------------------------------------------------------- composition

  /** The parameters of the Ruby template; an empty version means the condition is left out. */
  datatype RubySnippetParams = RubySnippetParams(
    filePattern: string,
    rubyVersion: string,
    gemVersion: string,
    snippet: string,
    parser: string)

  /** The parameters of the JavaScript template. */
  datatype JavascriptSnippetParams = JavascriptSnippetParams(
    filePattern: string,
    nodeVersion: string,
    npmVersion: string,
    snippet: string,
    parser: string)

  /** The package name of "name version": up to the first space, or empty when there is none. */
  function PackageName(spec: string): string {
    JsText.Substring(spec, 0, JsText.IndexOf(spec, ' '))
  }

  /** The version of "name version": after the first space, or all of it when there is none. */
  function PackageVersion(spec: string): string {
    JsText.Substring(spec, JsText.IndexOf(spec, ' ') + 1, |spec|)
  }

  /** The name and version split the specification at its first space. */
  lemma PackageSplit(spec: string)
    ensures ' ' in spec ==> PackageName(spec) + " " + PackageVersion(spec) == spec && ' ' !in PackageName(spec)
    ensures ' ' !in spec ==> PackageName(spec) == [] && PackageVersion(spec) == spec
  {
    var i := JsText.IndexOf(spec, ' ');
    if ' ' in spec {
      assert spec == spec[..i] + [' '] + spec[i + 1..];
    }
  }

  /** `snippet.replace(/\n/g, "\n    ")`: every line after the first is indented by four more spaces. */
  function Indent(snippet: string): string {
    JsText.ReplaceAll(snippet, '\n', "\n    ")
  }

  /** Takes the four spaces after each newline away again. */
  function Unindent(s: string): string {
    if s == [] then []
    else if |s| >= 5 && s[..5] == "\n    " then "\n" + Unindent(s[5..])
    else [s[0]] + Unindent(s[1..])
  }

  /** Indenting loses nothing: unindenting gives the snippet back. */
  lemma {:induction false} IndentRoundTrip(snippet: string)
    ensures Unindent(Indent(snippet)) == snippet
  {
    if snippet != [] {
      IndentRoundTrip(snippet[1..]);
      var rest := Indent(snippet[1..]);
      if snippet[0] == '\n' {
        var t := "\n    " + rest;
        assert Indent(snippet) == t;
        assert t[..5] == "\n    " && t[5..] == rest;
      } else {
        var t := [snippet[0]] + rest;
        assert Indent(snippet) == t;
        assert t[0] != '\n';
        assert t[1..] == rest;
      }
    }
  }

  /** Every newline of the indented snippet is followed by four spaces. */
  lemma {:induction false} IndentNewlines(snippet: string, i: int)
    requires 0 <= i < |Indent(snippet)| && Indent(snippet)[i] == '\n'
    ensures i + 5 <= |Indent(snippet)| && Indent(snippet)[i + 1..i + 5] == "    "
  {
    var rest := Indent(snippet[1..]);
    if snippet[0] == '\n' {
      var t := "\n    " + rest;
      assert Indent(snippet) == t;
      if i >= 5 {
        assert t[i] == rest[i - 5];
        IndentNewlines(snippet[1..], i - 5);
        assert t[i + 1..i + 5] == rest[i - 4..i];
      } else {
        assert i == 0;
        assert t[1..5] == "    ";
      }
    } else {
      var t := [snippet[0]] + rest;
      assert Indent(snippet) == t;
      assert i != 0;
      assert t[i] == rest[i - 1];
      IndentNewlines(snippet[1..], i - 1);
      assert t[i + 1..i + 5] == rest[i..i + 4];
    }
  }

  /** The generated body: the indented snippet on its own lines, or nothing for an empty snippet. */
  function Body(snippet: string): string {
    if snippet != [] then "    " + Indent(snippet) + "\n" else []
  }

  function RubyHeader(parser: string): string {
    "Synvert::Rewriter.new 'group', 'name' do\n  configure(parser: Synvert::" + JsText.ToUpperCase(parser) + "_PARSER)\n"
  }

  function IfRubyLine(rubyVersion: string): string {
    "  if_ruby '" + rubyVersion + "'\n"
  }

  function IfGemLine(name: string, version: string): string {
    "  if_gem '" + name + "', '" + version + "'\n"
  }

  function WithinFilesLine(filePattern: string): string {
    "  within_files '" + filePattern + "' do\n"
  }

  /** A line that is present only when its condition is. */
  function When(present: bool, line: string): string {
    if present then line else []
  }

  /** The Ruby rewriter the generated snippet is wrapped in. */
  function RubySnippet(p: RubySnippetParams): string {
    RubyHeader(p.parser) +
    When(p.rubyVersion != [], IfRubyLine(p.rubyVersion)) +
    When(p.gemVersion != [], IfGemLine(PackageName(p.gemVersion), PackageVersion(p.gemVersion))) +
    WithinFilesLine(p.filePattern) + Body(p.snippet) + "  end\n" + "end"
  }

  /** `composeRubyGeneratedSnippet`: appends the lines of the template one by one. */
  method ComposeRubyGeneratedSnippet(p: RubySnippetParams) returns (generatedSnippet: string)
    ensures generatedSnippet == RubySnippet(p)
  {
    generatedSnippet := RubyHeader(p.parser);
    if p.rubyVersion != [] {
      generatedSnippet := generatedSnippet + IfRubyLine(p.rubyVersion);
    }
    assert generatedSnippet == RubyHeader(p.parser) + When(p.rubyVersion != [], IfRubyLine(p.rubyVersion));
    ghost var g1 := generatedSnippet;
    if p.gemVersion != [] {
      var index := JsText.IndexOf(p.gemVersion, ' ');
      var name := JsText.Substring(p.gemVersion, 0, index);
      var version := JsText.Substring(p.gemVersion, index + 1, |p.gemVersion|);
      generatedSnippet := generatedSnippet + IfGemLine(name, version);
    }
    assert generatedSnippet == g1 + When(p.gemVersion != [], IfGemLine(PackageName(p.gemVersion), PackageVersion(p.gemVersion)));
    generatedSnippet := generatedSnippet + WithinFilesLine(p.filePattern);
    ghost var beforeBody := generatedSnippet;
    if p.snippet != [] {
      generatedSnippet := generatedSnippet + "    ";
      generatedSnippet := generatedSnippet + Indent(p.snippet);
      generatedSnippet := generatedSnippet + "\n";
    }
    assert generatedSnippet == beforeBody + Body(p.snippet);
    generatedSnippet := generatedSnippet + "  end\n";
    generatedSnippet := generatedSnippet + "end";
    assert generatedSnippet == beforeBody + Body(p.snippet) + "  end\n" + "end";
    assert beforeBody == RubyHeader(p.parser) +
      When(p.rubyVersion != [], IfRubyLine(p.rubyVersion)) +
      When(p.gemVersion != [], IfGemLine(PackageName(p.gemVersion), PackageVersion(p.gemVersion))) +
      WithinFilesLine(p.filePattern);
    RubySnippetParts(p);
  }

  /** The template's parts, in order. */
  lemma RubySnippetParts(p: RubySnippetParams)
    ensures RubySnippet(p) == RubyHeader(p.parser) +
    When(p.rubyVersion != [], IfRubyLine(p.rubyVersion)) +
    When(p.gemVersion != [], IfGemLine(PackageName(p.gemVersion), PackageVersion(p.gemVersion))) +
    WithinFilesLine(p.filePattern) + Body(p.snippet) + "  end\n" + "end"
  {}

  /** The two halves of a concatenation. */
  lemma AppendSplit(a: string, b: string)
    ensures (a + b)[..|a|] == a && (a + b)[|a|..] == b && (a + b)[|a + b| - |b|..] == b
  {}

  lemma StartsWithAppend(s: string, prefix: string, rest: string)
    requires JsText.StartsWith(s, prefix)
    ensures JsText.StartsWith(s + rest, prefix)
  {
    assert (s + rest)[..|prefix|] == s[..|prefix|];
  }

  /** The ruby line is recognized by its first letters, which no later line shares. */
  lemma RubyLinesDiffer(rubyVersion: string, name: string, version: string, filePattern: string, rest: string)
    ensures JsText.StartsWith(IfRubyLine(rubyVersion) + rest, "  if_ruby '")
    ensures !JsText.StartsWith(IfGemLine(name, version) + rest, "  if_ruby '")
    ensures !JsText.StartsWith(WithinFilesLine(filePattern) + rest, "  if_ruby '")
    ensures JsText.StartsWith(IfGemLine(name, version) + rest, "  if_gem '")
    ensures !JsText.StartsWith(WithinFilesLine(filePattern) + rest, "  if_gem '")
  {
    StartsWithAppend(IfRubyLine(rubyVersion), "  if_ruby '", rest);
    StartsWithAppend(IfGemLine(name, version), "  if_gem '", rest);
    assert (IfGemLine(name, version) + rest)[5] == 'g';
    assert (WithinFilesLine(filePattern) + rest)[2] == 'w';
  }

  /**
   * The layout of the Ruby rewriter: the header; an `if_ruby` line right
   * after it exactly when a Ruby version is given; an `if_gem` line next
   * exactly when a gem is given; and the body, indented, before the closing
   * `end`s.
   */
  lemma RubySnippetLayout(p: RubySnippetParams)
    ensures var r := RubySnippet(p);
      var h := RubyHeader(p.parser);
      var afterRuby := |h| + (if p.rubyVersion != [] then |p.rubyVersion| + 13 else 0);
      JsText.StartsWith(r, h) &&
      (JsText.StartsWith(r[|h|..], "  if_ruby '") <==> p.rubyVersion != []) &&
      afterRuby <= |r| &&
      (JsText.StartsWith(r[afterRuby..], "  if_gem '") <==> p.gemVersion != []) &&
      JsText.EndsWith(r, Body(p.snippet) + "  end\n" + "end")
  {
    var r := RubySnippet(p);
    var h := RubyHeader(p.parser);
    var name, version := PackageName(p.gemVersion), PackageVersion(p.gemVersion);
    var rubyLine := When(p.rubyVersion != [], IfRubyLine(p.rubyVersion));
    var gemLine := When(p.gemVersion != [], IfGemLine(name, version));
    var tail := Body(p.snippet) + "  end\n" + "end";
    var rest := WithinFilesLine(p.filePattern) + tail;
    var afterGem := gemLine + rest;
    RubySnippetNested(p);
    AppendSplit(h, rubyLine + afterGem);
    AppendSplit(h + rubyLine, afterGem);
    AppendSplit(h + rubyLine + gemLine + WithinFilesLine(p.filePattern), tail);
    RubyGemLineAt(p.gemVersion, name, version, p.filePattern, tail);
    RubyLineAt(p.rubyVersion, afterGem);
  }

  /** The Ruby template, grouped from the right: header, then the rest. */
  lemma RubySnippetNested(p: RubySnippetParams)
    ensures var h := RubyHeader(p.parser);
      var rubyLine := When(p.rubyVersion != [], IfRubyLine(p.rubyVersion));
      var gemLine := When(p.gemVersion != [], IfGemLine(PackageName(p.gemVersion), PackageVersion(p.gemVersion)));
      var within := WithinFilesLine(p.filePattern);
      var tail := Body(p.snippet) + "  end\n" + "end";
      var r := RubySnippet(p);
      r == h + (rubyLine + (gemLine + (within + tail))) &&
      r == (h + rubyLine) + (gemLine + (within + tail)) &&
      r == (h + rubyLine + gemLine + within) + tail
  {
    var h := RubyHeader(p.parser);
    var rubyLine := When(p.rubyVersion != [], IfRubyLine(p.rubyVersion));
    var gemLine := When(p.gemVersion != [], IfGemLine(PackageName(p.gemVersion), PackageVersion(p.gemVersion)));
    var within := WithinFilesLine(p.filePattern);
    var body := Body(p.snippet);
    var tail := body + "  end\n" + "end";
    RubySnippetParts(p);
    Seqs.AppendAssoc(h + rubyLine + gemLine + within + body, "  end\n", "end");
    Seqs.AppendAssoc(h + rubyLine + gemLine + within, body, "  end\n" + "end");
    Seqs.AppendAssoc(body, "  end\n", "end");
    Seqs.AppendAssoc(h + rubyLine + gemLine, within, tail);
    Seqs.AppendAssoc(h + rubyLine, gemLine, within + tail);
    Seqs.AppendAssoc(h, rubyLine, gemLine + (within + tail));
  }

  /** After the header: an `if_ruby` line exactly when a Ruby version is given. */
  lemma RubyLineAt(rubyVersion: string, afterGem: string)
    requires !JsText.StartsWith(afterGem, "  if_ruby '")
    ensures JsText.StartsWith(When(rubyVersion != [], IfRubyLine(rubyVersion)) + afterGem, "  if_ruby '") <==> rubyVersion != []
  {
    if rubyVersion != [] {
      StartsWithAppend(IfRubyLine(rubyVersion), "  if_ruby '", afterGem);
    } else {
      assert When(rubyVersion != [], IfRubyLine(rubyVersion)) + afterGem == afterGem;
    }
  }

  /** After the Ruby line: an `if_gem` line exactly when a gem is given, and no `if_ruby` line. */
  lemma RubyGemLineAt(gemVersion: string, name: string, version: string, filePattern: string, tail: string)
    ensures var afterGem := When(gemVersion != [], IfGemLine(name, version)) + (WithinFilesLine(filePattern) + tail);
      (JsText.StartsWith(afterGem, "  if_gem '") <==> gemVersion != []) &&
      !JsText.StartsWith(afterGem, "  if_ruby '")
  {
    var rest := WithinFilesLine(filePattern) + tail;
    RubyLinesDiffer("", name, version, filePattern, tail);
    if gemVersion != [] {
      RubyLinesDiffer("", name, version, filePattern, rest);
    } else {
      assert When(gemVersion != [], IfGemLine(name, version)) + rest == rest;
    }
  }

  function JavascriptHeader(parser: string): string {
    "new Synvert.Rewriter(\"group\", \"name\", () => {\n  configure({ parser: Synvert.Parser." + JsText.ToUpperCase(parser) + " });\n"
  }

  function IfNodeLine(nodeVersion: string): string {
    "  ifNode(\"" + nodeVersion + "\");\n"
  }

  function IfNpmLine(name: string, version: string): string {
    "  ifNpm(\"" + name + "\", \"" + version + "\");\n"
  }

  function WithinFilesCall(filePattern: string): string {
    "  withinFiles(\"" + filePattern + "\", () => {\n"
  }

  /** The JavaScript rewriter the generated snippet is wrapped in. */
  function JavascriptSnippet(p: JavascriptSnippetParams): string {
    JavascriptHeader(p.parser) +
    When(p.nodeVersion != [], IfNodeLine(p.nodeVersion)) +
    When(p.npmVersion != [], IfNpmLine(PackageName(p.npmVersion), PackageVersion(p.npmVersion))) +
    WithinFilesCall(p.filePattern) + Body(p.snippet) + "  });\n" + "});"
  }

  /** The template's parts, in order. */
  lemma JavascriptSnippetParts(p: JavascriptSnippetParams)
    ensures JavascriptSnippet(p) == JavascriptHeader(p.parser) +
    When(p.nodeVersion != [], IfNodeLine(p.nodeVersion)) +
    When(p.npmVersion != [], IfNpmLine(PackageName(p.npmVersion), PackageVersion(p.npmVersion))) +
    WithinFilesCall(p.filePattern) + Body(p.snippet) + "  });\n" + "});"
  {}

  /** `composeJavascriptGeneratedSnippet`: appends the lines of the template one by one. */
  method ComposeJavascriptGeneratedSnippet(p: JavascriptSnippetParams) returns (generatedSnippet: string)
    ensures generatedSnippet == JavascriptSnippet(p)
  {
    generatedSnippet := JavascriptHeader(p.parser);
    if p.nodeVersion != [] {
      generatedSnippet := generatedSnippet + IfNodeLine(p.nodeVersion);
    }
    assert generatedSnippet == JavascriptHeader(p.parser) + When(p.nodeVersion != [], IfNodeLine(p.nodeVersion));
    ghost var g1 := generatedSnippet;
    if p.npmVersion != [] {
      var index := JsText.IndexOf(p.npmVersion, ' ');
      var name := JsText.Substring(p.npmVersion, 0, index);
      var version := JsText.Substring(p.npmVersion, index + 1, |p.npmVersion|);
      generatedSnippet := generatedSnippet + IfNpmLine(name, version);
    }
    assert generatedSnippet == g1 + When(p.npmVersion != [], IfNpmLine(PackageName(p.npmVersion), PackageVersion(p.npmVersion)));
    generatedSnippet := generatedSnippet + WithinFilesCall(p.filePattern);
    ghost var beforeBody := generatedSnippet;
    if p.snippet != [] {
      generatedSnippet := generatedSnippet + "    ";
      generatedSnippet := generatedSnippet + Indent(p.snippet);
      generatedSnippet := generatedSnippet + "\n";
    }
    assert generatedSnippet == beforeBody + Body(p.snippet);
    generatedSnippet := generatedSnippet + "  });\n";
    generatedSnippet := generatedSnippet + "});";
    assert generatedSnippet == beforeBody + Body(p.snippet) + "  });\n" + "});";
    assert beforeBody == JavascriptHeader(p.parser) +
      When(p.nodeVersion != [], IfNodeLine(p.nodeVersion)) +
      When(p.npmVersion != [], IfNpmLine(PackageName(p.npmVersion), PackageVersion(p.npmVersion))) +
      WithinFilesCall(p.filePattern);
    JavascriptSnippetParts(p);
  }

  lemma JavascriptLinesDiffer(nodeVersion: string, name: string, version: string, filePattern: string, rest: string)
    ensures JsText.StartsWith(IfNodeLine(nodeVersion) + rest, "  ifNode(\"")
    ensures !JsText.StartsWith(IfNpmLine(name, version) + rest, "  ifNode(\"")
    ensures !JsText.StartsWith(WithinFilesCall(filePattern) + rest, "  ifNode(\"")
    ensures JsText.StartsWith(IfNpmLine(name, version) + rest, "  ifNpm(\"")
    ensures !JsText.StartsWith(WithinFilesCall(filePattern) + rest, "  ifNpm(\"")
  {
    StartsWithAppend(IfNodeLine(nodeVersion), "  ifNode(\"", rest);
    StartsWithAppend(IfNpmLine(name, version), "  ifNpm(\"", rest);
    assert (IfNpmLine(name, version) + rest)[5] == 'p';
    assert (WithinFilesCall(filePattern) + rest)[2] == 'w';
  }

  /** The layout of the JavaScript rewriter, line by line as for Ruby. */
  lemma JavascriptSnippetLayout(p: JavascriptSnippetParams)
    ensures var r := JavascriptSnippet(p);
      var h := JavascriptHeader(p.parser);
      var afterNode := |h| + (if p.nodeVersion != [] then |p.nodeVersion| + 14 else 0);
      JsText.StartsWith(r, h) &&
      (JsText.StartsWith(r[|h|..], "  ifNode(\"") <==> p.nodeVersion != []) &&
      afterNode <= |r| &&
      (JsText.StartsWith(r[afterNode..], "  ifNpm(\"") <==> p.npmVersion != []) &&
      JsText.EndsWith(r, Body(p.snippet) + "  });\n" + "});")
  {
    var h := JavascriptHeader(p.parser);
    var name, version := PackageName(p.npmVersion), PackageVersion(p.npmVersion);
    var nodeLine := When(p.nodeVersion != [], IfNodeLine(p.nodeVersion));
    var npmLine := When(p.npmVersion != [], IfNpmLine(name, version));
    var tail := Body(p.snippet) + "  });\n" + "});";
    var afterNpm := npmLine + (WithinFilesCall(p.filePattern) + tail);
    JavascriptSnippetNested(p);
    AppendSplit(h, nodeLine + afterNpm);
    AppendSplit(h + nodeLine, afterNpm);
    AppendSplit(h + nodeLine + npmLine + WithinFilesCall(p.filePattern), tail);
    JavascriptNpmLineAt(p.npmVersion, name, version, p.filePattern, tail);
    JavascriptNodeLineAt(p.nodeVersion, afterNpm);
  }

  /** The JavaScript template, grouped three ways. */
  lemma JavascriptSnippetNested(p: JavascriptSnippetParams)
    ensures var h := JavascriptHeader(p.parser);
      var nodeLine := When(p.nodeVersion != [], IfNodeLine(p.nodeVersion));
      var npmLine := When(p.npmVersion != [], IfNpmLine(PackageName(p.npmVersion), PackageVersion(p.npmVersion)));
      var within := WithinFilesCall(p.filePattern);
      var tail := Body(p.snippet) + "  });\n" + "});";
      var r := JavascriptSnippet(p);
      r == h + (nodeLine + (npmLine + (within + tail))) &&
      r == (h + nodeLine) + (npmLine + (within + tail)) &&
      r == (h + nodeLine + npmLine + within) + tail
  {
    var h := JavascriptHeader(p.parser);
    var nodeLine := When(p.nodeVersion != [], IfNodeLine(p.nodeVersion));
    var npmLine := When(p.npmVersion != [], IfNpmLine(PackageName(p.npmVersion), PackageVersion(p.npmVersion)));
    var within := WithinFilesCall(p.filePattern);
    var body := Body(p.snippet);
    var tail := body + "  });\n" + "});";
    JavascriptSnippetParts(p);
    Seqs.AppendAssoc(h + nodeLine + npmLine + within + body, "  });\n", "});");
    Seqs.AppendAssoc(h + nodeLine + npmLine + within, body, "  });\n" + "});");
    Seqs.AppendAssoc(body, "  });\n", "});");
    Seqs.AppendAssoc(h + nodeLine + npmLine, within, tail);
    Seqs.AppendAssoc(h + nodeLine, npmLine, within + tail);
    Seqs.AppendAssoc(h, nodeLine, npmLine + (within + tail));
  }

  /** After the header: an `ifNode` call exactly when a Node version is given. */
  lemma JavascriptNodeLineAt(nodeVersion: string, afterNpm: string)
    requires !JsText.StartsWith(afterNpm, "  ifNode(\"")
    ensures JsText.StartsWith(When(nodeVersion != [], IfNodeLine(nodeVersion)) + afterNpm, "  ifNode(\"") <==> nodeVersion != []
  {
    if nodeVersion != [] {
      StartsWithAppend(IfNodeLine(nodeVersion), "  ifNode(\"", afterNpm);
    } else {
      assert When(nodeVersion != [], IfNodeLine(nodeVersion)) + afterNpm == afterNpm;
    }
  }

  /** After the Node line: an `ifNpm` call exactly when a package is given, and no `ifNode` call. */
  lemma JavascriptNpmLineAt(npmVersion: string, name: string, version: string, filePattern: string, tail: string)
    ensures var afterNpm := When(npmVersion != [], IfNpmLine(name, version)) + (WithinFilesCall(filePattern) + tail);
      (JsText.StartsWith(afterNpm, "  ifNpm(\"") <==> npmVersion != []) &&
      !JsText.StartsWith(afterNpm, "  ifNode(\"")
  {
    var rest := WithinFilesCall(filePattern) + tail;
    JavascriptLinesDiffer("", name, version, filePattern, tail);
    if npmVersion != [] {
      JavascriptLinesDiffer("", name, version, filePattern, rest);
    } else {
      assert When(npmVersion != [], IfNpmLine(name, version)) + rest == rest;
    }
  }

  /** The languages a snippet is written for. */
  datatype Language = Ruby | Javascript | Typescript | Css | Less | Sass | Scss

  /** The snippet service of a language: Ruby has its own, every other language uses the JavaScript one. */
  function BaseUrlByLanguage(language: Language): (url: string)
    ensures url == "https://api-ruby.synvert.net" <==> language == Ruby
    ensures url == "https://api-ruby.synvert.net" || url == "https://api-javascript.synvert.net"
  {
    if language == Ruby then "https://api-ruby.synvert.net" else "https://api-javascript.synvert.net"
  }
}
