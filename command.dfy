/**
 * The pure helpers of the command layer: classifying what a command wrote on
 * stderr, stripping the Ruby resolver banner from stdout, joining a binary
 * path, building the argument lists for the synvert command lines, renaming
 * JSON keys, and folding the edits for a renamed file into its rename result.
 */
module Commands {
  import opened Wrappers
  import opened Types
  import Seqs
  import JsText

  // ---------------------------------------------------------------- stderr

  /** Prefixes of stderr output that the tools print without having failed. */
  const BenignPrefixes: seq<string> := [
    "warning:",
    "Cloning into ",
    "error: pathspec '.' did not match any file(s) known to git",
    "npm WARN",
    "Updated 0 paths from the index"
  ]

  /** Whether a command's stderr reports a real failure. */
  predicate IsRealError(stderr: string) {
    stderr != [] &&
    !JsText.StartsWith(stderr, "warning:") &&
    !JsText.StartsWith(stderr, "Cloning into ") &&
    !JsText.StartsWith(stderr, "error: pathspec '.' did not match any file(s) known to git") &&
    !JsText.StartsWith(stderr, "npm WARN") &&
    !JsText.StartsWith(stderr, "Updated 0 paths from the index")
  }

  /** The stderr is a real error exactly when it is non-empty and starts with none of the benign prefixes. */
  lemma IsRealErrorPrefixes(stderr: string)
    ensures IsRealError(stderr) <==> stderr != [] && forall k :: 0 <= k < |BenignPrefixes| ==> !JsText.StartsWith(stderr, BenignPrefixes[k])
  {
    assert BenignPrefixes[0] == "warning:";
    assert BenignPrefixes[1] == "Cloning into ";
    assert BenignPrefixes[2] == "error: pathspec '.' did not match any file(s) known to git";
    assert BenignPrefixes[3] == "npm WARN";
    assert BenignPrefixes[4] == "Updated 0 paths from the index";
  }

  /** A stderr that starts with a benign prefix stays benign whatever is written after it. */
  lemma BenignExtends(stderr: string, more: string)
    requires stderr != [] && !IsRealError(stderr)
    ensures !IsRealError(stderr + more)
  {
    IsRealErrorPrefixes(stderr);
    IsRealErrorPrefixes(stderr + more);
    var k :| 0 <= k < |BenignPrefixes| && JsText.StartsWith(stderr, BenignPrefixes[k]);
    var p := BenignPrefixes[k];
    assert (stderr + more)[..|p|] == stderr[..|p|];
  }

  /** The stderr values of the command-result tests. */
  lemma IsRealErrorExamples()
    ensures !IsRealError("")
    ensures IsRealError("hello world")
    ensures !IsRealError("warning: hello world")
    ensures !IsRealError("npm WARN deprecated")
  {
    assert JsText.StartsWith("warning: hello world", "warning:");
    assert JsText.StartsWith("npm WARN deprecated", "npm WARN");
    var e := "hello world";
    assert e[..8][0] != "warning:"[0];
    assert e[..8][0] != "npm WARN"[0];
  }

  // ---------------------------------------------------------------- stdout

  /** The characters that the regular-expression wildcard `.` does not match. */
  predicate LineTerminator(c: char) {
    c == '\n' || c == '\r' || c == '\U{2028}' || c == '\U{2029}'
  }

  /** The literal words of the banner that newer Ruby resolvers print first. */
  const BannerWords: string := "Resolving dependencies"

  /** The pattern `^Resolving dependencies...\n` matches at the start of `s`: the words, three wildcard characters and a newline. */
  predicate BannerAt(s: string) {
    |s| >= 26 && s[..22] == BannerWords &&
    !LineTerminator(s[22]) && !LineTerminator(s[23]) && !LineTerminator(s[24]) && s[25] == '\n'
  }

  /** `stdout.replace(/^Resolving dependencies...\n/, "")`. */
  function StripOutput(stdout: string): (r: string)
    ensures |r| == |stdout| || |r| == |stdout| - 26
    ensures r == stdout[|stdout| - |r|..]
  {
    if BannerAt(stdout) then stdout[26..] else stdout
  }

  /** Output that does not start with the banner is returned as it is. */
  lemma StripOutputPlain(stdout: string)
    requires !JsText.StartsWith(stdout, BannerWords)
    ensures StripOutput(stdout) == stdout
  {
  }

  /** The banner, with any three wildcard characters, is removed, and only once. */
  lemma StripOutputBanner(a: char, b: char, c: char, rest: string)
    requires !LineTerminator(a) && !LineTerminator(b) && !LineTerminator(c)
    ensures StripOutput(BannerWords + [a, b, c, '\n'] + rest) == rest
  {
    var s := BannerWords + [a, b, c, '\n'] + rest;
    assert s[..22] == BannerWords;
    assert s[26..] == rest;
  }

  /** Two banners in a row lose only the first one. */
  lemma StripOutputOnce(rest: string)
    ensures StripOutput("Resolving dependencies...\n" + "Resolving dependencies...\n" + rest)
         == "Resolving dependencies...\n" + rest
  {
    StripOutputBanner('.', '.', '.', "Resolving dependencies...\n" + rest);
    assert "Resolving dependencies...\n" + "Resolving dependencies...\n" + rest
        == BannerWords + ['.', '.', '.', '\n'] + ("Resolving dependencies...\n" + rest);
  }

  /** A newline among the three wildcard positions stops the match. */
  lemma StripOutputEarlyNewline(rest: string)
    ensures StripOutput("Resolving dependencies.\n..\n" + rest) == "Resolving dependencies.\n..\n" + rest
  {
    var s := "Resolving dependencies.\n..\n" + rest;
    assert s[23] == '\n';
  }

  // ---------------------------------------------------------------- paths

  /** `Boolean(part)` on an optional string: present and non-empty. */
  predicate Truthy(part: Option<string>) {
    part.Some? && part.value != []
  }

  /** `args.filter(Boolean)`, as the strings it keeps. */
  function Present(args: seq<Option<string>>): (r: seq<string>)
    ensures forall k :: 0 <= k < |r| ==> r[k] != []
  {
    if args == [] then []
    else (if Truthy(args[0]) then [args[0].value] else []) + Present(args[1..])
  }

  /** `parts.join(sep)`. */
  function JoinWith(parts: seq<string>, sep: string): string {
    if parts == [] then []
    else if |parts| == 1 then parts[0]
    else parts[0] + sep + JoinWith(parts[1..], sep)
  }

  /** `join(...args)`: the present, non-empty parts separated by "/". */
  function Join(args: seq<Option<string>>): string {
    JoinWith(Present(args), "/")
  }

  /** The command to run: `command` inside the directory `binPath`, when one is given. */
  function FullCommand(command: string, binPath: Option<string>): string {
    Join([binPath, Some(command)])
  }

  /** Without a binary directory the command is run by its bare name. */
  lemma FullCommandWithoutBinPath(command: string)
    ensures FullCommand(command, None) == command
    ensures FullCommand(command, Some("")) == command
  {
    assert Present([None, Some(command)]) == Present([Some(""), Some(command)]) == Present([Some(command)]);
  }

  /** With a binary directory the command is looked up inside it. */
  lemma FullCommandWithBinPath(command: string, binPath: string)
    requires command != [] && binPath != []
    ensures FullCommand(command, Some(binPath)) == binPath + "/" + command
  {
    var args := [Some(binPath), Some(command)];
    assert args[1..] == [Some(command)];
    assert Present([Some(command)]) == [command];
    assert Present(args) == [binPath, command];
    var parts := [binPath, command];
    assert parts[1..] == [command];
    assert JoinWith(parts, "/") == binPath + "/" + JoinWith([command], "/");
  }

  lemma {:induction false} PresentAppend(a: seq<Option<string>>, b: seq<Option<string>>)
    ensures Present(a + b) == Present(a) + Present(b)
  {
    if a == [] {
      assert a + b == b;
    } else {
      assert (a + b)[1..] == a[1..] + b;
      PresentAppend(a[1..], b);
    }
  }

  lemma {:induction false} JoinWithAppend(p: seq<string>, q: seq<string>, sep: string)
    requires p != [] && q != []
    ensures JoinWith(p + q, sep) == JoinWith(p, sep) + sep + JoinWith(q, sep)
  {
    if |p| == 1 {
      assert (p + q)[1..] == q;
    } else {
      assert (p + q)[1..] == p[1..] + q;
      JoinWithAppend(p[1..], q, sep);
    }
  }

  /** Joining two argument lists joins their joins, without a separator next to a list that contributes nothing. */
  lemma JoinAppend(a: seq<Option<string>>, b: seq<Option<string>>)
    ensures Join(a + b) ==
      if Present(a) == [] then Join(b)
      else if Present(b) == [] then Join(a)
      else Join(a) + "/" + Join(b)
  {
    PresentAppend(a, b);
    if Present(a) == [] {
      assert Present(a) + Present(b) == Present(b);
    } else if Present(b) == [] {
      assert Present(a) + Present(b) == Present(a);
    } else {
      JoinWithAppend(Present(a), Present(b), "/");
    }
  }

  /** Parts that are absent or empty never show up in the path. */
  lemma {:induction false} JoinIgnoresEmpty(a: seq<Option<string>>, b: seq<Option<string>>)
    ensures Join(a + [None] + b) == Join(a + b)
    ensures Join(a + [Some("")] + b) == Join(a + b)
  {
    PresentAppend(a + [None], b);
    PresentAppend(a, [None]);
    PresentAppend(a + [Some("")], b);
    PresentAppend(a, [Some("")]);
    PresentAppend(a, b);
    assert Present([None]) == [] + Present([]);
    assert Present([Some("")]) == [] + Present([]);
    assert Present(a + [None]) == Present(a);
    assert Present(a + [Some("")]) == Present(a);
  }

  // ---------------------------------------------------------------- command lines

  /** What the synvert command line is asked to do. */
  datatype ExecuteCommand = Run | Test {
    function Name(): string {
      match this
      case Run => "run"
      case Test => "test"
    }
  }

  /** The parameters of one synvert command line. */
  datatype CommandParams = CommandParams(
    executeCommand: ExecuteCommand,
    rootPath: string,
    onlyPaths: string,
    skipPaths: string,
    additionalArgs: seq<string>)

  /** The options both command lines share after `--execute <command>`. */
  function FlagArgs(executeCommand: ExecuteCommand, onlyPaths: string, skipPaths: string): seq<string> {
    (if executeCommand == Run then ["--format", "json"] else []) +
    (if |onlyPaths| > 0 then ["--only-paths", onlyPaths] else []) +
    (if |skipPaths| > 0 then ["--skip-paths", skipPaths] else [])
  }

  /** The arguments of `synvert-ruby`: the root path is the last, positional, argument. */
  function RubyArgs(p: CommandParams): seq<string> {
    ["--execute", p.executeCommand.Name()] + FlagArgs(p.executeCommand, p.onlyPaths, p.skipPaths) +
    p.additionalArgs + [p.rootPath]
  }

  /** The arguments of `synvert-javascript`: the root path follows `--root-path`. */
  function JavascriptArgs(p: CommandParams): seq<string> {
    ["--execute", p.executeCommand.Name()] + FlagArgs(p.executeCommand, p.onlyPaths, p.skipPaths) +
    p.additionalArgs + ["--root-path", p.rootPath]
  }

  method BuildRubyCommandArgs(executeCommand: ExecuteCommand, rootPath: string, onlyPaths: string, skipPaths: string,
                              additionalArgs: seq<string>) returns (commandArgs: seq<string>)
    ensures commandArgs == RubyArgs(CommandParams(executeCommand, rootPath, onlyPaths, skipPaths, additionalArgs))
  {
    commandArgs := ["--execute", executeCommand.Name()];
    if executeCommand == Run {
      commandArgs := commandArgs + ["--format"];
      commandArgs := commandArgs + ["json"];
    }
    if |onlyPaths| > 0 {
      commandArgs := commandArgs + ["--only-paths"];
      commandArgs := commandArgs + [onlyPaths];
    }
    if |skipPaths| > 0 {
      commandArgs := commandArgs + ["--skip-paths"];
      commandArgs := commandArgs + [skipPaths];
    }
    commandArgs := commandArgs + additionalArgs;
    commandArgs := commandArgs + [rootPath];
  }

  method BuildJavascriptCommandArgs(executeCommand: ExecuteCommand, rootPath: string, onlyPaths: string, skipPaths: string,
                                    additionalArgs: seq<string>) returns (commandArgs: seq<string>)
    ensures commandArgs == JavascriptArgs(CommandParams(executeCommand, rootPath, onlyPaths, skipPaths, additionalArgs))
  {
    commandArgs := ["--execute", executeCommand.Name()];
    if executeCommand == Run {
      commandArgs := commandArgs + ["--format"];
      commandArgs := commandArgs + ["json"];
    }
    if |onlyPaths| > 0 {
      commandArgs := commandArgs + ["--only-paths"];
      commandArgs := commandArgs + [onlyPaths];
    }
    if |skipPaths| > 0 {
      commandArgs := commandArgs + ["--skip-paths"];
      commandArgs := commandArgs + [skipPaths];
    }
    commandArgs := commandArgs + additionalArgs;
    commandArgs := commandArgs + ["--root-path"];
    commandArgs := commandArgs + [rootPath];
  }

  /** The two command lines differ only in how the root path is passed. */
  lemma JavascriptArgsFromRuby(p: CommandParams)
    ensures JavascriptArgs(p) == RubyArgs(p)[..|RubyArgs(p)| - 1] + ["--root-path", p.rootPath]
  {
    var front := ["--execute", p.executeCommand.Name()] + FlagArgs(p.executeCommand, p.onlyPaths, p.skipPaths) + p.additionalArgs;
    assert RubyArgs(p) == front + [p.rootPath];
    assert RubyArgs(p)[..|RubyArgs(p)| - 1] == front;
  }

  /** Reads the only- and skip-paths options back from the shared options, after the format option. */
  function ParsePathFlags(flags: seq<string>): Option<(string, string)> {
    var only := if |flags| >= 2 && flags[0] == "--only-paths" && flags[1] != [] then flags[1] else [];
    var g := if only != [] then flags[2..] else flags;
    var skip := if |g| >= 2 && g[0] == "--skip-paths" && g[1] != [] then g[1] else [];
    var h := if skip != [] then g[2..] else g;
    if h == [] then Some((only, skip)) else None
  }

  /**
   * Reads the parameters back from a `synvert-ruby` argument list whose
   * additional arguments number `extraCount`; `None` when the list is not
   * one the builder produces.
   */
  function ParseRubyArgs(args: seq<string>, extraCount: nat): Option<CommandParams> {
    if |args| < 3 + extraCount || args[0] != "--execute" || (args[1] != "run" && args[1] != "test") then None
    else
      var cmd := if args[1] == "run" then Run else Test;
      var n := |args| - 1 - extraCount;
      var flags := args[2..n];
      var pathFlags := if cmd == Run then (if |flags| >= 2 && flags[..2] == ["--format", "json"] then flags[2..] else ["-"]) else flags;
      match ParsePathFlags(pathFlags)
      case None => None
      case Some((only, skip)) => Some(CommandParams(cmd, args[|args| - 1], only, skip, args[n..|args| - 1]))
  }

  /** The same for a `synvert-javascript` argument list. */
  function ParseJavascriptArgs(args: seq<string>, extraCount: nat): Option<CommandParams> {
    if |args| < 2 || args[|args| - 2] != "--root-path" then None
    else ParseRubyArgs(args[..|args| - 2] + [args[|args| - 1]], extraCount)
  }

  lemma ParsePathFlagsOf(onlyPaths: string, skipPaths: string)
    ensures ParsePathFlags(FlagArgs(Test, onlyPaths, skipPaths)) == Some((onlyPaths, skipPaths))
  {
    var f := FlagArgs(Test, onlyPaths, skipPaths);
    var o := if |onlyPaths| > 0 then ["--only-paths", onlyPaths] else [];
    var k := if |skipPaths| > 0 then ["--skip-paths", skipPaths] else [];
    assert f == o + k;
    if |onlyPaths| > 0 {
      assert f[2..] == k;
    }
  }

  /**
   * Given the number of additional arguments, the Ruby argument list determines its
   * parameters: reading it back gives exactly what it was built from.
   */
  lemma RubyArgsRoundTrip(p: CommandParams)
    ensures ParseRubyArgs(RubyArgs(p), |p.additionalArgs|) == Some(p)
  {
    var args := RubyArgs(p);
    var flags := FlagArgs(p.executeCommand, p.onlyPaths, p.skipPaths);
    var pf := FlagArgs(Test, p.onlyPaths, p.skipPaths);
    var n := |args| - 1 - |p.additionalArgs|;
    assert args == ["--execute", p.executeCommand.Name()] + flags + p.additionalArgs + [p.rootPath];
    assert args[2..n] == flags;
    assert args[n..|args| - 1] == p.additionalArgs;
    if p.executeCommand == Run {
      assert flags == ["--format", "json"] + pf;
      assert flags[..2] == ["--format", "json"];
      assert flags[2..] == pf;
    } else {
      assert flags == pf;
    }
    ParsePathFlagsOf(p.onlyPaths, p.skipPaths);
  }

  /** The same round trip for the JavaScript argument list, given the number of additional arguments. */
  lemma JavascriptArgsRoundTrip(p: CommandParams)
    ensures ParseJavascriptArgs(JavascriptArgs(p), |p.additionalArgs|) == Some(p)
  {
    var args := JavascriptArgs(p);
    JavascriptArgsFromRuby(p);
    var r := RubyArgs(p);
    assert args[..|args| - 2] + [args[|args| - 1]] == r[..|r| - 1] + [p.rootPath] == r;
    RubyArgsRoundTrip(p);
  }

  /**
   * Without that number the list alone does not determine the parameters: extra
   * arguments can spell out a path flag the parameters leave empty.
   */
  lemma RubyArgsNeedArgCount()
    ensures var withExtra := CommandParams(Test, ".", "", "", ["--only-paths", "x"]);
      var withFlag := CommandParams(Test, ".", "x", "", []);
      withExtra != withFlag && RubyArgs(withExtra) == RubyArgs(withFlag)
  {
  }

  /** The four argument lists of the command-line tests. */
  lemma CommandArgsExamples()
    ensures RubyArgs(CommandParams(Run, ".", "app,spec", "node_modules", ["--double-quote", "--tab-width", "2"]))
         == ["--execute", "run", "--format", "json", "--only-paths", "app,spec", "--skip-paths", "node_modules",
             "--double-quote", "--tab-width", "2", "."]
    ensures RubyArgs(CommandParams(Test, ".", "app,spec", "node_modules", ["--double-quote", "--tab-width", "2"]))
         == ["--execute", "test", "--only-paths", "app,spec", "--skip-paths", "node_modules",
             "--double-quote", "--tab-width", "2", "."]
    ensures JavascriptArgs(CommandParams(Run, ".", "lib,spec", "node_modules", ["--single-quote", "--no-semi", "--tab-width", "2"]))
         == ["--execute", "run", "--format", "json", "--only-paths", "lib,spec", "--skip-paths", "node_modules",
             "--single-quote", "--no-semi", "--tab-width", "2", "--root-path", "."]
    ensures JavascriptArgs(CommandParams(Test, ".", "lib,spec", "node_modules", ["--single-quote", "--no-semi", "--tab-width", "2"]))
         == ["--execute", "test", "--only-paths", "lib,spec", "--skip-paths", "node_modules",
             "--single-quote", "--no-semi", "--tab-width", "2", "--root-path", "."]
  {
  }

  // ---------------------------------------------------------------- JSON keys

  /** The regular-expression class `\w`. */
  predicate WordChar(c: char) {
    'a' <= c <= 'z' || 'A' <= c <= 'Z' || '0' <= c <= '9' || c == '_'
  }

  /** The pattern `[-_]\w` matches at position `i`. */
  predicate PairAt(s: string, i: int) {
    0 <= i && i + 1 < |s| && (s[i] == '-' || s[i] == '_') && WordChar(s[i + 1])
  }

  /** The pattern matches somewhere at or after position `i`. */
  ghost predicate PairFrom(s: string, i: int) {
    exists j :: i <= j && PairAt(s, j)
  }

  /**
   * The global replacement from position `i` on: scanning from the left, a
   * dash or underscore followed by a word character becomes that character
   * upper-cased, and the scan resumes after the pair, so matches do not overlap.
   */
  function CamelFrom(s: string, i: nat): (r: string)
    requires i <= |s|
    ensures |r| <= |s| - i
    decreases |s| - i
  {
    if i == |s| then []
    else if PairAt(s, i) then [JsText.UpperChar(s[i + 1])] + CamelFrom(s, i + 2)
    else [s[i]] + CamelFrom(s, i + 1)
  }

  /** `str.replace(/([-_]\w)/g, g => g[1].toUpperCase())`. */
  function SnakeToCamel(s: string): string {
    CamelFrom(s, 0)
  }

  lemma {:induction false} CamelFromFixed(s: string, i: nat)
    requires i <= |s|
    ensures CamelFrom(s, i) == s[i..] <==> !PairFrom(s, i)
    ensures |CamelFrom(s, i)| == |s| - i <==> !PairFrom(s, i)
    decreases |s| - i
  {
    if i == |s| {
      assert !PairFrom(s, i);
    } else if PairAt(s, i) {
      assert PairFrom(s, i);
    } else {
      CamelFromFixed(s, i + 1);
      if PairFrom(s, i + 1) {
        var j :| i + 1 <= j && PairAt(s, j);
        assert PairFrom(s, i);
      }
      if PairFrom(s, i) {
        var j :| i <= j && PairAt(s, j);
        assert j != i;
        assert PairFrom(s, i + 1);
      }
      assert s[i..] == [s[i]] + s[i + 1..];
    }
  }

  /** A key is left as it is exactly when no separator in it is followed by a word character; otherwise it gets shorter. */
  lemma SnakeToCamelFixed(s: string)
    ensures SnakeToCamel(s) == s <==> !PairFrom(s, 0)
    ensures |SnakeToCamel(s)| < |s| <==> PairFrom(s, 0)
  {
    CamelFromFixed(s, 0);
    assert s[0..] == s;
  }

  /** From a position on which no dash or underscore follows, the rest of the key is copied as it is. */
  lemma CamelFromNoSeparator(s: string, i: nat)
    requires i <= |s|
    requires '-' !in s[i..] && '_' !in s[i..]
    ensures CamelFrom(s, i) == s[i..]
  {
    forall j | i <= j ensures !PairAt(s, j) {
      if j < |s| {
        assert s[j] == s[i..][j - i];
      }
    }
    CamelFromFixed(s, i);
  }

  /** A key with no dash and no underscore is left as it is. */
  lemma SnakeToCamelNoSeparator(s: string)
    requires '-' !in s && '_' !in s
    ensures SnakeToCamel(s) == s
  {
    forall j ensures !PairAt(s, j) {
      if 0 <= j < |s| {
        assert s[j] in s;
      }
    }
    SnakeToCamelFixed(s);
  }

  /** The key of the key-renaming test that changes. */
  lemma SnakeToCamelExample()
    ensures SnakeToCamel("snake_case_key") == "snakeCaseKey"
  {
    var s := "snake_case_key";
    assert CamelFrom(s, 10) == "Key";
    assert CamelFrom(s, 5) == "CaseKey";
  }

  /** The keys of the key-renaming test that stay as they are. */
  lemma SnakeToCamelKeeps()
    ensures SnakeToCamel("camelCaseKey") == "camelCaseKey"
    ensures SnakeToCamel("key") == "key"
  {
    SnakeToCamelNoSeparator("camelCaseKey");
    SnakeToCamelNoSeparator("key");
  }

  /** Dashes separate words as underscores do. */
  lemma SnakeToCamelDashes()
    ensures SnakeToCamel("new-file-path") == "newFilePath"
  {
    SnakeToCamelDashesTail();
  }

  lemma SnakeToCamelDashesTail()
    ensures CamelFrom("new-file-path", 3) == "FilePath"
  {
    var s := "new-file-path";
    CamelFromNoSeparator(s, 9);
    assert s[9..] == "path";
    assert CamelFrom(s, 8) == "Path";
  }

  // ---------------------------------------------------------------- rename results

  /** The action lists of some test results, keyed by result. */
  type ActionLists = map<TestResult, seq<ActionRef>>

  ghost function ActionsOf(results: seq<TestResult>): (m: ActionLists)
    reads set r | r in results
    ensures m.Keys == set r | r in results
  {
    map r | r in results :: r.actions
  }

  /** The result's first action is a `rename_file`. */
  predicate IsRename(nodes: seq<Action>, actions: seq<ActionRef>) {
    |actions| > 0 && actions[0] < |nodes| && nodes[actions[0]].kind == RenameFile
  }

  /** The rename results among `results`, in order. */
  function Renames(nodes: seq<Action>, results: seq<TestResult>, acts: ActionLists): seq<TestResult> {
    Seqs.Filter(results, RenameOf(nodes, acts))
  }

  function RenameOf(nodes: seq<Action>, acts: ActionLists): TestResult -> bool {
    (r: TestResult) => r in acts && IsRename(nodes, acts[r])
  }

  lemma RenamesMembers(nodes: seq<Action>, results: seq<TestResult>, acts: ActionLists)
    ensures forall r :: r in Renames(nodes, results, acts) ==> r in results
  {
    forall r | r in Renames(nodes, results, acts) ensures r in results {
      Seqs.FilterMembers(results, RenameOf(nodes, acts), r);
    }
  }

  /** The results other than `r` that touch `r`'s file, in order. */
  function SameFile(results: seq<TestResult>, r: TestResult): seq<TestResult> {
    Seqs.Filter(results, SameFileAs(r))
  }

  function SameFileAs(r: TestResult): TestResult -> bool {
    (s: TestResult) => s != r && s.filePath == r.filePath
  }

  /** The action lists of `results`, one after the other. */
  function Concat(results: seq<TestResult>, acts: ActionLists): seq<ActionRef> {
    if results == [] then []
    else
      var last := results[|results| - 1];
      Concat(results[..|results| - 1], acts) + (if last in acts then acts[last] else [])
  }

  /** One rename result takes over the actions of the other results on its file, as they are at that moment. */
  function Absorb(acts: ActionLists, renames: seq<TestResult>, results: seq<TestResult>): (m: ActionLists)
    ensures forall s :: s in acts ==> s in m
  {
    if renames == [] then acts
    else
      var before := Absorb(acts, renames[..|renames| - 1], results);
      var r := renames[|renames| - 1];
      before[r := (if r in before then before[r] else []) + Concat(SameFile(results, r), before)]
  }

  /** The paths of some results. */
  function Paths(results: seq<TestResult>): seq<string> {
    seq(|results|, k requires 0 <= k < |results| => results[k].filePath)
  }

  /** The merged list: the results on files nobody renames, then the rename results. */
  function MergedOrder(results: seq<TestResult>, renames: seq<TestResult>): seq<TestResult> {
    Seqs.Filter(results, Unrenamed(renames)) + renames
  }

  function Unrenamed(renames: seq<TestResult>): TestResult -> bool {
    (s: TestResult) => s.filePath !in Paths(renames)
  }

  /**
   * `mergeRenameFileTestResults`: every rename result receives the actions of
   * the other results on its path, and those results leave the list. Reading
   * the first action of a result without actions fails, reported as `None`.
   */
  method MergeRenameFileTestResults(h: ActionHeap, results: seq<TestResult>) returns (merged: Option<seq<TestResult>>)
    modifies results`actions
    ensures forall r :: r in results ==> r.fileSource == old(r.fileSource)
    ensures (exists r :: r in results && old(r.actions) == []) ==>
      merged == None && forall r :: r in results ==> r.actions == old(r.actions)
    ensures (forall r :: r in results ==> old(r.actions) != []) ==>
      var acts := old(ActionsOf(results));
      var renames := Renames(h.nodes, results, acts);
      (renames == [] ==> merged == Some(results)) &&
      merged == Some(MergedOrder(results, renames)) &&
      forall r :: r in results ==> r.actions == Absorb(acts, renames, results)[r]
  {
    if exists r :: r in results && r.actions == [] {
      return None;
    }
    var nodes := h.nodes;
    var acts := map r | r in results :: r.actions;
    var renames := Renames(nodes, results, acts);
    assert acts == ActionsOf(results);
    RenamesMembers(nodes, results, acts);
    if renames == [] {
      MergedOrderNoRenames(results);
      return Some(results);
    }
    AbsorbRenames(results, renames, acts);
    merged := Some(MergedOrder(results, renames));
  }

  /** `renames.forEach(...)`: each rename result in turn takes over the actions on its path. */
  method AbsorbRenames(results: seq<TestResult>, renames: seq<TestResult>, ghost acts: ActionLists)
    requires forall r :: r in renames ==> r in results
    requires forall r :: r in results ==> r in acts && r.actions == acts[r]
    modifies results`actions
    ensures forall r :: r in results ==> r.fileSource == old(r.fileSource)
    ensures forall r :: r in results ==> r.actions == Absorb(acts, renames, results)[r]
  {
    var k := 0;
    while k < |renames|
      invariant 0 <= k <= |renames|
      invariant forall r :: r in results ==> r.actions == Absorb(acts, renames[..k], results)[r]
    {
      var r := renames[k];
      assert r in results;
      ghost var before := Absorb(acts, renames[..k], results);
      var others := SameFile(results, r);
      SameFileMembers(results, r);
      AppendActions(r, others, before);
      AbsorbStep(acts, renames, k, results);
      k := k + 1;
    }
    assert renames[..k] == renames;
  }

  /** `others.forEach(s => r.actions = [...r.actions, ...s.actions])`. */
  method AppendActions(r: TestResult, others: seq<TestResult>, ghost lists: ActionLists)
    requires r !in others
    requires forall s :: s in others ==> s in lists && s.actions == lists[s]
    modifies r`actions
    ensures r.fileSource == old(r.fileSource)
    ensures r.actions == old(r.actions) + Concat(others, lists)
  {
    var j := 0;
    while j < |others|
      invariant 0 <= j <= |others|
      invariant r.actions == old(r.actions) + Concat(others[..j], lists)
    {
      var s := others[j];
      assert others[..j + 1][..j] == others[..j];
      r.actions := r.actions + s.actions;
      j := j + 1;
    }
    assert others[..j] == others;
  }

  lemma SameFileMembers(results: seq<TestResult>, r: TestResult)
    ensures r !in SameFile(results, r)
    ensures forall s :: s in SameFile(results, r) ==> s in results && s.filePath == r.filePath
  {
    Seqs.FilterMembers(results, SameFileAs(r), r);
    forall s | s in SameFile(results, r) ensures s in results && s.filePath == r.filePath {
      Seqs.FilterMembers(results, SameFileAs(r), s);
      assert SameFileAs(r)(s);
    }
  }

  lemma AbsorbStep(acts: ActionLists, renames: seq<TestResult>, k: int, results: seq<TestResult>)
    requires 0 <= k < |renames|
    ensures var before := Absorb(acts, renames[..k], results);
      var r := renames[k];
      Absorb(acts, renames[..k + 1], results) == before[r := (if r in before then before[r] else []) + Concat(SameFile(results, r), before)]
  {
    assert renames[..k + 1][..k] == renames[..k];
  }

  lemma MergedOrderNoRenames(results: seq<TestResult>)
    ensures MergedOrder(results, []) == results
  {
    Seqs.FilterAll(results, Unrenamed([]));
  }

  /** The merged list holds the results on files nobody renames and the rename results, and no others. */
  lemma MergedOrderMembers(results: seq<TestResult>, renames: seq<TestResult>, x: TestResult)
    ensures x in MergedOrder(results, renames) <==>
      (x in results && x.filePath !in Paths(renames)) || x in renames
  {
    Seqs.FilterMembers(results, Unrenamed(renames), x);
  }

  /** A result that is not a rename result keeps its own actions. */
  lemma {:induction false} AbsorbKeepsOthers(acts: ActionLists, renames: seq<TestResult>, results: seq<TestResult>, s: TestResult)
    requires s in acts && s !in renames
    ensures Absorb(acts, renames, results)[s] == acts[s]
  {
    if renames != [] {
      AbsorbKeepsOthers(acts, renames[..|renames| - 1], results, s);
    }
  }

  lemma {:induction false} ConcatAgree(results: seq<TestResult>, a: ActionLists, b: ActionLists)
    requires forall s :: s in results ==> s in a && s in b && a[s] == b[s]
    ensures Concat(results, a) == Concat(results, b)
  {
    if results != [] {
      ConcatAgree(results[..|results| - 1], a, b);
    }
  }

  /**
   * When no two rename results share a path, each rename result ends with its
   * own actions followed by the original actions of every other result on its
   * path, in list order.
   */
  lemma {:induction false} AbsorbDistinct(acts: ActionLists, renames: seq<TestResult>, results: seq<TestResult>, k: int)
    requires forall s :: s in results ==> s in acts
    requires forall s :: s in renames ==> s in acts
    requires forall i, j :: 0 <= i < j < |renames| ==> renames[i].filePath != renames[j].filePath
    requires 0 <= k < |renames|
    ensures Absorb(acts, renames, results)[renames[k]] == acts[renames[k]] + Concat(SameFile(results, renames[k]), acts)
  {
    var n := |renames| - 1;
    var init := renames[..n];
    var before := Absorb(acts, init, results);
    var r := renames[n];
    if k == n {
      assert r !in init by {
        forall i | 0 <= i < n ensures init[i] != r {
          assert renames[i].filePath != renames[n].filePath;
        }
      }
      AbsorbKeepsOthers(acts, init, results, r);
      forall s | s in SameFile(results, r) ensures s in before && s in acts && before[s] == acts[s] {
        Seqs.FilterMembers(results, SameFileAs(r), s);
        forall i | 0 <= i < n ensures init[i] != s {
          assert renames[i].filePath != renames[n].filePath;
        }
        AbsorbKeepsOthers(acts, init, results, s);
      }
      ConcatAgree(SameFile(results, r), before, acts);
    } else {
      assert renames[k] != r by {
        assert renames[k].filePath != renames[n].filePath;
      }
      assert init[k] == renames[k];
      AbsorbDistinct(acts, init, results, k);
    }
  }

  /** A result that leaves the list shares its path with one of the rename results, so its actions went there. */
  lemma DroppedGoToRename(results: seq<TestResult>, renames: seq<TestResult>, s: TestResult)
    requires s in results && s !in MergedOrder(results, renames)
    ensures exists k :: 0 <= k < |renames| && renames[k].filePath == s.filePath && s in SameFile(results, renames[k])
  {
    MergedOrderMembers(results, renames, s);
    var k :| 0 <= k < |renames| && Paths(renames)[k] == s.filePath;
    Seqs.FilterMembers(results, SameFileAs(renames[k]), s);
  }
}
