/**
 * The JavaScript string operations the core relies on, over `seq<char>`.
 * Characters are Dafny `char`s (Unicode scalar values), not UTF-16 code units; case mapping covers ASCII letters only.
 */
module JsText {

  /** `toLowerCase` on one ASCII character. */
  function LowerChar(c: char): char {
    if 'A' <= c <= 'Z' then (c as int + 32) as char else c
  }

  /** `toUpperCase` on one ASCII character. */
  function UpperChar(c: char): char {
    if 'a' <= c <= 'z' then (c as int - 32) as char else c
  }

  function ToLowerCase(s: string): (r: string)
    ensures |r| == |s| && forall i :: 0 <= i < |s| ==> r[i] == LowerChar(s[i])
  {
    if s == [] then [] else [LowerChar(s[0])] + ToLowerCase(s[1..])
  }

  function ToUpperCase(s: string): (r: string)
    ensures |r| == |s| && forall i :: 0 <= i < |s| ==> r[i] == UpperChar(s[i])
  {
    if s == [] then [] else [UpperChar(s[0])] + ToUpperCase(s[1..])
  }

  /** Lower-casing forgets any earlier upper-casing, and lower-casing twice changes nothing more. */
  lemma LowerCaseAbsorbs(s: string)
    ensures ToLowerCase(ToUpperCase(s)) == ToLowerCase(s)
    ensures ToLowerCase(ToLowerCase(s)) == ToLowerCase(s)
  {
    forall i | 0 <= i < |s|
      ensures LowerChar(UpperChar(s[i])) == LowerChar(s[i]) && LowerChar(LowerChar(s[i])) == LowerChar(s[i])
    {
    }
  }

  /** `s.startsWith(prefix)`. */
  predicate StartsWith(s: string, prefix: string) {
    |prefix| <= |s| && s[..|prefix|] == prefix
  }

  /** `s.endsWith(suffix)`. */
  predicate EndsWith(s: string, suffix: string) {
    |suffix| <= |s| && s[|s| - |suffix|..] == suffix
  }

  /** `s.includes(sub)`, searching from the left. */
  predicate Includes(s: string, sub: string) {
    StartsWith(s, sub) || (|s| > 0 && Includes(s[1..], sub))
  }

  /** `sub` occurs in `s` starting at position `i`. */
  predicate OccursAt(s: string, sub: string, i: int) {
    0 <= i && i + |sub| <= |s| && s[i..i + |sub|] == sub
  }

  /** `includes` holds exactly when `sub` occurs at some position of `s`. */
  lemma {:induction false} IncludesAt(s: string, sub: string)
    ensures Includes(s, sub) <==> exists i :: OccursAt(s, sub, i)
  {
    if StartsWith(s, sub) {
      assert OccursAt(s, sub, 0);
    } else if |s| > 0 {
      IncludesAt(s[1..], sub);
      if Includes(s[1..], sub) {
        var i :| OccursAt(s[1..], sub, i);
        assert s[i + 1..i + 1 + |sub|] == s[1..][i..i + |sub|];
        assert OccursAt(s, sub, i + 1);
      }
      if exists i :: OccursAt(s, sub, i) {
        var i :| OccursAt(s, sub, i);
        assert i != 0;
        assert s[1..][i - 1..i - 1 + |sub|] == s[i..i + |sub|];
        assert OccursAt(s[1..], sub, i - 1);
      }
    }
  }

  /** Every string includes the empty string. */
  lemma IncludesEmpty(s: string)
    ensures Includes(s, "")
  {
  }

  /** The position `String.prototype.slice` resolves an index to: counted from the end when negative, clamped to the string. */
  function SliceIndex(len: nat, i: int): (r: nat)
    ensures r <= len
    ensures 0 <= i <= len ==> r == i
  {
    if i < 0 then (if len + i < 0 then 0 else len + i) else if i > len then len else i
  }

  /** `s.slice(from, to)`. */
  function Slice(s: string, from: int, to: int): string {
    var a := SliceIndex(|s|, from);
    var b := SliceIndex(|s|, to);
    if a < b then s[a..b] else []
  }

  /** `s.slice(from)`. */
  function SliceFrom(s: string, from: int): string {
    s[SliceIndex(|s|, from)..]
  }

  /** The position `String.prototype.substring` resolves an index to: clamped to the string. */
  function SubstringIndex(len: nat, i: int): (r: nat)
    ensures r <= len
  {
    if i < 0 then 0 else if i > len then len else i
  }

  /** `s.substring(from, to)`: the bounds are clamped and swapped when reversed. */
  function Substring(s: string, from: int, to: int): string {
    var a := SubstringIndex(|s|, from);
    var b := SubstringIndex(|s|, to);
    if a <= b then s[a..b] else s[b..a]
  }

  /** `s.indexOf(c)` for a one-character needle: the first position of `c`, or -1. */
  function IndexOf(s: string, c: char): (r: int)
    ensures -1 <= r
    ensures r == -1 <==> c !in s
    ensures 0 <= r ==> r < |s| && s[r] == c && c !in s[..r]
  {
    if s == [] then -1
    else if s[0] == c then 0
    else
      var k := IndexOf(s[1..], c);
      if k == -1 then -1
      else
        assert s[..k + 1] == [s[0]] + s[1..][..k];
        k + 1
  }

  /** `s.replace(/c/g, repl)` for a one-character pattern. */
  function ReplaceAll(s: string, c: char, repl: string): (r: string)
    ensures c !in s ==> r == s
  {
    if s == [] then []
    else (if s[0] == c then repl else [s[0]]) + ReplaceAll(s[1..], c, repl)
  }

  /** `a < b` on strings: lexicographic comparison of characters. */
  predicate JsLess(a: string, b: string) {
    if a == [] then b != []
    else if b == [] then false
    else if a[0] != b[0] then a[0] < b[0]
    else JsLess(a[1..], b[1..])
  }

  lemma {:induction false} JsLessIrreflexive(a: string)
    ensures !JsLess(a, a)
  {
    if a != [] {
      JsLessIrreflexive(a[1..]);
    }
  }

  lemma {:induction false} JsLessTransitive(a: string, b: string, c: string)
    requires JsLess(a, b) && JsLess(b, c)
    ensures JsLess(a, c)
  {
    if a != [] && b != [] && c != [] && a[0] == b[0] && b[0] == c[0] {
      JsLessTransitive(a[1..], b[1..], c[1..]);
    }
  }

  /** Two different strings are always ordered one way or the other. */
  lemma {:induction false} JsLessTotal(a: string, b: string)
    requires a != b
    ensures JsLess(a, b) || JsLess(b, a)
  {
    if a != [] && b != [] && a[0] == b[0] {
      assert a == [a[0]] + a[1..] && b == [b[0]] + b[1..];
      JsLessTotal(a[1..], b[1..]);
    }
  }

  lemma {:induction false} JsLessAsymmetric(a: string, b: string)
    requires JsLess(a, b)
    ensures !JsLess(b, a)
  {
    if a != [] && b != [] && a[0] == b[0] {
      JsLessAsymmetric(a[1..], b[1..]);
    }
  }
}
