/** The few java.lang.String operations the core relies on, over `seq<char>`.
    Case mapping covers ASCII letters only, and "whitespace" is the ASCII part
    of Java's `Character.isWhitespace`. */
module Text {

  function LowerChar(c: char): char {
    if 'A' <= c <= 'Z' then (c as int + 32) as char else c
  }

  /** `String.toLowerCase()`, restricted to ASCII letters. */
  function Lower(s: string): (r: string)
    ensures |r| == |s|
    ensures forall i :: 0 <= i < |s| ==> r[i] == LowerChar(s[i])
  {
    if |s| == 0 then "" else [LowerChar(s[0])] + Lower(s[1..])
  }

  predicate NoUpper(s: string) {
    forall i :: 0 <= i < |s| ==> !('A' <= s[i] <= 'Z')
  }

  lemma LowerFixesNoUpper(s: string)
    requires NoUpper(s)
    ensures Lower(s) == s
  {
  }

  lemma LowerHasNoUpper(s: string)
    ensures NoUpper(Lower(s))
  {
  }

  lemma LowerConcat(a: string, b: string)
    ensures Lower(a + b) == Lower(a) + Lower(b)
  {
  }

  /** `a.equalsIgnoreCase(b)` for non-null `a` and `b`. */
  predicate EqualsIgnoreCase(a: string, b: string) {
    Lower(a) == Lower(b)
  }

  predicate StartsWith(s: string, prefix: string) {
    |prefix| <= |s| && s[..|prefix|] == prefix
  }

  /** `s.contains(sub)`: some suffix of `s` starts with `sub`. */
  predicate Contains(s: string, sub: string)
    decreases |s|
  {
    StartsWith(s, sub) || (|s| > 0 && Contains(s[1..], sub))
  }

  /** `Contains` agrees with the positional definition of an occurrence. */
  lemma {:induction false} ContainsAt(s: string, sub: string, i: nat)
    requires i + |sub| <= |s| && s[i..i + |sub|] == sub
    ensures Contains(s, sub)
    decreases i
  {
    if i == 0 {
      assert s[..|sub|] == sub;
    } else {
      assert s[1..][i - 1..i - 1 + |sub|] == s[i..i + |sub|];
      ContainsAt(s[1..], sub, i - 1);
    }
  }

  /** Every occurrence found by `Contains` sits at some position. */
  lemma {:induction false} ContainsWitness(s: string, sub: string) returns (i: nat)
    requires Contains(s, sub)
    ensures i + |sub| <= |s| && s[i..i + |sub|] == sub
    decreases |s|
  {
    if StartsWith(s, sub) {
      i := 0;
    } else {
      var j := ContainsWitness(s[1..], sub);
      assert s[1..][j..j + |sub|] == s[j + 1..j + 1 + |sub|];
      i := j + 1;
    }
  }

  lemma ContainsInfix(a: string, sub: string, b: string)
    ensures Contains(a + sub + b, sub)
  {
    var s := a + sub + b;
    assert s[|a|..|a| + |sub|] == sub;
    ContainsAt(s, sub, |a|);
  }

  /** A fragment holding a character the text lacks cannot occur in it. */
  lemma MissingCharNotContained(s: string, sub: string, c: char)
    requires c in sub && c !in s
    ensures !Contains(s, sub)
  {
  }

  /** The ASCII members of Java's `Character.isWhitespace`. */
  predicate IsWhitespace(c: char) {
    c == ' ' || '\t' <= c <= '\r' || '\U{1C}' <= c <= '\U{1F}'
  }

  /** Spring's `StringUtils.hasText` on a non-null string. */
  predicate HasText(s: string) {
    exists i :: 0 <= i < |s| && !IsWhitespace(s[i])
  }

  /** `String.isBlank()`: empty or only whitespace. */
  predicate IsBlank(s: string) {
    forall i :: 0 <= i < |s| ==> IsWhitespace(s[i])
  }

  lemma BlankIffNoText(s: string)
    ensures IsBlank(s) <==> !HasText(s)
  {
  }

  /** `String.trim()`: drops leading and trailing characters up to U+0020,
      by moving a start index forward and then an end index back. */
  function Trim(s: string): (r: string)
    ensures |r| <= |s|
    ensures |r| > 0 ==> r[0] > ' ' && r[|r| - 1] > ' '
    ensures exists i, j :: 0 <= i <= j <= |s| && TrimmedTo(s, i, j) && r == s[i..j]
  {
    var i := TrimStart(s, 0);
    var j := TrimEnd(s, i, |s|);
    assert TrimmedTo(s, i, j);
    s[i..j]
  }

  /** Everything of `s` outside `s[i..j]` is a character up to U+0020. */
  predicate TrimmedTo(s: string, i: nat, j: nat)
    requires i <= j <= |s|
  {
    && (forall k :: 0 <= k < i ==> s[k] <= ' ')
    && (forall k :: j <= k < |s| ==> s[k] <= ' ')
  }

  /** The first position at or after `from` that holds a character above
      U+0020, or `|s|`; everything skipped is U+0020 or below. */
  function TrimStart(s: string, from: nat): (i: nat)
    requires from <= |s|
    ensures from <= i <= |s|
    ensures forall k :: from <= k < i ==> s[k] <= ' '
    ensures i < |s| ==> s[i] > ' '
    decreases |s| - from
  {
    if from < |s| && s[from] <= ' ' then TrimStart(s, from + 1) else from
  }

  /** The end of `s[start..end]` once the trailing characters up to U+0020
      are dropped; everything dropped is U+0020 or below. */
  function TrimEnd(s: string, start: nat, end: nat): (j: nat)
    requires start <= end <= |s|
    ensures start <= j <= end
    ensures forall k :: j <= k < end ==> s[k] <= ' '
    ensures j > start ==> s[j - 1] > ' '
    decreases end
  {
    if start < end && s[end - 1] <= ' ' then TrimEnd(s, start, end - 1) else end
  }

  /** A text with no blank at either end is its own trim. */
  lemma TrimFixesTrimmed(s: string)
    requires |s| > 0 ==> s[0] > ' ' && s[|s| - 1] > ' '
    ensures Trim(s) == s
  {
    assert TrimStart(s, 0) == 0;
    assert TrimEnd(s, 0, |s|) == |s|;
    assert s[0..|s|] == s;
  }

  /** `s.lastIndexOf(c)`: the last position holding `c`, or -1. */
  function LastIndexOf(s: string, c: char): (r: int)
    ensures -1 <= r < |s|
    ensures r >= 0 ==> s[r] == c
    ensures forall j :: r < j < |s| ==> s[j] != c
  {
    if |s| == 0 then -1
    else if s[|s| - 1] == c then |s| - 1
    else LastIndexOf(s[..|s| - 1], c)
  }
}
