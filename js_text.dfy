/** String primitives of JavaScript that the route handlers rely on:
    the `\s` character class (also what `String.prototype.trim` removes),
    `trim`, `split(/\s+/)`, ASCII `toLowerCase`, `startsWith` and decimal
    `toString` of a non-negative integer. Strings are sequences of Unicode scalar values. */
module JsText {

  /** The WhiteSpace and LineTerminator characters of ECMAScript: the set
      matched by `\s` and removed by `trim`. */
  predicate IsWhitespace(c: char) {
    || c == '\t' || c == '\n' || c == '\U{B}' || c == '\U{C}' || c == '\r' || c == ' '
    || c == '\U{A0}' || c == '\U{1680}' || ('\U{2000}' <= c <= '\U{200A}')
    || c == '\U{2028}' || c == '\U{2029}' || c == '\U{202F}' || c == '\U{205F}'
    || c == '\U{3000}' || c == '\U{FEFF}'
  }

  predicate AllWhitespace(s: string) {
    forall i :: 0 <= i < |s| ==> IsWhitespace(s[i])
  }

  /** `s` with its leading whitespace removed. */
  function TrimStart(s: string): (r: string)
    ensures |r| <= |s| && r == s[|s| - |r|..]
    ensures AllWhitespace(s[..|s| - |r|])
    ensures r == [] || !IsWhitespace(r[0])
  {
    if s != [] && IsWhitespace(s[0]) then
      var r := TrimStart(s[1..]);
      LeadingRunGrows(s, r);
      r
    else s
  }

  lemma LeadingRunGrows(s: string, r: string)
    requires s != [] && IsWhitespace(s[0])
    requires |r| <= |s| - 1 && r == s[1..][|s| - 1 - |r|..]
    requires AllWhitespace(s[1..][..|s| - 1 - |r|])
    ensures r == s[|s| - |r|..]
    ensures AllWhitespace(s[..|s| - |r|])
  {
    var cut := |s| - |r|;
    assert s[1..][cut - 1..] == s[cut..];
    assert s[..cut] == [s[0]] + s[1..][..cut - 1];
  }

  /** `s` with its trailing whitespace removed. */
  function TrimEnd(s: string): (r: string)
    ensures |r| <= |s| && r == s[..|r|]
    ensures AllWhitespace(s[|r|..])
    ensures r == [] || !IsWhitespace(r[|r| - 1])
  {
    if s != [] && IsWhitespace(s[|s| - 1]) then
      var r := TrimEnd(s[..|s| - 1]);
      TrailingRunGrows(s, r);
      r
    else s
  }

  lemma TrailingRunGrows(s: string, r: string)
    requires s != [] && IsWhitespace(s[|s| - 1])
    requires |r| <= |s| - 1 && r == s[..|s| - 1][..|r|]
    requires AllWhitespace(s[..|s| - 1][|r|..])
    ensures r == s[..|r|]
    ensures AllWhitespace(s[|r|..])
  {
    assert s[..|s| - 1][..|r|] == s[..|r|];
    assert s[|r|..] == s[..|s| - 1][|r|..] + [s[|s| - 1]];
  }

  /** `r` is what is left of `s` once `a` leading characters are cut off,
      and everything cut off on either side is whitespace. */
  ghost predicate TrimmedAt(s: string, r: string, a: nat) {
    && a + |r| <= |s| && r == s[a..a + |r|]
    && AllWhitespace(s[..a]) && AllWhitespace(s[a + |r|..])
  }

  lemma SlicesOfSuffix(s: string, a: nat, n: nat)
    requires a + n <= |s|
    ensures s[a..][..n] == s[a..a + n]
    ensures s[a..][n..] == s[a + n..]
  {
  }

  /** Cutting whitespace off the front and then off the back. */
  lemma TrimmedBothEnds(s: string, t: string, r: string)
    requires |t| <= |s| && t == s[|s| - |t|..] && AllWhitespace(s[..|s| - |t|])
    requires |r| <= |t| && r == t[..|r|] && AllWhitespace(t[|r|..])
    requires t == [] || !IsWhitespace(t[0])
    requires r == [] || !IsWhitespace(r[|r| - 1])
    ensures TrimmedAt(s, r, |s| - |t|)
    ensures r == [] || (!IsWhitespace(r[0]) && !IsWhitespace(r[|r| - 1]))
  {
    var a := |s| - |t|;
    SlicesOfSuffix(s, a, |r|);
    assert r != [] ==> r[0] == t[0];
  }

  /** `String.prototype.trim`: the result is the slice of `s` that is left
      once the whitespace on both sides is cut off. */
  function Trim(s: string): (r: string)
    ensures r == [] || (!IsWhitespace(r[0]) && !IsWhitespace(r[|r| - 1]))
    ensures TrimmedAt(s, r, |s| - |TrimStart(s)|)
  {
    var t := TrimStart(s);
    var r := TrimEnd(t);
    TrimmedBothEnds(s, t, r);
    r
  }

  function LowerChar(c: char): char {
    if 'A' <= c <= 'Z' then (c as int - 'A' as int + 'a' as int) as char else c
  }

  /** `toLowerCase` restricted to ASCII letters. */
  function ToLowerAscii(s: string): (r: string)
    ensures |r| == |s|
    ensures forall i :: 0 <= i < |s| ==> r[i] == LowerChar(s[i])
  {
    seq(|s|, i requires 0 <= i < |s| => LowerChar(s[i]))
  }

  predicate StartsWith(s: string, prefix: string) {
    |prefix| <= |s| && s[..|prefix|] == prefix
  }

  /** `startsWith` holds exactly when the string is the prefix followed by
      something. */
  lemma StartsWithConcat(s: string, prefix: string)
    ensures StartsWith(s, prefix) <==> exists t :: s == prefix + t
  {
    if StartsWith(s, prefix) {
      assert s == prefix + s[|prefix|..];
    }
    if exists t :: s == prefix + t {
      var t :| s == prefix + t;
      assert s[..|prefix|] == prefix;
    }
  }

  function DigitChar(d: nat): char
    requires d < 10
  {
    ('0' as int + d) as char
  }

  predicate IsDigit(c: char) {
    '0' <= c <= '9'
  }

  /** Decimal representation, as a template literal `${n}` writes a
      non-negative integer: digits only, no leading zero. */
  function NatToString(n: nat): (r: string)
    ensures |r| >= 1
    ensures forall i :: 0 <= i < |r| ==> IsDigit(r[i])
    ensures n >= 10 <==> |r| >= 2
    ensures r[0] == '0' ==> n == 0
    decreases n
  {
    if n < 10 then [DigitChar(n)] else NatToString(n / 10) + [DigitChar(n % 10)]
  }

  /** The number a string of decimal digits denotes, read left to right. */
  function DigitsValue(s: string): nat
    requires forall i :: 0 <= i < |s| ==> IsDigit(s[i])
  {
    if s == [] then 0
    else
      var last := s[|s| - 1];
      assert IsDigit(last);
      10 * DigitsValue(s[..|s| - 1]) + (last as int - '0' as int)
  }

  /** The digits written for `n` denote `n`. */
  lemma {:induction false} NatToStringValue(n: nat)
    ensures DigitsValue(NatToString(n)) == n
    decreases n
  {
    var s := NatToString(n);
    if n >= 10 {
      NatToStringValue(n / 10);
      assert s[..|s| - 1] == NatToString(n / 10);
      assert s[|s| - 1] == DigitChar(n % 10);
    }
  }

  /** Different numbers are written differently. */
  lemma {:induction false} NatToStringInjective(a: nat, b: nat)
    requires NatToString(a) == NatToString(b)
    ensures a == b
    decreases a
  {
    var s := NatToString(a);
    if a >= 10 && b >= 10 {
      assert s[|s| - 1] == DigitChar(a % 10) == DigitChar(b % 10);
      assert NatToString(a / 10) == s[..|s| - 1] == NatToString(b / 10);
      NatToStringInjective(a / 10, b / 10);
    } else if a < 10 && b < 10 {
      assert s[0] == DigitChar(a) == DigitChar(b);
    }
  }

  /** The number of characters before the first whitespace. */
  function WordLength(s: string): (k: nat)
    ensures k <= |s|
    ensures k < |s| ==> IsWhitespace(s[k])
  {
    if s == [] || IsWhitespace(s[0]) then 0 else 1 + WordLength(s[1..])
  }

  /** The word ends at the first whitespace. */
  lemma {:induction false} WordLengthFacts(s: string)
    ensures forall i :: 0 <= i < WordLength(s) ==> !IsWhitespace(s[i])
    ensures WordLength(s) < |s| ==> IsWhitespace(s[WordLength(s)])
  {
    if s != [] && !IsWhitespace(s[0]) {
      WordLengthFacts(s[1..]);
    }
  }

  /** The number of whitespace characters `s` starts with. */
  function RunLength(s: string): (k: nat)
    ensures k <= |s|
    ensures s != [] && IsWhitespace(s[0]) ==> k >= 1
  {
    if s != [] && IsWhitespace(s[0]) then 1 + RunLength(s[1..]) else 0
  }

  /** The run ends at the first character that is not whitespace. */
  lemma {:induction false} RunLengthFacts(s: string)
    ensures forall i :: 0 <= i < RunLength(s) ==> IsWhitespace(s[i])
    ensures RunLength(s) < |s| ==> !IsWhitespace(s[RunLength(s)])
  {
    if s != [] && IsWhitespace(s[0]) {
      RunLengthFacts(s[1..]);
    }
  }

  /** `s.split(/\s+/)`: the pieces between the maximal runs of whitespace.
      A run at either end leaves an empty piece there, and the empty string
      splits into one empty piece. */
  function Split(s: string): (r: seq<string>)
    ensures |r| >= 1
    decreases |s|
  {
    var k := WordLength(s);
    if k == |s| then [s]
    else
      var n := RunLength(s[k..]);
      [s[..k]] + Split(s[k + n..])
  }

  /** A piece of a split: no whitespace in it. */
  predicate NoWhitespace(w: string) {
    forall j :: 0 <= j < |w| ==> !IsWhitespace(w[j])
  }

  /** A word without whitespace in front of such pieces keeps them so. */
  lemma ConsPieces(w: string, ps: seq<string>)
    requires NoWhitespace(w)
    requires forall i :: 0 <= i < |ps| ==> NoWhitespace(ps[i])
    ensures forall i :: 0 <= i < |[w] + ps| ==> NoWhitespace(([w] + ps)[i])
  {
    assert forall i :: 1 <= i < |[w] + ps| ==> ([w] + ps)[i] == ps[i - 1];
  }

  /** No piece holds any whitespace. */
  lemma {:induction false} SplitPieces(s: string)
    ensures forall i :: 0 <= i < |Split(s)| ==> NoWhitespace(Split(s)[i])
    decreases |s|
  {
    var k := WordLength(s);
    WordLengthFacts(s);
    assert NoWhitespace(s[..k]);
    if k < |s| {
      var n := RunLength(s[k..]);
      var rest := s[k + n..];
      SplitPieces(rest);
      ConsPieces(s[..k], Split(rest));
      SplitStep(s, k, n);
    } else {
      SplitWhole(s);
    }
  }

  /** The number of maximal runs of whitespace in `s`, counted by where
      each run ends. */
  function WhitespaceRuns(s: string): nat {
    if s == [] then 0
    else (if IsWhitespace(s[0]) && (|s| == 1 || !IsWhitespace(s[1])) then 1 else 0) + WhitespaceRuns(s[1..])
  }

  lemma {:induction false} RunsAfterWord(s: string, k: nat)
    requires k <= |s|
    requires forall i :: 0 <= i < k ==> !IsWhitespace(s[i])
    ensures WhitespaceRuns(s) == WhitespaceRuns(s[k..])
  {
    if k > 0 {
      RunsAfterWord(s[1..], k - 1);
      assert s[1..][k - 1..] == s[k..];
    }
  }

  lemma {:induction false} RunsAfterRun(s: string, n: nat)
    requires 1 <= n <= |s|
    requires forall i :: 0 <= i < n ==> IsWhitespace(s[i])
    requires n < |s| ==> !IsWhitespace(s[n])
    ensures WhitespaceRuns(s) == 1 + WhitespaceRuns(s[n..])
  {
    if n > 1 {
      RunsAfterRun(s[1..], n - 1);
      assert s[1..][n - 1..] == s[n..];
    }
  }

  /** One step of the split: the first word, then the split of what
      follows the first run. */
  lemma SplitStep(s: string, k: nat, n: nat)
    requires k == WordLength(s) < |s| && n == RunLength(s[k..])
    ensures Split(s) == [s[..k]] + Split(s[k + n..])
  {
  }

  /** Without whitespace the whole string is the only piece. */
  lemma SplitWhole(s: string)
    requires WordLength(s) == |s|
    ensures Split(s) == [s]
  {
  }

  /** `s.split(/\s+/).length` is one more than the number of whitespace
      runs. */
  lemma {:induction false} SplitCount(s: string)
    ensures |Split(s)| == 1 + WhitespaceRuns(s)
    decreases |s|
  {
    var k := WordLength(s);
    WordLengthFacts(s);
    RunsAfterWord(s, k);
    if k < |s| {
      var t := s[k..];
      var n := RunLength(t);
      RunLengthFacts(t);
      assert n >= 1 by {
        assert t[0] == s[k];
      }
      RunsAfterRun(t, n);
      var rest := s[k + n..];
      assert t[n..] == rest;
      SplitCount(rest);
      SplitStep(s, k, n);
    } else {
      assert s[k..] == [];
      SplitWhole(s);
    }
  }
}
