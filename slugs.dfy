/** `generateSlug` of the admin post route: lower-case the title, turn every
    run of characters outside [a-z0-9] into one dash, then cut the dashes
    off both ends. Tags get their slug from their name the same way. */
module Slugs {
  import opened JsText

  predicate IsSlugChar(c: char) {
    'a' <= c <= 'z' || '0' <= c <= '9'
  }

  /** Every character is a lower-case ASCII letter, a digit or a dash. */
  predicate SlugAlphabet(s: string) {
    forall i :: 0 <= i < |s| ==> IsSlugChar(s[i]) || s[i] == '-'
  }

  predicate NoDoubleDash(s: string) {
    forall i :: 0 <= i < |s| - 1 ==> !(s[i] == '-' && s[i + 1] == '-')
  }

  /** The shape of every string `generateSlug` can return. */
  predicate IsSlug(s: string) {
    && SlugAlphabet(s)
    && NoDoubleDash(s)
    && (s == [] || (s[0] != '-' && s[|s| - 1] != '-'))
  }

  /** The letters and digits of `s`, in order. */
  function Alnums(s: string): string {
    if s == [] then [] else (if IsSlugChar(s[0]) then [s[0]] else []) + Alnums(s[1..])
  }

  lemma {:induction false} AlnumsConcat(a: string, b: string)
    ensures Alnums(a + b) == Alnums(a) + Alnums(b)
  {
    if a == [] {
      assert a + b == b;
    } else {
      var head := if IsSlugChar(a[0]) then [a[0]] else [];
      assert (a + b)[0] == a[0] && (a + b)[1..] == a[1..] + b;
      assert Alnums(a + b) == head + Alnums(a[1..] + b);
      AlnumsConcat(a[1..], b);
      assert Alnums(a) == head + Alnums(a[1..]);
    }
  }

  /** Putting a letter, a digit, or a dash that is not followed by another
      dash in front of a string keeps its shape. */
  lemma ConsKeepsShape(c: char, rest: string)
    requires SlugAlphabet(rest) && NoDoubleDash(rest)
    requires IsSlugChar(c) || (c == '-' && (rest == [] || rest[0] != '-'))
    ensures SlugAlphabet([c] + rest) && NoDoubleDash([c] + rest)
    ensures ([c] + rest)[1..] == rest
  {
    var r := [c] + rest;
    assert forall i :: 1 <= i < |r| ==> r[i] == rest[i - 1];
  }

  /** The character a run starting or ending with `c` leaves at that end. */
  function DashFor(c: char): char {
    if IsSlugChar(c) then c else '-'
  }

  /** What `.replace(/[^a-z0-9]+/g, "-")` promises of its result `r` on `s`:
      only letters, digits and single dashes; empty exactly when `s` is;
      the first and last characters are those of `s`, or a dash where `s`
      has another character there; and the letters and digits of `s`, in
      order. */
  predicate Collapsed(s: string, r: string) {
    && SlugAlphabet(r)
    && NoDoubleDash(r)
    && (s == [] <==> r == [])
    && (s != [] ==> r[0] == DashFor(s[0]) && r[|r| - 1] == DashFor(s[|s| - 1]))
    && Alnums(r) == Alnums(s)
  }

  lemma KeepStep(s: string, rest: string)
    requires s != [] && IsSlugChar(s[0]) && Collapsed(s[1..], rest)
    ensures Collapsed(s, [s[0]] + rest)
  {
    ConsKeepsShape(s[0], rest);
    assert Alnums(s) == [s[0]] + Alnums(s[1..]);
    assert Alnums([s[0]] + rest) == [s[0]] + Alnums(rest);
    assert |s| > 1 ==> s[1..][|s| - 2] == s[|s| - 1];
  }

  lemma SkipStep(s: string, rest: string)
    requires |s| > 1 && !IsSlugChar(s[0]) && !IsSlugChar(s[1]) && Collapsed(s[1..], rest)
    ensures Collapsed(s, rest)
  {
    assert Alnums(s) == Alnums(s[1..]);
    assert s[1..][0] == s[1] && s[1..][|s| - 2] == s[|s| - 1];
  }

  lemma DashStep(s: string, rest: string)
    requires s != [] && !IsSlugChar(s[0]) && (|s| == 1 || IsSlugChar(s[1]))
    requires Collapsed(s[1..], rest)
    ensures Collapsed(s, "-" + rest)
  {
    assert |s| > 1 ==> s[1..][0] == s[1] && s[1..][|s| - 2] == s[|s| - 1];
    ConsKeepsShape('-', rest);
    assert Alnums(s) == Alnums(s[1..]);
    assert Alnums("-" + rest) == Alnums(rest);
  }

  /** `.replace(/[^a-z0-9]+/g, "-")`: every maximal run of characters
      outside [a-z0-9] becomes a single dash; letters and digits stay. */
  function CollapseRuns(s: string): (r: string)
    ensures Collapsed(s, r)
  {
    if s == [] then []
    else if IsSlugChar(s[0]) then
      var rest := CollapseRuns(s[1..]);
      KeepStep(s, rest);
      [s[0]] + rest
    else if |s| > 1 && !IsSlugChar(s[1]) then
      var rest := CollapseRuns(s[1..]);
      SkipStep(s, rest);
      rest
    else
      var rest := CollapseRuns(s[1..]);
      DashStep(s, rest);
      "-" + rest
  }

  /** Every character outside [a-z0-9] replaced by a dash, one for one. */
  function DashOut(s: string): (r: string)
    ensures |r| == |s|
    ensures forall i :: 0 <= i < |s| ==> r[i] == if IsSlugChar(s[i]) then s[i] else '-'
  {
    seq(|s|, i requires 0 <= i < |s| => if IsSlugChar(s[i]) then s[i] else '-')
  }

  /** A dash that follows a dash dropped: each run of dashes becomes one. */
  function MergeDashes(s: string): string {
    if |s| <= 1 then s
    else if s[0] == '-' && s[1] == '-' then MergeDashes(s[1..])
    else [s[0]] + MergeDashes(s[1..])
  }

  /** Collapsing runs is dashing out every other character and then merging
      adjacent dashes: a dash stands exactly where a maximal run of
      characters outside [a-z0-9] was. */
  lemma {:induction false} CollapseRunsReference(s: string)
    ensures CollapseRuns(s) == MergeDashes(DashOut(s))
  {
    if s != [] {
      var d := DashOut(s);
      assert d[1..] == DashOut(s[1..]);
      CollapseRunsReference(s[1..]);
      if |s| == 1 {
        assert CollapseRuns(s[1..]) == [];
      }
    }
  }

  /** `.replace(/^-+/, "")`. */
  function DropLeadingDashes(s: string): string {
    if s != [] && s[0] == '-' then DropLeadingDashes(s[1..]) else s
  }

  /** What is left is a suffix that does not start with a dash, and only
      dashes were dropped. */
  lemma {:induction false} DropLeadingDashesFacts(s: string)
    ensures var r := DropLeadingDashes(s);
            && |r| <= |s| && r == s[|s| - |r|..]
            && (r == [] || r[0] != '-')
            && (forall i :: 0 <= i < |s| - |r| ==> s[i] == '-')
            && Alnums(r) == Alnums(s)
  {
    if s != [] && s[0] == '-' {
      DropLeadingDashesFacts(s[1..]);
      var r := DropLeadingDashes(s);
      forall i | 1 <= i < |s| - |r|
        ensures s[i] == '-'
      {
        assert s[i] == s[1..][i - 1];
      }
    }
  }

  /** `.replace(/-+$/, "")`. */
  function DropTrailingDashes(s: string): string {
    if s != [] && s[|s| - 1] == '-' then DropTrailingDashes(s[..|s| - 1]) else s
  }

  /** What is left is a prefix that does not end with a dash, and only
      dashes were dropped. */
  lemma {:induction false} DropTrailingDashesFacts(s: string)
    ensures var r := DropTrailingDashes(s);
            && |r| <= |s| && r == s[..|r|]
            && (r == [] || r[|r| - 1] != '-')
            && (forall i :: |r| <= i < |s| ==> s[i] == '-')
            && Alnums(r) == Alnums(s)
  {
    if s != [] && s[|s| - 1] == '-' {
      var t := s[..|s| - 1];
      assert s == t + "-";
      AlnumsConcat(t, "-");
      DropTrailingDashesFacts(t);
      var r := DropTrailingDashes(s);
      forall i | |r| <= i < |s| - 1
        ensures s[i] == '-'
      {
        assert s[i] == t[i];
      }
    }
  }

  /** A slice of a string keeps its alphabet and its lack of double dashes. */
  lemma SliceKeepsShape(s: string, a: nat, b: nat)
    requires a <= b <= |s|
    requires SlugAlphabet(s) && NoDoubleDash(s)
    ensures SlugAlphabet(s[a..b]) && NoDoubleDash(s[a..b])
  {
    var t := s[a..b];
    assert forall i :: 0 <= i < |t| ==> t[i] == s[a + i];
  }

  /** `generateSlug(title)`. */
  function GenerateSlug(title: string): string {
    DropTrailingDashes(DropLeadingDashes(CollapseRuns(ToLowerAscii(title))))
  }

  lemma LeadingDashesDropped(c: string)
    requires SlugAlphabet(c) && NoDoubleDash(c)
    ensures var t := DropLeadingDashes(c);
            && SlugAlphabet(t) && NoDoubleDash(t) && (t == [] || t[0] != '-')
            && Alnums(t) == Alnums(c)
  {
    var t := DropLeadingDashes(c);
    DropLeadingDashesFacts(c);
    SliceKeepsShape(c, |c| - |t|, |c|);
  }

  lemma TrailingDashesDropped(t: string)
    requires SlugAlphabet(t) && NoDoubleDash(t) && (t == [] || t[0] != '-')
    ensures IsSlug(DropTrailingDashes(t))
    ensures Alnums(DropTrailingDashes(t)) == Alnums(t)
  {
    var r := DropTrailingDashes(t);
    DropTrailingDashesFacts(t);
    SliceKeepsShape(t, 0, |r|);
    assert r != [] ==> r[0] == t[0];
  }

  /** Whatever the title, its slug has the shape of a slug and keeps
      exactly the letters and digits of the lower-cased title, in order. */
  lemma GenerateSlugShape(title: string)
    ensures IsSlug(GenerateSlug(title))
    ensures Alnums(GenerateSlug(title)) == Alnums(ToLowerAscii(title))
  {
    var c := CollapseRuns(ToLowerAscii(title));
    LeadingDashesDropped(c);
    TrailingDashesDropped(DropLeadingDashes(c));
  }

  /** The slug in terms of the reference collapse: dash out, merge dashes,
      then drop the dashes at both ends. */
  lemma GenerateSlugReference(title: string)
    ensures GenerateSlug(title) ==
            DropTrailingDashes(DropLeadingDashes(MergeDashes(DashOut(ToLowerAscii(title)))))
  {
    CollapseRunsReference(ToLowerAscii(title));
  }

  /** Collapsing leaves a string alone that has no other characters than
      letters, digits and single dashes. */
  lemma {:induction false} CollapseKeepsSlugs(s: string)
    requires SlugAlphabet(s) && NoDoubleDash(s)
    ensures CollapseRuns(s) == s
  {
    if s != [] {
      SliceKeepsShape(s, 1, |s|);
      CollapseKeepsSlugs(s[1..]);
      assert s == [s[0]] + s[1..];
    }
  }

  /** A slug is its own slug. */
  lemma SlugOfSlug(s: string)
    requires IsSlug(s)
    ensures GenerateSlug(s) == s
  {
    assert ToLowerAscii(s) == s;
    CollapseKeepsSlugs(s);
  }

  /** Slugging twice is slugging once. */
  lemma GenerateSlugIdempotent(title: string)
    ensures GenerateSlug(GenerateSlug(title)) == GenerateSlug(title)
  {
    GenerateSlugShape(title);
    SlugOfSlug(GenerateSlug(title));
  }

  /** The strings `generateSlug` leaves unchanged are exactly the slugs. */
  lemma SlugFixpoints(s: string)
    ensures GenerateSlug(s) == s <==> IsSlug(s)
  {
    if IsSlug(s) {
      SlugOfSlug(s);
    } else {
      GenerateSlugShape(s);
    }
  }
}
