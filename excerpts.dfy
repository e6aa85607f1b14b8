/** `generateExcerpt` of the admin post route: remove every `<...>` tag
    from the content, and when more than `maxLength` characters remain,
    keep the first `maxLength`, trim them and append "...". */
module Excerpts {
  import opened JsText

  /** The `maxLength` every caller leaves at its default. */
  const EXCERPT_LENGTH: nat := 160

  /** No `<` is followed, anywhere later, by a `>`: the regular expression
      `/<[^>]*>/` finds nothing to remove. */
  ghost predicate TagFree(s: string) {
    forall i, j :: 0 <= i < j < |s| && s[i] == '<' ==> s[j] != '>'
  }

  /** Position of the first `>` in `s`, or `|s|` when there is none. */
  function CloseAt(s: string): (k: nat)
    ensures k <= |s|
    ensures k < |s| ==> s[k] == '>'
  {
    if s == [] || s[0] == '>' then 0 else 1 + CloseAt(s[1..])
  }

  /** No `>` comes before that position. */
  lemma {:induction false} CloseAtFirst(s: string)
    ensures '>' !in s[..CloseAt(s)]
  {
    if s != [] && s[0] != '>' {
      CloseAtFirst(s[1..]);
      assert s[..CloseAt(s)] == [s[0]] + s[1..][..CloseAt(s[1..])];
    }
  }

  lemma TagFreeCons(c: char, rest: string)
    requires TagFree(rest)
    requires c == '<' ==> '>' !in rest
    ensures TagFree([c] + rest)
  {
    var s := [c] + rest;
    forall i, j | 0 <= i < j < |s| && s[i] == '<'
      ensures s[j] != '>'
    {
      assert s[j] == rest[j - 1];
      if i > 0 {
        assert s[i] == rest[i - 1];
      }
    }
  }

  lemma TagFreeSlice(s: string, a: nat, b: nat)
    requires a <= b <= |s| && TagFree(s)
    ensures TagFree(s[a..b])
  {
    var t := s[a..b];
    assert forall i :: 0 <= i < |t| ==> t[i] == s[a + i];
  }

  /** `content.replace(/<[^>]*>/g, "")`: scanning left to right, a `<`
      with a `>` somewhere after it starts a tag that runs to the first such
      `>` and is removed; any other character is kept. */
  function StripTags(s: string): string
    decreases |s|
  {
    if s == [] then []
    else if s[0] == '<' && CloseAt(s) < |s| then StripTags(s[CloseAt(s) + 1..])
    else [s[0]] + StripTags(s[1..])
  }

  /** A `<` with a `>` after it drops everything up to the first `>`. */
  lemma StripTagsSkipsTag(s: string, k: nat)
    requires s != [] && s[0] == '<' && k == CloseAt(s) < |s|
    ensures StripTags(s) == StripTags(s[k + 1..])
  {
  }

  /** A character that does not open a tag is kept. */
  lemma StripTagsKeepsHead(s: string)
    requires s != [] && !(s[0] == '<' && CloseAt(s) < |s|)
    ensures StripTags(s) == [s[0]] + StripTags(s[1..])
  {
  }

  /** The scan stops at a `>` that only `>`-free text precedes. */
  lemma {:induction false} CloseAtAfter(x: string, rest: string)
    requires '>' !in x && rest != [] && rest[0] == '>'
    ensures CloseAt(x + rest) == |x|
  {
    if x != [] {
      assert (x + rest)[1..] == x[1..] + rest;
      assert x[0] != '>';
      CloseAtAfter(x[1..], rest);
    } else {
      assert x + rest == rest;
    }
  }

  /** Text with no `<` in it survives in front of whatever follows. */
  lemma {:induction false} StripTagsKeepsPlain(a: string, b: string)
    requires '<' !in a
    ensures StripTags(a + b) == a + StripTags(b)
  {
    if a == [] {
      assert a + b == b;
    } else {
      var s := a + b;
      assert s[0] == a[0] && s[1..] == a[1..] + b;
      StripTagsKeepsHead(s);
      StripTagsKeepsPlain(a[1..], b);
      assert a == [a[0]] + a[1..];
    }
  }

  /** A `<`, text without `>`, then a `>`: the whole tag goes, and only it. */
  lemma StripTagsDropsTag(x: string, b: string)
    requires '>' !in x
    ensures StripTags("<" + x + ">" + b) == StripTags(b)
  {
    var s := "<" + x + ">" + b;
    var rest := ">" + b;
    assert s == "<" + (x + rest);
    assert s[1..] == x + rest;
    CloseAtAfter(x, rest);
    var k := |x| + 1;
    assert CloseAt(s) == k by {
      assert s[0] != '>';
    }
    StripTagsSkipsTag(s, k);
    assert s[k + 1..] == b;
  }

  /** Both laws together: of an element, the markup goes and the text
      between the opening and the closing tag stays. */
  lemma StripTagsElement(x: string, a: string, y: string)
    requires '>' !in x && '<' !in a && '>' !in y
    ensures StripTags("<" + x + ">" + a + "<" + y + ">") == a
  {
    var close := "<" + y + ">";
    assert "<" + x + ">" + a + "<" + y + ">" == "<" + x + ">" + (a + close);
    StripTagsDropsTag(x, a + close);
    StripTagsKeepsPlain(a, close);
    assert close == "<" + y + ">" + [];
    StripTagsDropsTag(y, []);
    assert a + StripTags([]) == a;
  }

  lemma StripTagsExample()
    ensures StripTags("<b>hi</b>") == "hi"
  {
    assert "<b>hi</b>" == "<" + "b" + ">" + "hi" + "<" + "/b" + ">";
    StripTagsElement("b", "hi", "/b");
  }

  /** Removing tags never lengthens the text. */
  lemma {:induction false} StripTagsShorter(s: string)
    ensures |StripTags(s)| <= |s|
    decreases |s|
  {
    if s != [] {
      var k := CloseAt(s);
      if s[0] == '<' && k < |s| {
        StripTagsSkipsTag(s, k);
        StripTagsShorter(s[k + 1..]);
      } else {
        StripTagsKeepsHead(s);
        StripTagsShorter(s[1..]);
      }
    }
  }

  /** What is left is made of characters of the input. */
  lemma {:induction false} StripTagsChars(s: string)
    ensures forall i :: 0 <= i < |StripTags(s)| ==> StripTags(s)[i] in s
    decreases |s|
  {
    if s != [] {
      var k := CloseAt(s);
      var r := StripTags(s);
      if s[0] == '<' && k < |s| {
        StripTagsSkipsTag(s, k);
        StripTagsChars(s[k + 1..]);
        forall i | 0 <= i < |r|
          ensures r[i] in s
        {
          assert r[i] in s[k + 1..];
        }
      } else {
        var rest := StripTags(s[1..]);
        StripTagsKeepsHead(s);
        StripTagsChars(s[1..]);
        forall i | 1 <= i < |r|
          ensures r[i] in s
        {
          assert r[i] == rest[i - 1];
          assert rest[i - 1] in s[1..];
        }
      }
    }
  }

  /** What is left is free of tags. */
  lemma {:induction false} StripTagsTagFree(s: string)
    ensures TagFree(StripTags(s))
    decreases |s|
  {
    if s != [] {
      var k := CloseAt(s);
      if s[0] == '<' && k < |s| {
        StripTagsSkipsTag(s, k);
        StripTagsTagFree(s[k + 1..]);
      } else {
        var rest := StripTags(s[1..]);
        StripTagsKeepsHead(s);
        StripTagsTagFree(s[1..]);
        StripTagsChars(s[1..]);
        CloseAtFirst(s);
        assert s[0] == '<' ==> s[..k] == s;
        TagFreeCons(s[0], rest);
      }
    }
  }

  /** In tag-free text a leading `<` closes nowhere. */
  lemma TagFreeHead(s: string)
    requires TagFree(s)
    ensures s != [] && s[0] == '<' ==> CloseAt(s) == |s|
  {

  }

  /** Text without tags passes through unchanged. */
  lemma {:induction false} StripTagsKeepsTagFree(s: string)
    requires TagFree(s)
    ensures StripTags(s) == s
    decreases |s|
  {
    if s != [] {
      TagFreeHead(s);
      TagFreeSlice(s, 1, |s|);
      StripTagsKeepsTagFree(s[1..]);
      StripTagsKeepsHead(s);
      assert s == [s[0]] + s[1..];
    }
  }

  /** Stripping twice is stripping once. */
  lemma StripTagsIdempotent(s: string)
    ensures StripTags(StripTags(s)) == StripTags(s)
  {
    StripTagsTagFree(s);
    StripTagsKeepsTagFree(StripTags(s));
  }

  /** `r` is the first `n` characters of `text`, trimmed, followed by "...". */
  ghost predicate TrimmedTruncation(text: string, n: nat, r: string)
    requires n <= |text|
  {
    exists stem, a :: TrimmedAt(text[..n], stem, a) && r == stem + "..."
      && (stem == [] || (!IsWhitespace(stem[0]) && !IsWhitespace(stem[|stem| - 1])))
  }

  lemma TagFreeWithDots(stem: string)
    requires TagFree(stem)
    ensures TagFree(stem + "...")
  {
    var r := stem + "...";
    forall i, j | 0 <= i < j < |r| && r[i] == '<'
      ensures r[j] != '>'
    {
      if j >= |stem| {
        assert r[j] == "..."[j - |stem|];
      } else {
        assert r[i] == stem[i] && r[j] == stem[j];
      }
    }
  }

  lemma SliceOfPrefix(s: string, n: nat, a: nat, b: nat)
    requires a <= b <= n <= |s|
    ensures s[..n][a..b] == s[a..b]
  {
  }

  /** Trimming the first `n` characters of tag-free text and appending
      "..." gives tag-free text that is a trimmed truncation of it. */
  lemma TruncateAndTrim(text: string, n: nat)
    requires n <= |text| && TagFree(text)
    ensures TrimmedTruncation(text, n, Trim(text[..n]) + "...")
    ensures TagFree(Trim(text[..n]) + "...")
  {
    var prefix := text[..n];
    var stem := Trim(prefix);
    var a := |prefix| - |TrimStart(prefix)|;
    var b := a + |stem|;
    SliceOfPrefix(text, n, a, b);
    TagFreeSlice(text, a, b);
    TagFreeWithDots(stem);
  }

  /** `generateExcerpt(content, maxLength)`. */
  function GenerateExcerpt(content: string, maxLength: nat): string {
    var text := StripTags(content);
    if |text| <= maxLength then text else Trim(text[..maxLength]) + "..."
  }

  /** The excerpt is free of tags and at most three characters over the
      limit: the tag-free text itself when it fits, otherwise its first
      `maxLength` characters, trimmed, followed by "...". */
  lemma GenerateExcerptFacts(content: string, maxLength: nat)
    ensures var r := GenerateExcerpt(content, maxLength);
            && TagFree(r)
            && |r| <= maxLength + 3
            && (|StripTags(content)| <= maxLength ==> r == StripTags(content))
            && (|StripTags(content)| > maxLength ==> TrimmedTruncation(StripTags(content), maxLength, r))
  {
    var text := StripTags(content);
    StripTagsTagFree(content);
    if |text| > maxLength {
      TruncateAndTrim(text, maxLength);
    }
  }
}
