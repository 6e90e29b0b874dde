/** `slugify` from the formatter: the anchor identifier derived from a
    heading's plain text. It is the composition of five string passes:

      toLowerCase()
      replace(/[^\w\s-]/g, '')     drop everything but word chars, spaces, '-'
      replace(/\s+/g, '-')         each whitespace run becomes one '-'
      replace(/-+/g, '-')          each hyphen run becomes one '-'
      trim()

    `\w` in a regular expression without the `u` flag is ASCII-only, while
    `\s` and `trim` use the full set of Unicode spaces listed in IsSpace. */
module Slug {

  /** JavaScript's `\s` class; `trim` strips exactly this set too. */
  predicate IsSpace(c: char) {
    || c == '\t' || c == '\n' || c == '\U{000B}' || c == '\U{000C}' || c == '\r' || c == ' '
    || c == '\U{00A0}' || c == '\U{1680}' || ('\U{2000}' <= c <= '\U{200A}')
    || c == '\U{2028}' || c == '\U{2029}' || c == '\U{202F}' || c == '\U{205F}'
    || c == '\U{3000}' || c == '\U{FEFF}'
  }

  /** `\w`: ASCII letters, digits and underscore. */
  predicate IsWordChar(c: char) {
    ('a' <= c <= 'z') || ('A' <= c <= 'Z') || ('0' <= c <= '9') || c == '_'
  }

  /** The characters a slug is made of. */
  predicate IsSlugChar(c: char) {
    ('a' <= c <= 'z') || ('0' <= c <= '9') || c == '_' || c == '-'
  }

  lemma NoSpaceInWords(c: char)
    requires IsSlugChar(c) || IsWordChar(c)
    ensures !IsSpace(c)
  {
  }

  predicate AllSlugChars(s: string) {
    forall i :: 0 <= i < |s| ==> IsSlugChar(s[i])
  }

  /** No '-' is immediately followed by another '-'. */
  predicate NoDoubleHyphen(s: string) {
    |s| < 2 || (!(s[0] == '-' && s[1] == '-') && NoDoubleHyphen(s[1..]))
  }

  function Last(s: string): char
    requires |s| > 0
  {
    s[|s| - 1]
  }

  /** What every slug looks like: slug characters only, never "--". */
  predicate IsSlug(s: string) {
    AllSlugChars(s) && NoDoubleHyphen(s)
  }

  // ---------------------------------------------------------------------
  // toLowerCase

  /** Characters whose lower-case form differs from themselves in a way that
      can survive the later passes: ASCII capitals, U+0130 (whose lower case
      is "i" followed by U+0307) and the Kelvin sign U+212A (lower case "k"). */
  predicate HasCaseMapping(c: char) {
    ('A' <= c <= 'Z') || c == '\U{0130}' || c == '\U{212A}'
  }

  /** `toLowerCase` on one character. Every other character is kept as is:
      its real lower-case form is again a non-ASCII character that is a space
      exactly when the original is, so the next pass treats both alike. */
  function LowerChar(c: char): (r: string)
    ensures HasCaseMapping(c) <==> r != [c]
    ensures IsWordChar(c) ==> |r| == 1 && IsSlugChar(r[0])
    ensures forall j :: 0 <= j < |r| ==> !('A' <= r[j] <= 'Z')
  {
    if 'A' <= c <= 'Z' then [(c as int + 32) as char]
    else if c == '\U{0130}' then "i\U{0307}"
    else if c == '\U{212A}' then "k"
    else [c]
  }

  function ToLowerCase(s: string): string {
    if |s| == 0 then "" else LowerChar(s[0]) + ToLowerCase(s[1..])
  }

  lemma {:induction false} ToLowerCaseAppend(a: string, b: string)
    ensures ToLowerCase(a + b) == ToLowerCase(a) + ToLowerCase(b)
    decreases |a|
  {
    if |a| == 0 {
      assert a + b == b;
    } else {
      assert (a + b)[1..] == a[1..] + b;
      ToLowerCaseAppend(a[1..], b);
    }
  }

  predicate NoCapitals(s: string) {
    forall i :: 0 <= i < |s| ==> !('A' <= s[i] <= 'Z')
  }

  /** Lower-casing leaves no ASCII capital behind. */
  lemma {:induction false} ToLowerCaseNoCapitals(s: string)
    ensures NoCapitals(ToLowerCase(s))
    decreases |s|
  {
    if |s| > 0 {
      ToLowerCaseNoCapitals(s[1..]);
      var head, tail := LowerChar(s[0]), ToLowerCase(s[1..]);
      var r := head + tail;
      assert ToLowerCase(s) == r;
      forall j | 0 <= j < |r|
        ensures !('A' <= r[j] <= 'Z')
      {
        if j >= |head| {
          assert r[j] == tail[j - |head|];
        } else {
          assert r[j] == head[j];
        }
      }
    }
  }

  /** Text without case-mapped characters is left unchanged. */
  lemma {:induction false} ToLowerCaseUnmapped(s: string)
    requires forall i :: 0 <= i < |s| ==> !HasCaseMapping(s[i])
    ensures ToLowerCase(s) == s
    decreases |s|
  {
    if |s| > 0 {
      ToLowerCaseUnmapped(s[1..]);
      assert [s[0]] + s[1..] == s;
    }
  }

  lemma ToLowerCaseSingle(c: char)
    ensures ToLowerCase([c]) == LowerChar(c)
  {
    assert ToLowerCase([c]) == LowerChar(c) + ToLowerCase([]);
  }

  // ---------------------------------------------------------------------
  // replace(/[^\w\s-]/g, '')

  /** The characters `/[^\w\s-]/g` does not remove. */
  predicate IsKept(c: char) {
    IsWordChar(c) || IsSpace(c) || c == '-'
  }

  function StripPunctuation(s: string): (r: string)
    ensures |r| <= |s|
    ensures forall i :: 0 <= i < |r| ==> IsKept(r[i])
  {
    if |s| == 0 then ""
    else if IsKept(s[0]) then [s[0]] + StripPunctuation(s[1..])
    else StripPunctuation(s[1..])
  }

  lemma {:induction false} StripPunctuationAppend(a: string, b: string)
    ensures StripPunctuation(a + b) == StripPunctuation(a) + StripPunctuation(b)
    decreases |a|
  {
    if |a| == 0 {
      assert a + b == b;
    } else {
      assert (a + b)[1..] == a[1..] + b;
      StripPunctuationAppend(a[1..], b);
    }
  }

  lemma StripPunctuationSingle(c: char)
    requires IsKept(c)
    ensures StripPunctuation([c]) == [c]
  {
    assert StripPunctuation([c]) == [c] + StripPunctuation([]);
  }

  /** A character outside `\w`, `\s` and `-` is removed, not replaced: the
      text around it closes up. */
  lemma StripPunctuationDrops(a: string, c: char, b: string)
    requires !IsKept(c)
    ensures StripPunctuation(a + [c] + b) == StripPunctuation(a) + StripPunctuation(b)
  {
    StripPunctuationAppend(a + [c], b);
    StripPunctuationAppend(a, [c]);
    assert StripPunctuation([c]) == StripPunctuation([]);
  }

  /** Only kept characters that were already there come out; without
      capitals in, the survivors are slug characters and spaces. */
  predicate SlugCharsOrSpaces(s: string) {
    forall i :: 0 <= i < |s| ==> IsSlugChar(s[i]) || IsSpace(s[i])
  }

  lemma {:induction false} StripPunctuationChars(s: string)
    requires NoCapitals(s)
    ensures SlugCharsOrSpaces(StripPunctuation(s))
    decreases |s|
  {
    if |s| > 0 {
      assert NoCapitals(s[1..]) by {
        forall i | 0 <= i < |s[1..]|
          ensures !('A' <= s[1..][i] <= 'Z')
        {
          assert s[1..][i] == s[i + 1];
        }
      }
      StripPunctuationChars(s[1..]);
      var r, tail := StripPunctuation(s), StripPunctuation(s[1..]);
      if IsKept(s[0]) {
        assert r == [s[0]] + tail;
        assert !('A' <= s[0] <= 'Z');
        assert IsSlugChar(s[0]) || IsSpace(s[0]);
        forall j | 0 <= j < |r|
          ensures IsSlugChar(r[j]) || IsSpace(r[j])
        {
          if j > 0 {
            assert r[j] == tail[j - 1];
          }
        }
      } else {
        assert r == tail;
      }
    }
  }

  /** Text made of kept characters is left unchanged. */
  lemma {:induction false} StripPunctuationKept(s: string)
    requires forall i :: 0 <= i < |s| ==> IsKept(s[i])
    ensures StripPunctuation(s) == s
    decreases |s|
  {
    if |s| > 0 {
      StripPunctuationKept(s[1..]);
      assert [s[0]] + s[1..] == s;
    }
  }

  // ---------------------------------------------------------------------
  // replace(/\s+/g, '-') and replace(/-+/g, '-')

  /** The two run-collapsing passes: `/\s+/g` and `/-+/g`, both replaced by
      a single '-'. */
  datatype RunKind = Whitespace | Hyphens

  predicate InRun(k: RunKind, c: char) {
    match k
    case Whitespace => IsSpace(c)
    case Hyphens => c == '-'
  }

  /** Drops the maximal run of `k` characters at the front of `s`. */
  function SkipRun(s: string, k: RunKind): (r: string)
    ensures |r| <= |s| && r == s[|s| - |r|..]
    ensures |r| > 0 ==> !InRun(k, r[0])
    ensures |s| > 0 && InRun(k, s[0]) ==> |r| < |s|
  {
    if |s| > 0 && InRun(k, s[0]) then SkipRun(s[1..], k) else s
  }

  /** A run stops at the last character when that is not a run character. */
  lemma {:induction false} SkipRunKeepsLast(s: string, k: RunKind)
    requires |s| > 0 && !InRun(k, s[|s| - 1])
    ensures |SkipRun(s, k)| > 0
    decreases |s|
  {
    if InRun(k, s[0]) {
      SkipRunKeepsLast(s[1..], k);
    }
  }

  /** A run that ends inside `x` cannot reach into what follows. */
  lemma {:induction false} SkipRunAppend(x: string, y: string, k: RunKind)
    requires |x| > 0 && !InRun(k, x[|x| - 1])
    ensures SkipRun(x + y, k) == SkipRun(x, k) + y
    decreases |x|
  {
    var xy := x + y;
    assert xy[0] == x[0];
    if InRun(k, x[0]) {
      assert xy[1..] == x[1..] + y;
      SkipRunAppend(x[1..], y, k);
    }
  }

  /** A global regular-expression replacement of the runs of `k` characters
      by one '-', scanning left to right with greedy matches. */
  function ReplaceRuns(s: string, k: RunKind): (r: string)
    ensures |s| > 0 <==> |r| > 0
    ensures |s| > 0 ==> r[0] == (if InRun(k, s[0]) then '-' else s[0])
    ensures k == Hyphens ==> NoDoubleHyphen(r)
    decreases |s|
  {
    if |s| == 0 then ""
    else if InRun(k, s[0]) then
      var tail := ReplaceRuns(SkipRun(s, k), k);
      assert ("-" + tail)[1..] == tail;
      "-" + tail
    else
      var tail := ReplaceRuns(s[1..], k);
      assert ([s[0]] + tail)[1..] == tail;
      [s[0]] + tail
  }

  /** The pass only writes '-' and copies characters outside runs, so it
      turns a string of slug characters and run characters into slug
      characters only. */
  lemma {:induction false} ReplaceRunsSlugChars(s: string, k: RunKind)
    requires forall i :: 0 <= i < |s| ==> IsSlugChar(s[i]) || InRun(k, s[i])
    ensures AllSlugChars(ReplaceRuns(s, k))
    decreases |s|
  {
    if |s| > 0 {
      var r := ReplaceRuns(s, k);
      var t: string;
      if InRun(k, s[0]) {
        var rest := SkipRun(s, k);
        assert forall i :: 0 <= i < |rest| ==> rest[i] == s[|s| - |rest| + i];
        ReplaceRunsSlugChars(rest, k);
        t := ReplaceRuns(rest, k);
      } else {
        ReplaceRunsSlugChars(s[1..], k);
        t := ReplaceRuns(s[1..], k);
      }
      assert r == [r[0]] + t;
      forall j | 0 <= j < |r|
        ensures IsSlugChar(r[j])
      {
        if j > 0 {
          assert r[j] == t[j - 1];
        }
      }
    }
  }

  /** A trailing run becomes a trailing '-'; any other last character stays. */
  lemma {:induction false} ReplaceRunsLast(s: string, k: RunKind)
    requires |s| > 0
    ensures Last(ReplaceRuns(s, k)) == (if InRun(k, Last(s)) then '-' else Last(s))
    decreases |s|
  {
    var r := ReplaceRuns(s, k);
    if InRun(k, s[0]) {
      var rest := SkipRun(s, k);
      var t := ReplaceRuns(rest, k);
      assert r == "-" + t;
      if |rest| > 0 {
        ReplaceRunsLast(rest, k);
        assert rest[|rest| - 1] == s[|s| - 1];
        assert r[|r| - 1] == t[|t| - 1];
      } else if !InRun(k, s[|s| - 1]) {
        SkipRunKeepsLast(s, k);
      }
    } else if |s| > 1 {
      var t := ReplaceRuns(s[1..], k);
      assert r == [s[0]] + t;
      ReplaceRunsLast(s[1..], k);
      assert r[|r| - 1] == t[|t| - 1];
    }
  }

  /** With no run to replace, the pass changes nothing. */
  lemma {:induction false} ReplaceRunsNoRun(s: string, k: RunKind)
    requires forall i :: 0 <= i < |s| ==> !InRun(k, s[i])
    ensures ReplaceRuns(s, k) == s
    decreases |s|
  {
    if |s| > 0 {
      ReplaceRunsNoRun(s[1..], k);
      assert [s[0]] + s[1..] == s;
    }
  }

  /** When `x` does not end inside a run, the pass works on `x` and on what
      follows independently. */
  lemma {:induction false} ReplaceRunsAppend(x: string, y: string, k: RunKind)
    requires |x| > 0 ==> !InRun(k, x[|x| - 1])
    ensures ReplaceRuns(x + y, k) == ReplaceRuns(x, k) + ReplaceRuns(y, k)
    decreases |x|
  {
    if |x| == 0 {
      assert x + y == y;
      return;
    }
    var rest := ReplaceRunsStep(x, y, k);
    ReplaceRunsAppend(rest, y, k);
    SeqAssoc([ReplaceRuns(x, k)[0]], ReplaceRuns(rest, k), ReplaceRuns(y, k));
  }

  lemma SeqAssoc(a: string, b: string, c: string)
    ensures a + (b + c) == (a + b) + c
  {
  }

  /** One step of the scan over `x + y`: the first output character, and
      the part of `x` still to be scanned. */
  lemma ReplaceRunsStep(x: string, y: string, k: RunKind) returns (rest: string)
    requires |x| > 0 && !InRun(k, x[|x| - 1])
    ensures |rest| < |x| && (|rest| > 0 ==> !InRun(k, rest[|rest| - 1]))
    ensures ReplaceRuns(x, k) == [ReplaceRuns(x, k)[0]] + ReplaceRuns(rest, k)
    ensures ReplaceRuns(x + y, k) == [ReplaceRuns(x, k)[0]] + ReplaceRuns(rest + y, k)
  {
    var xy := x + y;
    assert xy[0] == x[0];
    if InRun(k, x[0]) {
      rest := SkipRun(x, k);
      SkipRunKeepsLast(x, k);
      SkipRunAppend(x, y, k);
      assert rest[|rest| - 1] == x[|x| - 1];
    } else {
      rest := x[1..];
      assert xy[1..] == rest + y;
    }
  }

  /** Hyphen runs of length one are replaced by themselves. */
  lemma {:induction false} ReplaceRunsSingleHyphens(s: string)
    requires NoDoubleHyphen(s)
    ensures ReplaceRuns(s, Hyphens) == s
    decreases |s|
  {
    if |s| > 0 {
      ReplaceRunsSingleHyphens(s[1..]);
      if s[0] == '-' && |s| > 1 {
        assert SkipRun(s[1..], Hyphens) == s[1..];
      }
      assert [s[0]] + s[1..] == s;
    }
  }

  /** A run of spaces in front of a non-space is skipped entirely. */
  lemma {:induction false} SkipRunOverSpaces(w: string, b: string)
    requires forall i :: 0 <= i < |w| ==> IsSpace(w[i])
    requires |b| > 0 && !IsSpace(b[0])
    ensures SkipRun(w + b, Whitespace) == b
    decreases |w|
  {
    var wb := w + b;
    if |w| == 0 {
      assert wb == b;
    } else {
      assert wb[0] == w[0] && wb[1..] == w[1..] + b;
      SkipRunOverSpaces(w[1..], b);
    }
  }

  // ---------------------------------------------------------------------
  // trim()

  function TrimStart(s: string): (r: string)
    ensures |r| <= |s| && r == s[|s| - |r|..]
    ensures |r| > 0 ==> !IsSpace(r[0])
    ensures forall i :: 0 <= i < |s| - |r| ==> IsSpace(s[i])
  {
    if |s| > 0 && IsSpace(s[0]) then TrimStart(s[1..]) else s
  }

  function TrimEnd(s: string): (r: string)
    ensures |r| <= |s| && r == s[..|r|]
    ensures |r| > 0 ==> !IsSpace(r[|r| - 1])
    ensures forall i :: |r| <= i < |s| ==> IsSpace(s[i])
  {
    if |s| > 0 && IsSpace(s[|s| - 1]) then TrimEnd(s[..|s| - 1]) else s
  }

  /** `trim()`: the result neither starts nor ends with whitespace;
      `TrimExact` states that only the surrounding whitespace goes. */
  function Trim(s: string): (r: string)
    ensures |r| <= |s|
    ensures |r| > 0 ==> !IsSpace(r[0]) && !IsSpace(r[|r| - 1])
  {
    TrimEnd(TrimStart(s))
  }

  /** A prefix `r` of a suffix `t` of `s`, where everything cut off on
      either side is whitespace, is the slice of `s` between two runs of
      whitespace. */
  lemma SliceBetweenSpaces(s: string, t: string, r: string)
    requires |t| <= |s| && t == s[|s| - |t|..]
    requires |r| <= |t| && r == t[..|r|]
    requires forall k :: 0 <= k < |s| - |t| ==> IsSpace(s[k])
    requires forall k :: |r| <= k < |t| ==> IsSpace(t[k])
    ensures var i := |s| - |t|;
      i + |r| <= |s| && r == s[i..i + |r|]
      && (forall k :: 0 <= k < i ==> IsSpace(s[k]))
      && (forall k :: i + |r| <= k < |s| ==> IsSpace(s[k]))
  {
    var i := |s| - |t|;
    forall k | i + |r| <= k < |s|
      ensures IsSpace(s[k])
    {
      assert s[k] == t[k - i];
    }
  }

  /** `trim()` removes the leading and trailing whitespace and nothing else:
      the result is the slice of the input between them. */
  lemma TrimExact(s: string)
    ensures var r, i := Trim(s), |s| - |TrimStart(s)|;
      i + |r| <= |s| && r == s[i..i + |r|]
      && (forall k :: 0 <= k < i ==> IsSpace(s[k]))
      && (forall k :: i + |r| <= k < |s| ==> IsSpace(s[k]))
  {
    var t := TrimStart(s);
    var r := TrimEnd(t);
    assert Trim(s) == r;
    assert |t| <= |s| && t == s[|s| - |t|..];
    assert |r| <= |t| && r == t[..|r|];
    SliceBetweenSpaces(s, t, r);
  }

  // ---------------------------------------------------------------------
  // slugify

  /** The first two passes. */
  function Kept(text: string): string {
    StripPunctuation(ToLowerCase(text))
  }

  /** The four passes before `trim`. */
  function Collapse(text: string): string {
    ReplaceRuns(ReplaceRuns(Kept(text), Whitespace), Hyphens)
  }

  /** The four passes before `trim` already produce a slug. */
  lemma CollapseIsSlug(text: string)
    ensures IsSlug(Collapse(text))
  {
    var lowered := ToLowerCase(text);
    ToLowerCaseNoCapitals(text);
    StripPunctuationChars(lowered);
    var kept := StripPunctuation(lowered);
    assert forall i :: 0 <= i < |kept| ==> IsSlugChar(kept[i]) || InRun(Whitespace, kept[i]);
    ReplaceRunsSlugChars(kept, Whitespace);
    var spaced := ReplaceRuns(kept, Whitespace);
    ReplaceRunsSlugChars(spaced, Hyphens);
  }

  lemma SlugHasNoSpace(s: string)
    requires AllSlugChars(s)
    ensures forall i :: 0 <= i < |s| ==> !IsSpace(s[i])
  {
    forall i | 0 <= i < |s|
      ensures !IsSpace(s[i])
    {
      NoSpaceInWords(s[i]);
    }
  }

  /** `trim` on a string without spaces changes nothing. */
  lemma TrimNoSpace(s: string)
    requires forall i :: 0 <= i < |s| ==> !IsSpace(s[i])
    ensures Trim(s) == s
  {
    assert TrimStart(s) == s;
    assert TrimEnd(s) == s;
  }

  function Slugify(text: string): (r: string)
    ensures IsSlug(r)
  {
    var c := Collapse(text);
    CollapseIsSlug(text);
    SlugHasNoSpace(c);
    TrimNoSpace(c);
    Trim(c)
  }

  /** `trim` runs after every space has become '-', so it never removes
      anything: the slug is exactly the result of the first four passes. */
  lemma TrimChangesNothing(text: string)
    ensures Slugify(text) == Collapse(text)
  {
    CollapseIsSlug(text);
    SlugHasNoSpace(Collapse(text));
    TrimNoSpace(Collapse(text));
  }

  // ---------------------------------------------------------------------
  // Properties of slugify

  /** A slug is a fixed point of every pass. */
  lemma SlugIsFixedPoint(s: string)
    requires IsSlug(s)
    ensures Slugify(s) == s
  {
    TrimChangesNothing(s);
    SlugHasNoSpace(s);
    ToLowerCaseUnmapped(s);
    StripPunctuationKept(s);
    ReplaceRunsNoRun(s, Whitespace);
    ReplaceRunsSingleHyphens(s);
  }

  /** Slugifying twice is slugifying once. */
  lemma SlugifyIdempotent(text: string)
    ensures Slugify(Slugify(text)) == Slugify(text)
  {
    SlugIsFixedPoint(Slugify(text));
  }

  /** Leading whitespace is not trimmed away but turns into a leading '-'. */
  lemma LeadingSpaceBecomesHyphen(text: string)
    requires |text| > 0 && IsSpace(text[0])
    ensures |Slugify(text)| > 0 && Slugify(text)[0] == '-'
  {
    TrimChangesNothing(text);
    var lowered := ToLowerCase(text);
    assert lowered == [text[0]] + ToLowerCase(text[1..]);
    var kept := StripPunctuation(lowered);
    assert kept == [text[0]] + StripPunctuation(lowered[1..]);
  }

  /** A space at the end of the text survives lower-casing and stripping as
      the last character. */
  lemma LastSpaceKept(text: string)
    requires |text| > 0 && IsSpace(text[|text| - 1])
    ensures |Kept(text)| > 0 && Kept(text)[|Kept(text)| - 1] == text[|text| - 1]
  {
    var n := |text|;
    var init, last := text[..n - 1], text[n - 1];
    assert text == init + [last];
    ToLowerCaseAppend(init, [last]);
    ToLowerCaseSingle(last);
    StripPunctuationAppend(ToLowerCase(init), [last]);
    StripPunctuationSingle(last);
  }

  /** Trailing whitespace likewise turns into a trailing '-'. */
  lemma TrailingSpaceBecomesHyphen(text: string)
    requires |text| > 0 && IsSpace(text[|text| - 1])
    ensures |Slugify(text)| > 0 && Slugify(text)[|Slugify(text)| - 1] == '-'
  {
    TrimChangesNothing(text);
    LastSpaceKept(text);
    var kept := Kept(text);
    ReplaceRunsLast(kept, Whitespace);
    var spaced := ReplaceRuns(kept, Whitespace);
    assert Last(spaced) == '-';
    ReplaceRunsLast(spaced, Hyphens);
  }

  /** A word character at the end survives lower-casing and stripping as a
      (lower-case) word character. */
  lemma WordCharEndsStripped(a: string)
    requires |a| > 0 && IsWordChar(a[|a| - 1])
    ensures |Kept(a)| > 0 && IsSlugChar(Kept(a)[|Kept(a)| - 1]) && Kept(a)[|Kept(a)| - 1] != '-'
  {
    var n := |a|;
    var init, last := a[..n - 1], a[n - 1];
    assert a == init + [last];
    ToLowerCaseAppend(init, [last]);
    ToLowerCaseSingle(last);
    var c := LowerChar(last)[0];
    assert LowerChar(last) == [c];
    StripPunctuationAppend(ToLowerCase(init), [c]);
    StripPunctuationSingle(c);
  }

  /** A word character at the start survives lower-casing and stripping as a
      (lower-case) word character. */
  lemma WordCharStartsStripped(b: string)
    requires |b| > 0 && IsWordChar(b[0])
    ensures |Kept(b)| > 0 && IsSlugChar(Kept(b)[0]) && Kept(b)[0] != '-'
  {
    var lb := ToLowerCase(b);
    assert lb == LowerChar(b[0]) + ToLowerCase(b[1..]);
    assert lb[0] == LowerChar(b[0])[0];
    assert StripPunctuation(lb) == [lb[0]] + StripPunctuation(lb[1..]);
  }

  /** Lower-casing and stripping of `a + w + b`, with `w` all spaces. */
  lemma StrippedAround(a: string, w: string, b: string)
    requires forall i :: 0 <= i < |w| ==> IsSpace(w[i])
    ensures Kept(a + w + b) == Kept(a) + w + Kept(b)
  {
    var la, lb := ToLowerCase(a), ToLowerCase(b);
    ToLowerCaseAppend(a + w, b);
    ToLowerCaseAppend(a, w);
    forall i | 0 <= i < |w|
      ensures !HasCaseMapping(w[i]) && IsKept(w[i])
    {
    }
    ToLowerCaseUnmapped(w);
    StripPunctuationKept(w);
    StripPunctuationAppend(la + w, lb);
    StripPunctuationAppend(la, w);
  }

  /** The whitespace pass turns the space run between two non-space
      characters into a single '-'. */
  lemma SpacesBetween(A: string, w: string, B: string)
    requires |A| > 0 && !IsSpace(A[|A| - 1])
    requires |w| > 0 && forall i :: 0 <= i < |w| ==> IsSpace(w[i])
    requires |B| > 0 && !IsSpace(B[0])
    ensures ReplaceRuns(A + w + B, Whitespace)
         == ReplaceRuns(A, Whitespace) + "-" + ReplaceRuns(B, Whitespace)
  {
    SeqAssoc(A, w, B);
    ReplaceRunsAppend(A, w + B, Whitespace);
    SkipRunOverSpaces(w, B);
    assert (w + B)[0] == w[0];
    assert ReplaceRuns(w + B, Whitespace) == "-" + ReplaceRuns(B, Whitespace);
    SeqAssoc(ReplaceRuns(A, Whitespace), "-", ReplaceRuns(B, Whitespace));
  }

  /** The hyphen pass keeps a lone '-' between two non-hyphens. */
  lemma HyphenBetween(X: string, Y: string)
    requires |X| > 0 && X[|X| - 1] != '-'
    requires |Y| > 0 && Y[0] != '-'
    ensures ReplaceRuns(X + "-" + Y, Hyphens)
         == ReplaceRuns(X, Hyphens) + "-" + ReplaceRuns(Y, Hyphens)
  {
    SeqAssoc(X, "-", Y);
    ReplaceRunsAppend(X, "-" + Y, Hyphens);
    var hs := "-" + Y;
    assert hs[0] == '-' && hs[1..] == Y;
    assert SkipRun(hs[1..], Hyphens) == Y;
    assert ReplaceRuns(hs, Hyphens) == "-" + ReplaceRuns(Y, Hyphens);
    SeqAssoc(ReplaceRuns(X, Hyphens), "-", ReplaceRuns(Y, Hyphens));
  }

  /** A whitespace run between two words becomes exactly one '-': the slug
      of `a + w + b` is the slug of `a`, a hyphen, and the slug of `b`. */
  lemma WhitespaceRunCollapses(a: string, w: string, b: string)
    requires |a| > 0 && IsWordChar(a[|a| - 1])
    requires |w| > 0 && forall i :: 0 <= i < |w| ==> IsSpace(w[i])
    requires |b| > 0 && IsWordChar(b[0])
    ensures Slugify(a + w + b) == Slugify(a) + "-" + Slugify(b)
  {
    TrimChangesNothing(a + w + b);
    TrimChangesNothing(a);
    TrimChangesNothing(b);
    var A, B := Kept(a), Kept(b);
    StrippedAround(a, w, b);
    WordCharEndsStripped(a);
    WordCharStartsStripped(b);
    NoSpaceInWords(A[|A| - 1]);
    NoSpaceInWords(B[0]);
    SpacesBetween(A, w, B);
    var SA, SB := ReplaceRuns(A, Whitespace), ReplaceRuns(B, Whitespace);
    ReplaceRunsLast(A, Whitespace);
    HyphenBetween(SA, SB);
  }

  // ---------------------------------------------------------------------
  // Worked examples

  /** A capitalised word of ASCII letters keeps only its case change. */
  lemma KeptCapitalisedWord(c: char, rest: string)
    requires 'A' <= c <= 'Z'
    requires forall i :: 0 <= i < |rest| ==> 'a' <= rest[i] <= 'z'
    ensures Kept([c] + rest) == [(c as int + 32) as char] + rest
  {
    var low := [(c as int + 32) as char];
    ToLowerCaseAppend([c], rest);
    ToLowerCaseSingle(c);
    ToLowerCaseUnmapped(rest);
    assert ToLowerCase([c] + rest) == low + rest;
    StripPunctuationKept(low + rest);
  }

  /** The slug of a capitalised word is the word in lower case. */
  lemma CapitalisedWord(c: char, rest: string)
    requires 'A' <= c <= 'Z'
    requires forall i :: 0 <= i < |rest| ==> 'a' <= rest[i] <= 'z'
    ensures Slugify([c] + rest) == [(c as int + 32) as char] + rest
  {
    var word := [(c as int + 32) as char] + rest;
    KeptCapitalisedWord(c, rest);
    TrimChangesNothing([c] + rest);
    assert forall i :: 0 <= i < |word| ==> 'a' <= word[i] <= 'z';
    ReplaceRunsNoRun(word, Whitespace);
    ReplaceRunsNoRun(word, Hyphens);
  }

  /** Dropping a punctuation character that has no case mapping does not
      change the slug: `Hello, World!` and `Hello World` share one. */
  lemma PunctuationIgnored(a: string, c: char, b: string)
    requires !IsKept(c) && !HasCaseMapping(c)
    ensures Slugify(a + [c] + b) == Slugify(a + b)
  {
    var la, lb := ToLowerCase(a), ToLowerCase(b);
    ToLowerCaseAppend(a + [c], b);
    ToLowerCaseAppend(a, [c]);
    ToLowerCaseSingle(c);
    assert ToLowerCase(a + [c] + b) == la + [c] + lb;
    StripPunctuationDrops(la, c, lb);
    ToLowerCaseAppend(a, b);
    StripPunctuationAppend(la, lb);
    assert Kept(a + [c] + b) == Kept(a + b);
    TrimChangesNothing(a + [c] + b);
    TrimChangesNothing(a + b);
  }
}
