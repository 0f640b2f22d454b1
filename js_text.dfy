/** The pieces of JavaScript string behaviour the two passes rely on, over `string`
    (`seq<char>`): the `\s` class and `trim`, `split(/\s+/)`, `indexOf`, the font
    property test `/\bfont(-family)?\b/i` and the `src` regex
    `/url\s*\(\s*(['"]?)(.+?)\1\s*\)/`, each written out as the regular expression
    engine evaluates it (leftmost match, greedy and lazy quantifiers tried in order). */
module JsText {
  import opened Wrappers
  import opened Partition

  /** `\s`, and the characters `trim` removes: WhiteSpace and LineTerminator of the
      ECMAScript grammar. */
  predicate IsJsSpace(c: char) {
    var k := c as int;
    k == 0x09 || k == 0x0A || k == 0x0B || k == 0x0C || k == 0x0D || k == 0x20 || k == 0xA0 ||
    k == 0x1680 || (0x2000 <= k <= 0x200A) || k == 0x2028 || k == 0x2029 || k == 0x202F ||
    k == 0x205F || k == 0x3000 || k == 0xFEFF
  }

  /** The characters `.` does not match. */
  predicate IsLineTerminator(c: char) {
    c == '\n' || c == '\r' || c as int == 0x2028 || c as int == 0x2029
  }

  predicate NoSpace(s: string) {
    forall k :: 0 <= k < |s| ==> !IsJsSpace(s[k])
  }

  function IsNotSpace(): char -> bool {
    (c: char) => !IsJsSpace(c)
  }

  // ---------------------------------------------------------------------------
  // trim

  /** The string without its leading white space. */
  function TrimStart(s: string): string {
    if s != [] && IsJsSpace(s[0]) then TrimStart(s[1..]) else s
  }

  /** What `TrimStart` keeps is the end of its input, after a run of white space, and
      it does not start with white space. */
  lemma {:induction false} TrimStartFacts(s: string)
    ensures |TrimStart(s)| <= |s| && TrimStart(s) == s[|s| - |TrimStart(s)|..]
    ensures forall k :: 0 <= k < |s| - |TrimStart(s)| ==> IsJsSpace(s[k])
    ensures TrimStart(s) == [] || !IsJsSpace(TrimStart(s)[0])
  {
    if s != [] && IsJsSpace(s[0]) {
      TrimStartFacts(s[1..]);
      assert s[1..][|s| - 1 - |TrimStart(s)|..] == s[|s| - |TrimStart(s)|..];
      forall k | 1 <= k < |s| - |TrimStart(s)|
        ensures IsJsSpace(s[k])
      {
        assert s[k] == s[1..][k - 1];
      }
    }
  }

  /** The string without its trailing white space. */
  function TrimEnd(s: string): string {
    if s != [] && IsJsSpace(s[|s| - 1]) then TrimEnd(s[..|s| - 1]) else s
  }

  /** What `TrimEnd` keeps is the start of its input, before a run of white space, and
      it does not end with white space. */
  lemma {:induction false} TrimEndFacts(s: string)
    ensures |TrimEnd(s)| <= |s| && TrimEnd(s) == s[..|TrimEnd(s)|]
    ensures forall k :: |TrimEnd(s)| <= k < |s| ==> IsJsSpace(s[k])
    ensures TrimEnd(s) == [] || !IsJsSpace(TrimEnd(s)[|TrimEnd(s)| - 1])
  {
    if s != [] && IsJsSpace(s[|s| - 1]) {
      TrimEndFacts(s[..|s| - 1]);
      assert s[..|s| - 1][..|TrimEnd(s)|] == s[..|TrimEnd(s)|];
      forall k | |TrimEnd(s)| <= k < |s| - 1
        ensures IsJsSpace(s[k])
      {
        assert s[k] == s[..|s| - 1][k];
      }
    }
  }

  /** `String.prototype.trim`. */
  function Trim(s: string): string {
    TrimEnd(TrimStart(s))
  }

  /** `trim` removes white space only, and only at the two ends: the result is a
      slice of the input with white space before and after it, and it neither starts
      nor ends with white space. */
  lemma TrimIsSlice(s: string)
    ensures |Trim(s)| <= |TrimStart(s)| <= |s|
    ensures Trim(s) == s[|s| - |TrimStart(s)|..|s| - |TrimStart(s)| + |Trim(s)|]
    ensures forall k :: 0 <= k < |s| - |TrimStart(s)| ==> IsJsSpace(s[k])
    ensures forall k :: |s| - |TrimStart(s)| + |Trim(s)| <= k < |s| ==> IsJsSpace(s[k])
    ensures Trim(s) == [] || (!IsJsSpace(Trim(s)[0]) && !IsJsSpace(Trim(s)[|Trim(s)| - 1]))
  {
    var a := TrimStart(s);
    var t := Trim(s);
    var i := |s| - |a|;
    TrimStartFacts(s);
    TrimEndFacts(a);
    SpacesShifted(s, i, a, |t|);
    TrimmedEnds(s);
  }

  /** White space at the end of a suffix is white space at the end of the whole. */
  lemma SpacesShifted(s: string, i: nat, a: string, m: nat)
    requires i <= |s| && s[i..] == a && m <= |a|
    requires forall k :: m <= k < |a| ==> IsJsSpace(a[k])
    ensures forall k :: i + m <= k < |s| ==> IsJsSpace(s[k])
  {
    forall k | i + m <= k < |s|
      ensures IsJsSpace(s[k])
    {
      assert s[k] == a[k - i];
    }
  }

  /** A trimmed string neither starts nor ends with white space. */
  lemma TrimmedEnds(s: string)
    ensures Trim(s) == [] || (!IsJsSpace(Trim(s)[0]) && !IsJsSpace(Trim(s)[|Trim(s)| - 1]))
  {
    var a := TrimStart(s);
    var t := Trim(s);
    TrimStartFacts(s);
    TrimEndFacts(a);
    if t != [] {
      assert t[0] == a[0];
    }
  }

  /** A string without white space is left as it is. */
  lemma TrimNoSpace(s: string)
    requires NoSpace(s)
    ensures Trim(s) == s
  {
    if s != [] {
      assert !IsJsSpace(s[0]) && !IsJsSpace(s[|s| - 1]);
    }
    assert TrimStart(s) == s;
  }

  // ---------------------------------------------------------------------------
  // split(/\s+/)

  /** `s.split(/\s+/)`: the pieces between maximal runs of white space, including an
      empty first piece when `s` starts with white space and an empty last piece when
      it ends with it. */
  function SplitSpaces(s: string): (pieces: seq<string>)
    ensures |pieces| >= 1
  {
    if s == [] then [""]
    else
      var c := s[|s| - 1];
      var init := s[..|s| - 1];
      if IsJsSpace(c) && init != [] && IsJsSpace(init[|init| - 1]) then SplitSpaces(init)
      else if IsJsSpace(c) then SplitSpaces(init) + [""]
      else
        var r := SplitSpaces(init);
        r[..|r| - 1] + [r[|r| - 1] + [c]]
  }

  /** No piece holds white space. */
  lemma {:induction false} SplitSpacesNoSpace(s: string)
    ensures AllNoSpace(SplitSpaces(s))
  {
    if s != [] {
      var c := s[|s| - 1];
      var init := s[..|s| - 1];
      SplitSpacesNoSpace(init);
      var r := SplitSpaces(init);
      if !IsJsSpace(c) {
        var n := |r| - 1;
        assert NoSpace(r[n] + [c]) by {
          assert NoSpace(r[n]);
          assert forall k :: 0 <= k < |r[n]| ==> (r[n] + [c])[k] == r[n][k];
        }
        assert SplitSpaces(s) == r[..n] + [r[n] + [c]];
      } else if init != [] && IsJsSpace(init[|init| - 1]) {
      } else {
        assert SplitSpaces(s) == r + [""];
      }
    }
  }

  /** The characters of the pieces, in order. */
  function Concat(pieces: seq<string>): string {
    if pieces == [] then [] else Concat(pieces[..|pieces| - 1]) + pieces[|pieces| - 1]
  }

  lemma ConcatSnoc(pieces: seq<string>, x: string)
    ensures Concat(pieces + [x]) == Concat(pieces) + x
  {
    assert (pieces + [x])[..|pieces|] == pieces;
  }

  /** Splitting drops exactly the white space: the pieces put together are the
      non-white-space characters of `s`, in order. */
  lemma {:induction false} SplitSpacesDropsOnlySpace(s: string)
    ensures Concat(SplitSpaces(s)) == Filter(s, IsNotSpace())
  {
    if s != [] {
      var c := s[|s| - 1];
      var init := s[..|s| - 1];
      SplitSpacesDropsOnlySpace(init);
      assert Filter(s, IsNotSpace()) == Filter(init, IsNotSpace()) + (if IsNotSpace()(c) then [c] else []);
      var r := SplitSpaces(init);
      if IsJsSpace(c) && init != [] && IsJsSpace(init[|init| - 1]) {
      } else if IsJsSpace(c) {
        ConcatSnoc(r, "");
      } else {
        var n := |r| - 1;
        assert r == r[..n] + [r[n]];
        ConcatSnoc(r[..n], r[n]);
        ConcatSnoc(r[..n], r[n] + [c]);
      }
    }
  }

  /** Characters other than white space extend the last piece. */
  lemma {:induction false} SplitAppendWord(p: string, w: string)
    requires NoSpace(w)
    ensures SplitSpaces(p + w) ==
      SplitSpaces(p)[..|SplitSpaces(p)| - 1] + [SplitSpaces(p)[|SplitSpaces(p)| - 1] + w]
    decreases |w|
  {
    if w == [] {
      assert p + w == p;
      var r := SplitSpaces(p);
      assert r[|r| - 1] + w == r[|r| - 1];
      assert r == r[..|r| - 1] + [r[|r| - 1]];
    } else {
      var n := |w| - 1;
      assert p + w == (p + w[..n]) + [w[n]];
      assert (p + w)[..|p + w| - 1] == p + w[..n];
      SplitAppendWord(p, w[..n]);
      var r := SplitSpaces(p);
      var r' := SplitSpaces(p + w[..n]);
      assert r'[..|r'| - 1] == r[..|r| - 1];
      assert r'[|r'| - 1] + [w[n]] == r[|r| - 1] + w;
    }
  }

  /** A white-space character after a piece opens a new, empty piece. */
  lemma SplitAppendSpace(p: string, c: char)
    requires IsJsSpace(c) && (p == [] || !IsJsSpace(p[|p| - 1]))
    ensures SplitSpaces(p + [c]) == SplitSpaces(p) + [""]
  {
    assert (p + [c])[..|p|] == p;
  }

  /** Two words with one space between them split into those two words. */
  lemma SplitTwoWords(a: string, b: string)
    requires a != [] && NoSpace(a) && NoSpace(b)
    ensures SplitSpaces(a + " " + b) == [a, b]
  {
    var a' := a + [' '];
    SplitOneWordThenSpace(a);
    SplitAppendWord(a', b);
    assert [a, ""][..1] == [a] && "" + b == b;
    assert a + " " + b == a' + b;
  }

  /** One word followed by one space splits into the word and an empty piece. */
  lemma SplitOneWordThenSpace(a: string)
    requires a != [] && NoSpace(a)
    ensures SplitSpaces(a + [' ']) == [a, ""]
  {
    var e: string := [];
    assert SplitSpaces(a) == [a] by {
      assert e + a == a;
      SplitAppendWord(e, a);
      assert SplitSpaces(e) == [""];
      assert "" + a == a;
    }
    SplitAppendSpace(a, ' ');
  }

  /** The loop over the pieces of an `animation` value: each piece is trimmed and kept
      when it is not empty. */
  function NonEmptyTrimmed(pieces: seq<string>): (names: seq<string>)
    ensures |names| <= |pieces|
  {
    if pieces == [] then []
    else
      var name := Trim(pieces[|pieces| - 1]);
      NonEmptyTrimmed(pieces[..|pieces| - 1]) + (if name != "" then [name] else [])
  }

  /** The keyframe names read from an `animation` or `animation-name` value. */
  function AnimationNames(value: string): seq<string> {
    NonEmptyTrimmed(SplitSpaces(value))
  }

  /** Every piece is free of white space. */
  predicate AllNoSpace(pieces: seq<string>) {
    forall k :: 0 <= k < |pieces| ==> NoSpace(pieces[k])
  }

  /** Every name is a non-empty run of non-white-space characters. */
  predicate AllWords(names: seq<string>) {
    forall k :: 0 <= k < |names| ==> names[k] != "" && NoSpace(names[k])
  }

  lemma {:induction false} NonEmptyTrimmedOfWords(pieces: seq<string>)
    requires AllNoSpace(pieces)
    ensures AllWords(NonEmptyTrimmed(pieces))
    ensures Concat(NonEmptyTrimmed(pieces)) == Concat(pieces)
  {
    if pieces != [] {
      var n := |pieces| - 1;
      var last := pieces[n];
      assert AllNoSpace(pieces[..n]) by {
        assert forall k :: 0 <= k < n ==> pieces[..n][k] == pieces[k];
      }
      NonEmptyTrimmedOfWords(pieces[..n]);
      var prev := NonEmptyTrimmed(pieces[..n]);
      assert Trim(last) == last by {
        assert NoSpace(last);
        TrimNoSpace(last);
      }
      assert Concat(pieces) == Concat(pieces[..n]) + last;
      if last != "" {
        assert NonEmptyTrimmed(pieces) == prev + [last];
        ConcatSnoc(prev, last);
        WordsSnoc(prev, last);
      } else {
        assert NonEmptyTrimmed(pieces) == prev;
      }
    }
  }

  lemma WordsSnoc(names: seq<string>, x: string)
    requires AllWords(names)
    requires x != "" && NoSpace(x)
    ensures AllWords(names + [x])
  {
  }

  /** The names are the maximal runs of non-white-space characters: none is empty,
      none holds white space, and together they are every non-white-space character
      of the value, in order. */
  lemma AnimationNamesAreWords(value: string)
    ensures AllWords(AnimationNames(value))
    ensures Concat(AnimationNames(value)) == Filter(value, IsNotSpace())
  {
    SplitSpacesNoSpace(value);
    NonEmptyTrimmedOfWords(SplitSpaces(value));
    SplitSpacesDropsOnlySpace(value);
  }

  // ---------------------------------------------------------------------------
  // indexOf

  predicate OccursAt(s: string, t: string, i: nat) {
    i + |t| <= |s| && s[i..i + |t|] == t
  }

  /** `s.length`: a JavaScript string counts UTF-16 code units, so a character beyond
      the Basic Multilingual Plane (stored as a surrogate pair) counts twice. */
  function Utf16Length(s: string): (n: nat)
  {
    if s == [] then 0
    else Utf16Length(s[..|s| - 1]) + (if s[|s| - 1] as int >= 0x10000 then 2 else 1)
  }

  /** `s.length` lies between the number of characters and twice it, and equals the
      number of characters exactly when every character is in the Basic Multilingual
      Plane. */
  lemma {:induction false} Utf16LengthBounds(s: string)
    ensures |s| <= Utf16Length(s) <= 2 * |s|
    ensures Utf16Length(s) == |s| <==> forall k :: 0 <= k < |s| ==> s[k] as int < 0x10000
  {
    if s != [] {
      var n := |s| - 1;
      var init := s[..n];
      Utf16LengthBounds(init);
      assert forall k :: 0 <= k < n ==> init[k] == s[k];
    }
  }

  /** Five U+1F600 characters: five characters, a `length` of ten. */
  lemma Utf16LengthExample()
    ensures var s := "\U{1F600}\U{1F600}\U{1F600}\U{1F600}\U{1F600}";
            |s| == 5 && Utf16Length(s) == 10
  {
    var e := '\U{1F600}';
    assert e as int >= 0x10000;
    assert [e][..0] == [] && [e, e][..1] == [e] && [e, e, e][..2] == [e, e];
    assert [e, e, e, e][..3] == [e, e, e] && [e, e, e, e, e][..4] == [e, e, e, e];
    assert Utf16Length([e]) == 2;
    assert Utf16Length([e, e]) == 4;
    assert Utf16Length([e, e, e]) == 6;
    assert Utf16Length([e, e, e, e]) == 8;
    assert "\U{1F600}\U{1F600}\U{1F600}\U{1F600}\U{1F600}" == [e, e, e, e, e];
  }

  /** `s.indexOf(t)` from position `from`: the first position at which `t` occurs, or -1. */
  function IndexOfFrom(s: string, t: string, from: nat): (i: int)
    requires from <= |s| + 1
    ensures i == -1 || (from <= i && OccursAt(s, t, i))
    ensures forall k :: from <= k && (i == -1 || k < i) ==> !OccursAt(s, t, k)
    decreases |s| + 1 - from
  {
    if from + |t| > |s| then -1
    else if s[from..from + |t|] == t then from
    else IndexOfFrom(s, t, from + 1)
  }

  /** `s.indexOf(t)`. */
  function IndexOf(s: string, t: string): (i: int)
    ensures i == -1 || (i >= 0 && OccursAt(s, t, i))
    ensures forall k: nat :: (i == -1 || k < i) ==> !OccursAt(s, t, k)
  {
    IndexOfFrom(s, t, 0)
  }

  /** `s.indexOf(t) !== -1`: `t` is a substring of `s`. */
  predicate Contains(s: string, t: string) {
    IndexOf(s, t) != -1
  }

  /** A string contains each of its slices, and whatever it contains stays contained
      when text is added on either side. */
  lemma ContainsSlice(s: string, i: nat, j: nat)
    requires i <= j <= |s|
    ensures Contains(s, s[i..j])
  {
    assert OccursAt(s, s[i..j], i);
  }

  lemma ContainsExtended(s: string, t: string, before: string, after: string)
    requires Contains(s, t)
    ensures Contains(before + s + after, t)
  {
    var i := IndexOf(s, t);
    var w := before + s + after;
    assert w[|before| + i..|before| + i + |t|] == s[i..i + |t|];
    assert OccursAt(w, t, |before| + i);
  }

  // ---------------------------------------------------------------------------
  // /\bfont(-family)?\b/i

  /** `\w` without the `u` flag. */
  predicate IsWordChar(c: char) {
    ('a' <= c <= 'z') || ('A' <= c <= 'Z') || ('0' <= c <= '9') || c == '_'
  }

  /** `\b` at position `i`: a word character on exactly one side. */
  predicate Boundary(s: string, i: nat)
    requires i <= |s|
  {
    (i > 0 && IsWordChar(s[i - 1])) != (i < |s| && IsWordChar(s[i]))
  }

  /** Case-insensitive equality with a lower-case ASCII letter or `-`; without the `u`
      flag no character outside ASCII folds onto an ASCII one. */
  predicate MatchesFolded(c: char, lower: char) {
    c == lower || ('a' <= lower <= 'z' && c as int == lower as int - 32)
  }

  predicate LiteralAt(s: string, i: nat, lit: string) {
    i + |lit| <= |s| && forall k :: 0 <= k < |lit| ==> MatchesFolded(s[i + k], lit[k])
  }

  /** The regular expression matched at position `i`: `\b`, `font`, then either
      `-family` and `\b` (tried first, the group being greedy) or `\b`. */
  predicate FontRegexAt(s: string, i: nat) {
    i < |s| && Boundary(s, i) && LiteralAt(s, i, "font") &&
    ((LiteralAt(s, i + 4, "-family") && Boundary(s, i + 11)) || Boundary(s, i + 4))
  }

  function FontSearch(s: string, i: nat): (found: bool)
    ensures found <==> exists k :: i <= k && FontRegexAt(s, k)
    decreases |s| - i
  {
    if i >= |s| then false
    else FontRegexAt(s, i) || FontSearch(s, i + 1)
  }

  /** `property.match(/\bfont(-family)?\b/i)` is not `null`. The property must also be
      present and non-empty (`decl.property && ...`). */
  predicate IsFontProperty(property: string) {
    property != "" && FontSearch(property, 0)
  }

  /** The optional `-family` never decides a match: `font` as a whole word (any case)
      matches whatever follows, so `font-size` and `FONT` count as font properties
      and `fontsize` or `webfont` do not. */
  lemma FamilyGroupIsRedundant(s: string, i: nat)
    ensures FontRegexAt(s, i) <==>
      (i < |s| && Boundary(s, i) && LiteralAt(s, i, "font") && Boundary(s, i + 4))
  {
    if i < |s| && Boundary(s, i) && LiteralAt(s, i, "font") && LiteralAt(s, i + 4, "-family") {
      assert MatchesFolded(s[i + 4 + 0], "-family"[0]);
      assert MatchesFolded(s[i + 3], "font"[3]);
      assert IsWordChar(s[i + 3]) && !IsWordChar(s[i + 4]);
    }
  }

  lemma FontPropertyExamples()
    ensures IsFontProperty("font-family")
    ensures IsFontProperty("font-size")
    ensures IsFontProperty("FONT")
    ensures !IsFontProperty("fontsize")
    ensures !IsFontProperty("color")
  {
    assert FontRegexAt("font-family", 0);
    assert FontRegexAt("font-size", 0);
    assert FontRegexAt("FONT", 0);
    FontsizeIsNotFont();
    ColorIsNotFont();
  }

  /** The search fails when the expression matches at no remaining position. */
  lemma {:induction false} NoFontFrom(s: string, i: nat)
    requires forall k :: i <= k < |s| ==> !FontRegexAt(s, k)
    ensures !FontSearch(s, i)
    decreases |s| - i
  {
    if i < |s| {
      NoFontFrom(s, i + 1);
    }
  }

  /** `fontsize` is one word: no boundary follows its `font`. */
  lemma FontsizeIsNotFont()
    ensures !IsFontProperty("fontsize")
  {
    var s := "fontsize";
    forall k | 0 <= k < |s|
      ensures !FontRegexAt(s, k)
    {
      if k == 0 {
        assert !Boundary(s, 4);
      } else {
        assert !Boundary(s, k);
      }
    }
    NoFontFrom(s, 0);
  }

  /** `color` has no `f`. */
  lemma ColorIsNotFont()
    ensures !IsFontProperty("color")
  {
    var s := "color";
    forall k | 0 <= k < |s|
      ensures !FontRegexAt(s, k)
    {
      assert !MatchesFolded(s[k], 'f');
    }
    NoFontFrom(s, 0);
  }

  // ---------------------------------------------------------------------------
  // /url\s*\(\s*(['"]?)(.+?)\1\s*\)/

  /** The end of the run of white space starting at `k`: where a greedy `\s*` stops. */
  function SpacesEnd(s: string, k: nat): (e: nat)
    requires k <= |s|
    ensures k <= e <= |s|
    ensures e == |s| || !IsJsSpace(s[e])
    decreases |s| - k
  {
    if k < |s| && IsJsSpace(s[k]) then SpacesEnd(s, k + 1) else k
  }

  /** `\1\s*\)` at position `e`, with `q` the text of the first group. A greedy `\s*`
      in front of `)` never has to give back white space. */
  predicate CloseAt(s: string, e: nat, q: string)
    requires e <= |s|
  {
    e + |q| <= |s| && s[e..e + |q|] == q &&
    SpacesEnd(s, e + |q|) < |s| && s[SpacesEnd(s, e + |q|)] == ')'
  }

  /** The lazy `(.+?)` from `b`, tried with the group ending at `e`, `e + 1`, ...:
      the first end at which the rest of the expression matches. */
  function LazyBody(s: string, b: nat, e: nat, q: string): (g: Option<string>)
    requires b < e <= |s| + 1
    requires forall k :: b <= k < e - 1 ==> !IsLineTerminator(s[k])
    decreases |s| + 1 - e
  {
    if e > |s| || IsLineTerminator(s[e - 1]) then None
    else if CloseAt(s, e, q) then Some(s[b..e])
    else LazyBody(s, b, e + 1, q)
  }

  /** What the lazy group captures is non-empty and on one line. */
  lemma {:induction false} LazyBodyOneLine(s: string, b: nat, e: nat, q: string)
    requires b < e <= |s| + 1
    requires forall k :: b <= k < e - 1 ==> !IsLineTerminator(s[k])
    ensures var g := LazyBody(s, b, e, q);
            g.Some? ==> |g.value| >= 1 && forall k :: 0 <= k < |g.value| ==> !IsLineTerminator(g.value[k])
    decreases |s| + 1 - e
  {
    if e > |s| || IsLineTerminator(s[e - 1]) {
      assert LazyBody(s, b, e, q) == None;
    } else if CloseAt(s, e, q) {
      assert LazyBody(s, b, e, q) == Some(s[b..e]);
      OneLineSlice(s, b, s[b..e]);
    } else {
      assert LazyBody(s, b, e, q) == LazyBody(s, b, e + 1, q);
      LazyBodyOneLine(s, b, e + 1, q);
    }
  }

  function QuotedBody(s: string, j: nat): (g: Option<string>)
    requires j <= |s|
  {
    var withQuote := if j < |s| && (s[j] == '\'' || s[j] == '"') && j + 1 <= |s| then
                       LazyBody(s, j + 1, j + 2, [s[j]])
                     else None;
    if withQuote.Some? then withQuote else LazyBody(s, j, j + 1, [])
  }

  /** The inner `\s*` after `(`: greedy, so every end from `j` down to `start` is tried. */
  function InnerSpaces(s: string, start: nat, j: nat): (g: Option<string>)
    requires start <= j <= |s|
    decreases j - start
  {
    var g := QuotedBody(s, j);
    if g.Some? then g
    else if j == start then None
    else InnerSpaces(s, start, j - 1)
  }

  /** The whole expression matched at position `p`; the value is the second group. */
  function UrlAt(s: string, p: nat): (g: Option<string>)
    requires p <= |s|
  {
    if p + 3 <= |s| && s[p..p + 3] == "url" then
      var k := SpacesEnd(s, p + 3);
      if k < |s| && s[k] == '(' then InnerSpaces(s, k + 1, SpacesEnd(s, k + 1))
      else None
    else None
  }

  function UrlSearch(s: string, p: nat): (g: Option<string>)
    requires p <= |s|
    decreases |s| - p
  {
    var g := UrlAt(s, p);
    if g.Some? || p == |s| then g else UrlSearch(s, p + 1)
  }

  /** `(value.match(/url\s*\(\s*(['"]?)(.+?)\1\s*\)/) || [])[2]`: the second group of
      the leftmost match, or `undefined`. */
  function UrlOf(value: string): Option<string> {
    UrlSearch(value, 0)
  }

  /** Whatever the expression returns is non-empty and on one line. */
  lemma UrlIsOneLine(s: string, p: nat)
    requires p <= |s|
    ensures UrlSearch(s, p).Some? ==> |UrlSearch(s, p).value| >= 1
    ensures UrlSearch(s, p).Some? ==>
      forall k :: 0 <= k < |UrlSearch(s, p).value| ==> !IsLineTerminator(UrlSearch(s, p).value[k])
    decreases |s| - p
  {
    if UrlAt(s, p).Some? {
      UrlAtOneLine(s, p);
    } else if p < |s| {
      UrlIsOneLine(s, p + 1);
    }
  }

  lemma UrlAtOneLine(s: string, p: nat)
    requires p <= |s|
    requires UrlAt(s, p).Some?
    ensures |UrlAt(s, p).value| >= 1
    ensures forall k :: 0 <= k < |UrlAt(s, p).value| ==> !IsLineTerminator(UrlAt(s, p).value[k])
  {
    var k := SpacesEnd(s, p + 3);
    assert k < |s| && s[k] == '(';
    InnerSpacesOneLine(s, k + 1, SpacesEnd(s, k + 1));
    assert UrlAt(s, p) == InnerSpaces(s, k + 1, SpacesEnd(s, k + 1));
  }

  lemma {:induction false} InnerSpacesOneLine(s: string, start: nat, j: nat)
    requires start <= j <= |s|
    ensures InnerSpaces(s, start, j).Some? ==> |InnerSpaces(s, start, j).value| >= 1
    ensures InnerSpaces(s, start, j).Some? ==>
      forall k :: 0 <= k < |InnerSpaces(s, start, j).value| ==> !IsLineTerminator(InnerSpaces(s, start, j).value[k])
    decreases j - start
  {
    var g := QuotedBody(s, j);
    if g.None? && j > start {
      InnerSpacesOneLine(s, start, j - 1);
    } else if g.Some? {
      QuotedBodyOneLine(s, j);
    }
  }

  lemma QuotedBodyOneLine(s: string, j: nat)
    requires j <= |s|
    ensures QuotedBody(s, j).Some? ==> |QuotedBody(s, j).value| >= 1
    ensures QuotedBody(s, j).Some? ==>
      forall k :: 0 <= k < |QuotedBody(s, j).value| ==> !IsLineTerminator(QuotedBody(s, j).value[k])
  {
    var withQuote := if j < |s| && (s[j] == '\'' || s[j] == '"') && j + 1 <= |s| then
                       LazyBody(s, j + 1, j + 2, [s[j]])
                     else None;
    if withQuote.Some? {
      LazyBodyOneLine(s, j + 1, j + 2, [s[j]]);
    } else {
      LazyBodyOneLine(s, j, j + 1, []);
    }
  }

  lemma OneLineSlice(s: string, b: nat, g: string)
    requires b + |g| <= |s| && g == s[b..b + |g|]
    requires forall k :: b <= k < b + |g| ==> !IsLineTerminator(s[k])
    ensures forall k :: 0 <= k < |g| ==> !IsLineTerminator(g[k])
  {
    forall k | 0 <= k < |g|
      ensures !IsLineTerminator(g[k])
    {
      assert g[k] == s[b + k];
    }
  }

  /** A greedy `\s*` stops at the first character that is not white space. */
  lemma {:induction false} SpacesEndBefore(s: string, k: nat, m: nat)
    requires k <= m < |s| && !IsJsSpace(s[m])
    ensures SpacesEnd(s, k) <= m
    decreases m - k
  {
    if k < m && IsJsSpace(s[k]) {
      SpacesEndBefore(s, k + 1, m);
    }
  }

  /** The lazy group grows one character at a time until the rest of the expression
      first matches. */
  lemma LazyBodyScan(s: string, b: nat, e: nat, q: string, m: nat)
    requires b < e <= m <= |s|
    requires forall k :: b <= k < m ==> !IsLineTerminator(s[k])
    requires forall k :: e <= k < m ==> !CloseAt(s, k, q)
    requires CloseAt(s, m, q)
    ensures LazyBody(s, b, e, q) == Some(s[b..m])
  {
    var i, g := m, Some(s[b..m]);
    LazyBodyHit(s, b, m, q);
    while i > e
      invariant e <= i <= m
      invariant LazyBody(s, b, i, q) == g
    {
      i := i - 1;
      LazyBodyStep(s, b, i, q, g);
    }
  }

  /** Where the rest of the expression matches, the lazy group ends. */
  lemma LazyBodyHit(s: string, b: nat, e: nat, q: string)
    requires b < e <= |s|
    requires forall k :: b <= k < e ==> !IsLineTerminator(s[k])
    requires CloseAt(s, e, q)
    ensures LazyBody(s, b, e, q) == Some(s[b..e])
  {
  }

  /** Where the rest of the expression does not match, the lazy group takes one more
      character. */
  lemma LazyBodyStep(s: string, b: nat, e: nat, q: string, g: Option<string>)
    requires b < e <= |s|
    requires forall k :: b <= k < e ==> !IsLineTerminator(s[k])
    requires !CloseAt(s, e, q)
    requires LazyBody(s, b, e + 1, q) == g
    ensures LazyBody(s, b, e, q) == g
  {
  }

  /** `url("...")` and `url('...')` give back what is between the quotes, provided it
      holds no line break and not the quote itself. */
  lemma UrlOfQuoted(u: string, quote: char)
    requires quote == '"' || quote == '\''
    requires |u| >= 1
    requires forall k :: 0 <= k < |u| ==> u[k] != quote && !IsLineTerminator(u[k])
    ensures UrlOf("url(" + [quote] + u + [quote] + ")") == Some(u)
  {
    var s := "url(" + [quote] + u + [quote] + ")";
    var n := |u|;
    assert |s| == n + 7;
    assert s[..3] == "url" && s[3] == '(' && s[4] == quote;
    assert s[5..5 + n] == u;
    assert s[5 + n] == quote && s[6 + n] == ')';
    assert SpacesEnd(s, 3) == 3;
    assert SpacesEnd(s, 4) == 4;
    assert SpacesEnd(s, 6 + n) == 6 + n;
    assert CloseAt(s, 5 + n, [quote]);
    forall k | 5 <= k < 5 + n
      ensures !IsLineTerminator(s[k]) && !CloseAt(s, k, [quote])
    {
      assert s[k] == u[k - 5];
      assert s[k..k + 1] == [u[k - 5]];
    }
    LazyBodyScan(s, 5, 6, [quote], 5 + n);
    assert QuotedBody(s, 4) == Some(u);
    assert UrlAt(s, 0) == Some(u);
  }

  /** `url(...)` without quotes gives back what is between the brackets, provided it
      does not start with a quote or white space, does not end with white space, and
      holds no line break and no `)`. */
  lemma UrlOfBare(u: string)
    requires |u| >= 1
    requires u[0] != '"' && u[0] != '\'' && !IsJsSpace(u[0]) && !IsJsSpace(u[|u| - 1])
    requires forall k :: 0 <= k < |u| ==> u[k] != ')' && !IsLineTerminator(u[k])
    ensures UrlOf("url(" + u + ")") == Some(u)
  {
    var s := "url(" + u + ")";
    var n := |u|;
    assert s[..4] == "url(" && s[4] == u[0];
    assert LazyBody(s, 4, 5, []) == Some(u) by {
      assert s[4..4 + n] == u;
      assert s[4 + n] == ')';
      assert SpacesEnd(s, 4 + n) == 4 + n;
      assert CloseAt(s, 4 + n, []);
      forall k | 4 <= k < 4 + n
        ensures !IsLineTerminator(s[k]) && !CloseAt(s, k, [])
      {
        BareBodyOpen(s, u, k);
      }
      LazyBodyScan(s, 4, 5, [], 4 + n);
    }
    QuotedBodyWithoutQuote(s, 4);
    UrlAtOpening(s);
  }

  lemma QuotedBodyWithoutQuote(s: string, j: nat)
    requires j < |s| && s[j] != '"' && s[j] != '\''
    ensures QuotedBody(s, j) == LazyBody(s, j, j + 1, [])
  {
  }

  /** At `url(` followed directly by something other than white space, the match is
      whatever the rest of the expression makes of that position. */
  lemma UrlAtOpening(s: string)
    requires |s| > 4 && s[..4] == "url(" && !IsJsSpace(s[4])
    requires QuotedBody(s, 4).Some?
    ensures UrlOf(s) == QuotedBody(s, 4)
  {
    assert s[..3] == "url" && s[3] == '(';
    assert SpacesEnd(s, 3) == 3;
    assert SpacesEnd(s, 4) == 4;
    assert UrlAt(s, 0) == InnerSpaces(s, 4, 4);
  }

  lemma BareBodyOpen(s: string, u: string, k: nat)
    requires |u| >= 1 && s == "url(" + u + ")"
    requires !IsJsSpace(u[|u| - 1])
    requires forall k :: 0 <= k < |u| ==> u[k] != ')' && !IsLineTerminator(u[k])
    requires 4 <= k < 4 + |u|
    ensures !IsLineTerminator(s[k]) && !CloseAt(s, k, [])
  {
    var n := |u|;
    assert forall j :: 4 <= j < 4 + n ==> s[j] == u[j - 4];
    SpacesEndBefore(s, k, 3 + n);
  }
}
