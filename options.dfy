/** The option rules around the two passes: the keyframes mode, the two font flags,
    the inline threshold test, and the public-path strip of `getFilename`. An option
    is whatever the caller passed, so it is kept as the JavaScript value it is. */
module CrittersOptions {
  import opened JsText

  /** The option values the rules below tell apart. */
  datatype JsValue = Undefined | Bool(b: bool) | Str(s: string)

  predicate Truthy(v: JsValue) {
    match v
    case Undefined => false
    case Bool(b) => b
    case Str(s) => s != ""
  }

  /** `v || fallback` */
  function Or(v: JsValue, fallback: JsValue): (r: JsValue)
    ensures Truthy(v) ==> r == v
    ensures !Truthy(v) ==> r == fallback
  {
    if Truthy(v) then v else fallback
  }

  // ---------------------------------------------------------------------------
  // The keyframes mode

  /** `keyframesMode` as the source computes it: `options.keyframes || 'critical'`,
      then `true` becomes `'all'` and `false` becomes `'none'`. Since `false` is not
      truthy, the `false` test comes too late to see it. */
  function KeyframesModeAsWritten(keyframes: JsValue): (mode: JsValue)
    ensures mode.Str?
  {
    var mode := Or(keyframes, Str("critical"));
    var mode' := if mode == Bool(true) then Str("all") else mode;
    if mode' == Bool(false) then Str("none") else mode'
  }

  /** `keyframes: false` ends up as `'critical'`, not `'none'`. */
  lemma FalseKeyframesIsCritical()
    ensures KeyframesModeAsWritten(Bool(false)) == Str("critical")
  {
  }

  /** The mode as the documented strategies and the boolean shorthand intend it:
      `false` is `'none'`, and every other value is read as the source reads it. */
  function KeyframesMode(keyframes: JsValue): (mode: string)
    ensures keyframes == Bool(false) ==> mode == "none"
  {
    if keyframes == Bool(false) then "none" else KeyframesModeAsWritten(keyframes).s
  }

  /** `critical` when unset or empty, `all` for `true`, `none` for `false`, and any
      other string as it is. */
  lemma KeyframesModeCases(keyframes: JsValue)
    ensures keyframes == Undefined || keyframes == Str("") ==> KeyframesMode(keyframes) == "critical"
    ensures keyframes == Bool(true) ==> KeyframesMode(keyframes) == "all"
    ensures keyframes == Bool(false) ==> KeyframesMode(keyframes) == "none"
    ensures keyframes.Str? && keyframes.s != "" ==> KeyframesMode(keyframes) == keyframes.s
  {
  }

  /** The correction changes the value `false` and nothing else. */
  lemma KeyframesCorrectionIsLocal(keyframes: JsValue)
    ensures keyframes != Bool(false) <==> KeyframesMode(keyframes) == KeyframesModeAsWritten(keyframes).s
  {
  }

  // ---------------------------------------------------------------------------
  // Fonts

  /** `options.fonts === true || options.preloadFonts === true` */
  predicate ShouldPreloadFonts(fonts: JsValue, preloadFonts: JsValue) {
    fonts == Bool(true) || preloadFonts == Bool(true)
  }

  /** `options.fonts !== false && options.inlineFonts === true` */
  predicate ShouldInlineFonts(fonts: JsValue, inlineFonts: JsValue) {
    fonts != Bool(false) && inlineFonts == Bool(true)
  }

  /** The `fonts` shorthand: `true` turns preloading on but inlining only with
      `inlineFonts: true`; `false` turns inlining off but leaves `preloadFonts: true`
      in force; unset, each flag is on only when set to `true`, so neither is on by
      default. */
  lemma FontFlags(fonts: JsValue, preloadFonts: JsValue, inlineFonts: JsValue)
    ensures fonts == Bool(true) ==> ShouldPreloadFonts(fonts, preloadFonts)
    ensures fonts == Bool(true) ==> (ShouldInlineFonts(fonts, inlineFonts) <==> inlineFonts == Bool(true))
    ensures fonts == Bool(false) ==> !ShouldInlineFonts(fonts, inlineFonts)
    ensures fonts == Bool(false) ==> (ShouldPreloadFonts(fonts, preloadFonts) <==> preloadFonts == Bool(true))
    ensures fonts == Undefined ==> (ShouldPreloadFonts(fonts, preloadFonts) <==> preloadFonts == Bool(true))
    ensures fonts == Undefined ==> (ShouldInlineFonts(fonts, inlineFonts) <==> inlineFonts == Bool(true))
    ensures !ShouldPreloadFonts(Undefined, Undefined) && !ShouldInlineFonts(Undefined, Undefined)
  {
  }

  /** Preloading as the option descriptions put it: on by default, forced on by
      `fonts: true` and off by `fonts: false`. */
  predicate DocumentedPreloadFonts(fonts: JsValue, preloadFonts: JsValue) {
    fonts == Bool(true) || (fonts != Bool(false) && preloadFonts != Bool(false))
  }

  /** Inlining as the option descriptions put it: off by default, forced on by
      `fonts: true` and off by `fonts: false`. */
  predicate DocumentedInlineFonts(fonts: JsValue, inlineFonts: JsValue) {
    fonts == Bool(true) || (fonts != Bool(false) && inlineFonts == Bool(true))
  }

  /** The described shorthand: `fonts: true` turns both on, `fonts: false` both off;
      without it, preloading is on unless `preloadFonts: false` and inlining is on only
      with `inlineFonts: true`. */
  lemma DocumentedFontFlags(fonts: JsValue, preloadFonts: JsValue, inlineFonts: JsValue)
    ensures fonts == Bool(true) ==> DocumentedPreloadFonts(fonts, preloadFonts) && DocumentedInlineFonts(fonts, inlineFonts)
    ensures fonts == Bool(false) ==> !DocumentedPreloadFonts(fonts, preloadFonts) && !DocumentedInlineFonts(fonts, inlineFonts)
    ensures fonts == Undefined ==> (DocumentedPreloadFonts(fonts, preloadFonts) <==> preloadFonts != Bool(false))
    ensures fonts == Undefined ==> (DocumentedInlineFonts(fonts, inlineFonts) <==> inlineFonts == Bool(true))
    ensures DocumentedPreloadFonts(Undefined, Undefined) && !DocumentedInlineFonts(Undefined, Undefined)
  {
  }

  /** The code and the descriptions part on exactly three kinds of input: with nothing
      set the code preloads nothing; with `fonts: true` it inlines nothing unless
      `inlineFonts: true`; with `fonts: false` it still preloads under
      `preloadFonts: true`. Inlining differs only in the second case. */
  lemma FontFlagsDisagreeWithDocs(fonts: JsValue, preloadFonts: JsValue, inlineFonts: JsValue)
    ensures ShouldPreloadFonts(fonts, preloadFonts) != DocumentedPreloadFonts(fonts, preloadFonts) <==>
            (fonts == Bool(false) && preloadFonts == Bool(true)) ||
            (fonts != Bool(true) && fonts != Bool(false) && preloadFonts != Bool(true) && preloadFonts != Bool(false))
    ensures ShouldInlineFonts(fonts, inlineFonts) != DocumentedInlineFonts(fonts, inlineFonts) <==>
            fonts == Bool(true) && inlineFonts != Bool(true)
  {
  }

  // ---------------------------------------------------------------------------
  // The inline threshold

  /** `this.options.inlineThreshold && sheet.length < this.options.inlineThreshold`:
      the threshold is set (not 0) and the sheet is shorter. */
  predicate InlinesWhole(threshold: int, length: nat) {
    threshold != 0 && length < threshold
  }

  /** The default threshold `0`, and any negative one, never inlines a whole sheet;
      a sheet shorter than an inlined one is inlined too. */
  lemma ThresholdProperties(threshold: int, length: nat, shorter: nat)
    ensures threshold <= 0 ==> !InlinesWhole(threshold, length)
    ensures InlinesWhole(threshold, length) && shorter <= length ==> InlinesWhole(threshold, shorter)
    ensures threshold > 0 ==> (InlinesWhole(threshold, length) <==> length < threshold)
  {
  }

  /** The length compared is `sheet.length`, in UTF-16 code units: five U+1F600
      characters are fewer than 8 characters but have length 10, so a threshold of 8
      does not inline them. */
  lemma ThresholdCountsUtf16Units()
    ensures var s := "\U{1F600}\U{1F600}\U{1F600}\U{1F600}\U{1F600}";
            |s| < 8 && !InlinesWhole(8, Utf16Length(s))
  {
    Utf16LengthExample();
  }

  // ---------------------------------------------------------------------------
  // getFilename: the public path strip

  /** `s.replace(/^\//, '')` */
  function StripLeadingSlash(s: string): (t: string)
    ensures |t| <= |s| && t == s[|s| - |t|..]
    ensures t == s || (s != [] && s[0] == '/' && t == s[1..])
  {
    if s != [] && s[0] == '/' then s[1..] else s
  }

  /** `(publicPath || '').replace(/(^\/|\/$)/g, '') + '/'`: one `/` off each end, once,
      then a `/` after it. A lone `/` is consumed by the leading alternative and
      leaves the empty string. */
  function PathPrefix(publicPath: string): (prefix: string)
    ensures |prefix| >= 1 && prefix[|prefix| - 1] == '/'
  {
    var p := StripLeadingSlash(publicPath);
    var p' := if p != [] && p[|p| - 1] == '/' then p[..|p| - 1] else p;
    p' + "/"
  }

  /** A lone `/` leaves only the `/` added after it. */
  lemma PathPrefixOfRoot()
    ensures PathPrefix("/") == "/"
  {
    assert StripLeadingSlash("/") == [];
  }

  /** `/static/` loses both slashes and gets one back: `static/`. */
  lemma PathPrefixExample()
    ensures PathPrefix("/static/") == "static/"
  {
    var s: string := "/static/";
    var p := s[1..];
    assert StripLeadingSlash(s) == p;
    assert p == "static/";
    assert p[|p| - 1] == '/';
    var q := p[..|p| - 1];
    assert q == "static";
    assert PathPrefix(s) == q + "/";
    assert q + "/" == "static/";
  }

  /** `normalizedPath.indexOf(pathPrefix) === 0`: the path begins with the prefix. */
  lemma IndexOfZeroIsPrefix(s: string, t: string)
    ensures IndexOf(s, t) == 0 <==> (|t| <= |s| && s[..|t|] == t)
  {
    if |t| <= |s| && s[..|t|] == t {
      assert OccursAt(s, t, 0);
    }
  }

  /** The disk path `getFilename` hands to `path.resolve`: one leading `/` off the
      `href`, then, when the path begins with the prefix, the prefix and one more
      leading `/`. */
  function NormalizedPath(publicPath: string, href: string): (path: string)
    ensures |path| <= |href| && path == href[|href| - |path|..]
  {
    var normalized := StripLeadingSlash(href);
    var prefix := PathPrefix(publicPath);
    if IndexOf(normalized, prefix) == 0 then
      var rest := StripLeadingSlash(normalized[|prefix|..]);
      assert |rest| <= |normalized| by { IndexOfZeroIsPrefix(normalized, prefix); }
      rest
    else normalized
  }

  /** A path under the public path round-trips: for a relative path `rel` (no leading
      `/`), the URL `/` + prefix + `rel` gives back `rel`. */
  lemma NormalizedPathRoundTrip(publicPath: string, rel: string)
    requires rel == [] || rel[0] != '/'
    ensures NormalizedPath(publicPath, "/" + PathPrefix(publicPath) + rel) == rel
  {
    var prefix := PathPrefix(publicPath);
    var url := prefix + rel;
    SlashedParts(prefix, rel);
    IndexOfZeroIsPrefix(url, prefix);
    assert StripLeadingSlash(rel) == rel;
  }

  lemma SlashedParts(prefix: string, rel: string)
    ensures StripLeadingSlash("/" + prefix + rel) == prefix + rel
    ensures (prefix + rel)[..|prefix|] == prefix && (prefix + rel)[|prefix|..] == rel
  {
    assert ("/" + prefix + rel)[1..] == prefix + rel;
  }

  /** The same without the leading `/` of the URL, unless the prefix itself begins
      with `/` (a public path such as `///a`). */
  lemma NormalizedPathRoundTripRelative(publicPath: string, rel: string)
    requires rel == [] || rel[0] != '/'
    requires PathPrefix(publicPath) == "/" || PathPrefix(publicPath)[0] != '/'
    ensures NormalizedPath(publicPath, PathPrefix(publicPath) + rel) == rel
  {
    var prefix := PathPrefix(publicPath);
    var url := prefix + rel;
    if prefix == "/" {
      assert StripLeadingSlash(url) == rel;
      IndexOfZeroIsPrefix(rel, prefix);
    } else {
      assert StripLeadingSlash(url) == url;
      assert url[..|prefix|] == prefix;
      IndexOfZeroIsPrefix(url, prefix);
      assert url[|prefix|..] == rel;
    }
  }

  /** A path outside the public path only loses its leading `/`. */
  lemma NormalizedPathOutside(publicPath: string, href: string)
    requires var n := StripLeadingSlash(href); !(|PathPrefix(publicPath)| <= |n| && n[..|PathPrefix(publicPath)|] == PathPrefix(publicPath))
    ensures NormalizedPath(publicPath, href) == StripLeadingSlash(href)
  {
    IndexOfZeroIsPrefix(StripLeadingSlash(href), PathPrefix(publicPath));
  }
}
