/** The second pass of `processStyle` (`src/index.js:546-597`): a plain iterator walked
    with the reverse mirror. It drops the rules the first pass marked, applies the
    recorded selectors, prunes `@keyframes` by the keyframes mode and the collected
    names, and prunes `@font-face` rules by the collected font string, adding a font
    preload for each new `src` on the way. */
module SecondPass {
  import opened Wrappers
  import opened CssTree
  import opened Partition
  import opened CssWalk
  import opened JsText

  /** What the second-pass iterator closes over and does not write: the keyframes
      mode, the two font flags, and what the first pass collected. */
  datatype Env = Env(
    keyframesMode: string,
    shouldPreloadFonts: bool,
    shouldInlineFonts: bool,
    criticalFonts: string,
    criticalKeyframeNames: seq<string>)

  /** What it writes: `preloadedFonts`, and the `href` of every
      `<link rel="preload" as="font" crossorigin="anonymous">` appended to `<head>`. */
  datatype Preloads = Preloads(fonts: seq<string>, hrefs: seq<string>)

  const NoPreloads: Preloads := Preloads([], [])

  // ---------------------------------------------------------------------------
  // @font-face

  /** `family` and `src` after the declaration loop of a `@font-face` rule;
      `None` is `undefined`. */
  datatype FontInfo = FontInfo(family: Option<string>, src: Option<string>)

  predicate IsSrc(d: Decl) {
    d.Declaration? && d.property == "src"
  }

  predicate IsFamily(d: Decl) {
    d.Declaration? && d.property == "font-family"
  }

  /** The declaration loop: a `src` declaration sets `src` to the regex's second
      group (or `undefined` when it does not match), a `font-family` declaration sets
      `family`. */
  function FontFaceInfo(decls: seq<Decl>): (info: FontInfo)
  {
    if decls == [] then FontInfo(None, None)
    else
      var info := FontFaceInfo(decls[..|decls| - 1]);
      var d := decls[|decls| - 1];
      if IsSrc(d) then info.(src := UrlOf(d.value))
      else if IsFamily(d) then info.(family := Some(d.value))
      else info
  }

  /** The loop as the source runs it. */
  method ReadFontFace(decls: seq<Decl>) returns (family: Option<string>, src: Option<string>)
    ensures FontInfo(family, src) == FontFaceInfo(decls)
  {
    family, src := None, None;
    var i := 0;
    while i < |decls|
      invariant 0 <= i <= |decls|
      invariant FontInfo(family, src) == FontFaceInfo(decls[..i])
    {
      assert decls[..i + 1][..i] == decls[..i];
      var decl := decls[i];
      if decl.Declaration? && decl.property == "src" {
        src := UrlOf(decl.value);
      } else if decl.Declaration? && decl.property == "font-family" {
        family := Some(decl.value);
      }
      i := i + 1;
    }
    assert decls[..|decls|] == decls;
  }

  /** The last `font-family` declaration wins. */
  lemma {:induction false} LastFamilyWins(decls: seq<Decl>, k: nat)
    requires k < |decls| && IsFamily(decls[k])
    requires forall j :: k < j < |decls| ==> !IsFamily(decls[j])
    ensures FontFaceInfo(decls).family == Some(decls[k].value)
  {
    var n := |decls| - 1;
    if k < n {
      assert decls[..n][k] == decls[k];
      assert forall j :: k < j < n ==> decls[..n][j] == decls[j];
      LastFamilyWins(decls[..n], k);
    }
  }

  /** Without a `font-family` declaration `family` stays unset. */
  lemma {:induction false} NoFamily(decls: seq<Decl>)
    requires forall j :: 0 <= j < |decls| ==> !IsFamily(decls[j])
    ensures FontFaceInfo(decls).family.None?
  {
    if decls != [] {
      var n := |decls| - 1;
      assert forall j :: 0 <= j < n ==> decls[..n][j] == decls[j];
      NoFamily(decls[..n]);
    }
  }

  /** The last `src` declaration wins, even when its value does not match and so
      resets `src` to `undefined`. */
  lemma {:induction false} LastSrcWins(decls: seq<Decl>, k: nat)
    requires k < |decls| && IsSrc(decls[k])
    requires forall j :: k < j < |decls| ==> !IsSrc(decls[j])
    ensures FontFaceInfo(decls).src == UrlOf(decls[k].value)
  {
    var n := |decls| - 1;
    if k < n {
      assert decls[..n][k] == decls[k];
      assert forall j :: k < j < n ==> decls[..n][j] == decls[j];
      LastSrcWins(decls[..n], k);
      assert FontFaceInfo(decls).src == FontFaceInfo(decls[..n]).src;
    }
  }

  /** Without a `src` declaration `src` stays unset. */
  lemma {:induction false} NoSrc(decls: seq<Decl>)
    requires forall j :: 0 <= j < |decls| ==> !IsSrc(decls[j])
    ensures FontFaceInfo(decls).src.None?
  {
    if decls != [] {
      var n := |decls| - 1;
      assert forall j :: 0 <= j < n ==> decls[..n][j] == decls[j];
      NoSrc(decls[..n]);
    }
  }

  /** `src && shouldPreloadFonts && preloadedFonts.indexOf(src) === -1`: a link is
      added for a `src` not preloaded yet, with `src.trim()` as its `href`. */
  function Preload(env: Env, p: Preloads, info: FontInfo): (p': Preloads)
  {
    if info.src.Some? && info.src.value != "" && env.shouldPreloadFonts && info.src.value !in p.fonts then
      Preloads(p.fonts + [info.src.value], p.hrefs + [Trim(info.src.value)])
    else p
  }

  /** A `@font-face` rule is kept when it names a family, has a `src`, the family
      occurs in the font string, and font inlining is on. */
  predicate KeepFontFace(env: Env, info: FontInfo) {
    info.family.Some? && info.family.value != "" &&
    info.src.Some? && info.src.value != "" &&
    Contains(env.criticalFonts, info.family.value) &&
    env.shouldInlineFonts
  }

  // ---------------------------------------------------------------------------
  // @keyframes

  /** `none` drops every `@keyframes` rule, `all` keeps every one, and any other mode
      keeps those whose name was collected. */
  predicate KeepKeyframes(env: Env, name: string) {
    env.keyframesMode != "none" &&
    (env.keyframesMode == "all" || name in env.criticalKeyframeNames)
  }

  // ---------------------------------------------------------------------------
  // The iterator

  /** Whether the second pass keeps a rule: it is not marked, and it passes the
      keyframes or font-face test when it is one of those. */
  predicate KeepRule(env: Env, r: Rule) {
    !r.remove &&
    (r.Keyframes? ==> KeepKeyframes(env, r.name)) &&
    (r.FontFace? ==> KeepFontFace(env, FontFaceInfo(r.decls)))
  }

  /** The second-pass iterator on one rule: a marked rule is refused before anything
      else; otherwise the marks are applied (to the mirror rule too), a `@keyframes`
      rule answers `true` or `false`, a `@font-face` rule may add a preload and
      answers `false` or nothing, and every other rule answers nothing. */
  function Judge(env: Env, p: Preloads, r: Rule, other: Option<Rule>): (step: Step<Preloads>)
    ensures Keeps(step.verdict) <==> KeepRule(env, r)
    ensures step.state == if !r.remove && r.FontFace? then Preload(env, p, FontFaceInfo(r.decls)) else p
    ensures step.rule == if r.remove then r else ApplyMarked(r)
    ensures r.remove ==> step.other == other
    ensures !r.remove ==> step.other == ApplyMarkedSelectors(r, other).1
  {
    if r.remove then Step(p, r, other, Rejected)
    else
      var (r1, o1) := ApplyMarkedSelectors(r, other);
      match r1
      case Keyframes(name, _, _) =>
        var verdict :=
          if env.keyframesMode == "none" then Rejected
          else if env.keyframesMode == "all" then Accepted
          else if name in env.criticalKeyframeNames then Accepted
          else Rejected;
        Step(p, r1, o1, verdict)
      case FontFace(decls, _) =>
        var info := FontFaceInfo(decls);
        var p' := Preload(env, p, info);
        var missing := info.family.None? || info.family.value == "" || info.src.None? || info.src.value == "";
        Step(p', r1, o1, if missing || !Contains(env.criticalFonts, info.family.value) || !env.shouldInlineFonts then Rejected else NoAnswer)
      case _ => Step(p, r1, o1, NoAnswer)
  }

  /** The iterator as the source runs it on one rule. */
  method JudgeRule(env: Env, p: Preloads, r: Rule, other: Option<Rule>) returns (step: Step<Preloads>)
    ensures step == Judge(env, p, r, other)
  {
    if r.remove {
      return Step(p, r, other, Rejected);
    }
    var rule, rule2 := ApplyMarked(r), if other.Some? then Some(ApplyMarked(other.value)) else None;
    if rule.Keyframes? {
      if env.keyframesMode == "none" {
        return Step(p, rule, rule2, Rejected);
      }
      if env.keyframesMode == "all" {
        return Step(p, rule, rule2, Accepted);
      }
      return Step(p, rule, rule2, if rule.name in env.criticalKeyframeNames then Accepted else Rejected);
    }
    if rule.FontFace? {
      var family, src := ReadFontFace(rule.decls);
      var preloads := p;
      if src.Some? && src.value != "" && env.shouldPreloadFonts && src.value !in preloads.fonts {
        preloads := Preloads(preloads.fonts + [src.value], preloads.hrefs + [Trim(src.value)]);
      }
      if family.None? || family.value == "" || src.None? || src.value == "" ||
         IndexOf(env.criticalFonts, family.value) == -1 || !env.shouldInlineFonts {
        return Step(preloads, rule, rule2, Rejected);
      }
      return Step(preloads, rule, rule2, NoAnswer);
    }
    return Step(p, rule, rule2, NoAnswer);
  }

  function SecondPassIterator(env: Env): Iterator<Preloads> {
    (p: Preloads, r: Rule, o: Option<Rule>) => Judge(env, p, r, o)
  }

  /** The iterator never reads the mirror rule, which is why the critical tree does not
      depend on whether a mirror is walked alongside. */
  lemma SecondPassIgnoresMirror(env: Env)
    ensures IgnoresMirror(SecondPassIterator(env))
  {
  }

  // ---------------------------------------------------------------------------
  // What the second pass leaves: reference definitions

  /** A rule as the second pass leaves it: a container's list pruned, and the recorded
      selectors applied unless the rule was marked. */
  function Out(env: Env, r: Rule): (r': Rule)
    decreases r, 0
  {
    var shown := if r.Container? then r.(rules := Prune(env, r.rules)) else r;
    if r.remove then shown else ApplyMarked(shown)
  }

  /** The critical tree: the kept rules, in order, each as the second pass leaves it. */
  function Prune(env: Env, rules: seq<Rule>): (kept: seq<Rule>)
    decreases rules, 1
  {
    if rules == [] then []
    else
      var r := rules[|rules| - 1];
      Prune(env, rules[..|rules| - 1]) + (if KeepRule(env, r) then [Out(env, r)] else [])
  }

  /** The rules the second pass takes out of a list, in order: at the top level these
      are the inverse stylesheet. */
  function Dropped(env: Env, rules: seq<Rule>): (dropped: seq<Rule>)
  {
    if rules == [] then []
    else
      var r := rules[|rules| - 1];
      Dropped(env, rules[..|rules| - 1]) + (if KeepRule(env, r) then [] else [Out(env, r)])
  }

  /** The preloads after the font-face rules of the tree, in document order; a marked
      rule is refused before it can preload. */
  function PreloadsOver(env: Env, p: Preloads, faces: seq<Rule>): (p': Preloads)
  {
    if faces == [] then p
    else
      var f := faces[|faces| - 1];
      var prev := PreloadsOver(env, p, faces[..|faces| - 1]);
      if f.FontFace? && !f.remove then Preload(env, prev, FontFaceInfo(f.decls)) else prev
  }

  lemma {:induction false} PreloadsOverAppend(env: Env, p: Preloads, a: seq<Rule>, b: seq<Rule>)
    ensures PreloadsOver(env, p, a + b) == PreloadsOver(env, PreloadsOver(env, p, a), b)
    decreases |b|
  {
    if b == [] {
      assert a + b == a;
    } else {
      var n := |b| - 1;
      assert (a + b)[..|a + b| - 1] == a + b[..n];
      assert (a + b)[|a + b| - 1] == b[n];
      PreloadsOverAppend(env, p, a, b[..n]);
    }
  }

  lemma FontFaceRulesSnoc(rules: seq<Rule>, r: Rule)
    ensures r.FontFace? ==> FontFaceRules(rules + [r]) == FontFaceRules(rules) + [r]
    ensures r.Container? ==> FontFaceRules(rules + [r]) == FontFaceRules(rules) + FontFaceRules(r.rules)
    ensures !r.FontFace? && !r.Container? ==> FontFaceRules(rules + [r]) == FontFaceRules(rules)
  {
    assert (rules + [r])[..|rules|] == rules;
  }

  lemma PreloadsOverSnoc(env: Env, p: Preloads, faces: seq<Rule>, f: Rule)
    ensures PreloadsOver(env, p, faces + [f]) ==
      if f.FontFace? && !f.remove then Preload(env, PreloadsOver(env, p, faces), FontFaceInfo(f.decls))
      else PreloadsOver(env, p, faces)
  {
    assert (faces + [f])[..|faces|] == faces;
  }

  lemma PruneSnoc(env: Env, rules: seq<Rule>, r: Rule)
    ensures Prune(env, rules + [r]) == Prune(env, rules) + (if KeepRule(env, r) then [Out(env, r)] else [])
    ensures Dropped(env, rules + [r]) == Dropped(env, rules) + (if KeepRule(env, r) then [] else [Out(env, r)])
  {
    assert (rules + [r])[..|rules|] == rules;
  }

  /** What the iterator does to a rule whose list has already been pruned. */
  lemma JudgeShown(env: Env, p: Preloads, r: Rule)
    ensures var shown := if r.Container? then r.(rules := Prune(env, r.rules)) else r;
            var step := SecondPassIterator(env)(p, shown, None);
            step.rule == Out(env, r) &&
            (Keeps(step.verdict) <==> KeepRule(env, r)) &&
            step.state == if r.FontFace? && !r.remove then Preload(env, p, FontFaceInfo(r.decls)) else p
  {
  }

  /** The second pass computes the reference definitions: the walk keeps `Prune`, takes
      out `Dropped`, and preloads the font-face rules in document order, whatever
      depth they sit at and whether their container stays. */
  lemma {:induction false} SecondPassWalk(env: Env, rules: seq<Rule>, p: Preloads)
    ensures Walk(rules, p, SecondPassIterator(env)) ==
      Walked(PreloadsOver(env, p, FontFaceRules(rules)), Prune(env, rules), Dropped(env, rules))
    decreases rules
  {
    var it := SecondPassIterator(env);
    if rules != [] {
      var n := |rules| - 1;
      var r := rules[n];
      assert rules[..n] + [r] == rules;
      SecondPassWalk(env, rules[..n], p);
      var w := Walk(rules[..n], p, it);
      var faces := FontFaceRules(rules[..n]);
      FontFaceRulesSnoc(rules[..n], r);
      PruneSnoc(env, rules[..n], r);
      JudgeShown(env, w.state, r);
      if r.Container? {
        SecondPassWalk(env, r.rules, w.state);
        PreloadsOverAppend(env, p, faces, FontFaceRules(r.rules));
        var c := Walk(r.rules, w.state, it);
        assert Walk(rules, p, it) == Visit(w, it(c.state, r.(rules := c.kept), None));
        JudgeShown(env, c.state, r);
      } else {
        assert Walk(rules, p, it) == Visit(w, it(w.state, r, None));
        PreloadsOverSnoc(env, p, faces, r);
      }
    }
  }

  /** Each rule of a list as the second pass leaves it, in order. */
  function OutAll(env: Env, rules: seq<Rule>): (outs: seq<Rule>)
    ensures |outs| == |rules|
  {
    if rules == [] then [] else OutAll(env, rules[..|rules| - 1]) + [Out(env, rules[|rules| - 1])]
  }

  lemma OutAllSnoc(env: Env, rules: seq<Rule>, r: Rule)
    ensures OutAll(env, rules + [r]) == OutAll(env, rules) + [Out(env, r)]
  {
    assert (rules + [r])[..|rules|] == rules;
  }

  lemma {:induction false} OutAllHas(env: Env, rules: seq<Rule>, x: Rule)
    requires x in rules
    ensures Out(env, x) in OutAll(env, rules)
  {
    var n := |rules| - 1;
    if rules[n] != x {
      var init := rules[..n];
      DropLastSnoc(rules);
      assert x in init;
      OutAllHas(env, init, x);
    }
  }

  /** The rules the second pass keeps. */
  function KeptBy(env: Env): Rule -> bool {
    (r: Rule) => KeepRule(env, r)
  }

  /** The three facts of `PruneIsFilter` about one list. */
  ghost predicate PruneFilters(env: Env, rules: seq<Rule>) {
    && Prune(env, rules) == OutAll(env, Filter(rules, KeptBy(env)))
    && Dropped(env, rules) == OutAll(env, Filter(rules, Not(KeptBy(env))))
    && Shares(Prune(env, rules), Dropped(env, rules), OutAll(env, rules))
  }

  lemma {:induction false} PruneIsFilter(env: Env, rules: seq<Rule>)
    ensures PruneFilters(env, rules)
  {
    if rules != [] {
      var n := |rules| - 1;
      PruneIsFilter(env, rules[..n]);
      DropLastSnoc(rules);
      PruneFiltersSnoc(env, rules[..n], rules[n]);
    }
  }

  lemma PruneFiltersSnoc(env: Env, init: seq<Rule>, r: Rule)
    requires PruneFilters(env, init)
    ensures PruneFilters(env, init + [r])
  {
    var rules := init + [r];
    var kept, dropped := KeptBy(env), Not(KeptBy(env));
    var fk, fd := Filter(init, kept), Filter(init, dropped);
    PruneSnoc(env, init, r);
    FilterSnoc(init, r, kept);
    FilterSnoc(init, r, dropped);
    OutAllSnoc(env, init, r);
    if KeepRule(env, r) {
      assert kept(r) && !dropped(r);
      OutAllSnoc(env, fk, r);
      assert Filter(rules, dropped) == fd;
      assert Prune(env, rules) == OutAll(env, Filter(rules, kept));
      assert Dropped(env, rules) == OutAll(env, Filter(rules, dropped));
    } else {
      assert !kept(r) && dropped(r);
      OutAllSnoc(env, fd, r);
      assert Filter(rules, kept) == fk;
      assert Prune(env, rules) == OutAll(env, Filter(rules, kept));
      assert Dropped(env, rules) == OutAll(env, Filter(rules, dropped));
    }
    SharesStep(Prune(env, init), Dropped(env, init), Prune(env, rules), Dropped(env, rules),
               OutAll(env, init), OutAll(env, rules), Out(env, r), KeepRule(env, r));
  }

  /** The top level is split in two: the critical side is the rules `KeepRule`
      accepts and the inverse side the others, each in order and as the second pass
      leaves it, so that every rule lands on exactly one side. */
  lemma PruneSplitsTopLevel(env: Env, rules: seq<Rule>)
    ensures Prune(env, rules) == OutAll(env, Filter(rules, KeptBy(env)))
    ensures Dropped(env, rules) == OutAll(env, Filter(rules, Not(KeptBy(env))))
    ensures multiset(Prune(env, rules)) + multiset(Dropped(env, rules)) == multiset(OutAll(env, rules))
    ensures |Prune(env, rules)| + |Dropped(env, rules)| == |rules|
  {
    PruneIsFilter(env, rules);
    assert PruneFilters(env, rules);
    assert Shares(Prune(env, rules), Dropped(env, rules), OutAll(env, rules));
    assert |multiset(Prune(env, rules))| + |multiset(Dropped(env, rules))| == |multiset(OutAll(env, rules))|;
  }

  // ---------------------------------------------------------------------------
  // What the critical tree holds

  /** A rule the critical tree may hold: not marked, a `@keyframes` rule allowed by the
      mode, a `@font-face` rule meeting every condition, and a style rule carrying the
      selectors the first pass recorded. */
  predicate Allowed(env: Env, x: Rule) {
    !x.remove &&
    (x.Keyframes? ==> KeepKeyframes(env, x.name)) &&
    (x.FontFace? ==> KeepFontFace(env, FontFaceInfo(x.decls))) &&
    (x.Style? && x.marked.Some? ==> x.selectors == x.marked.value)
  }

  predicate AllAllowed(env: Env, xs: seq<Rule>) {
    forall i :: 0 <= i < |xs| ==> Allowed(env, xs[i])
  }

  lemma AllowedAppend(env: Env, a: seq<Rule>, b: seq<Rule>)
    requires AllAllowed(env, a) && AllAllowed(env, b)
    ensures AllAllowed(env, a + b)
  {
  }

  lemma FlattenSnoc(rules: seq<Rule>, x: Rule)
    ensures Flatten(rules + [x]) == Flatten(rules) + [x] + (if x.Container? then Flatten(x.rules) else [])
  {
    assert (rules + [x])[..|rules|] == rules;
  }

  /** Every rule left anywhere in the critical tree, at any depth, is allowed. */
  lemma {:induction false} CriticalTreeAllowed(env: Env, rules: seq<Rule>)
    ensures AllAllowed(env, Flatten(Prune(env, rules)))
    decreases rules
  {
    if rules != [] {
      var n := |rules| - 1;
      var r := rules[n];
      assert rules[..n] + [r] == rules;
      PruneSnoc(env, rules[..n], r);
      CriticalTreeAllowed(env, rules[..n]);
      if KeepRule(env, r) {
        var x := Out(env, r);
        FlattenSnoc(Prune(env, rules[..n]), x);
        assert Allowed(env, x);
        assert Prune(env, rules) == Prune(env, rules[..n]) + [x];
        if x.Container? {
          assert AllAllowed(env, Flatten(Prune(env, rules[..n])) + [x]) by {
            assert AllAllowed(env, [x]);
            AllowedAppend(env, Flatten(Prune(env, rules[..n])), [x]);
          }
          CriticalTreeAllowed(env, r.rules);
          assert x.rules == Prune(env, r.rules);
          AllowedAppend(env, Flatten(Prune(env, rules[..n])) + [x], Flatten(x.rules));
        } else {
          assert AllAllowed(env, [x]);
          AllowedAppend(env, Flatten(Prune(env, rules[..n])), [x]);
          assert Flatten(Prune(env, rules)) == Flatten(Prune(env, rules[..n])) + [x] + [];
        }
      } else {
        assert Prune(env, rules) == Prune(env, rules[..n]) + [];
        assert Prune(env, rules[..n]) + [] == Prune(env, rules[..n]);
      }
    }
  }

  /** Mode `none` leaves no `@keyframes` rule in the critical tree. */
  lemma NoneDropsAllKeyframes(env: Env, rules: seq<Rule>)
    requires env.keyframesMode == "none"
    ensures forall i :: 0 <= i < |Flatten(Prune(env, rules))| ==> !Flatten(Prune(env, rules))[i].Keyframes?
  {
    CriticalTreeAllowed(env, rules);
  }

  /** Without font inlining no `@font-face` rule stays in the critical tree. */
  lemma NoInlineDropsAllFontFaces(env: Env, rules: seq<Rule>)
    requires !env.shouldInlineFonts
    ensures forall i :: 0 <= i < |Flatten(Prune(env, rules))| ==> !Flatten(Prune(env, rules))[i].FontFace?
  {
    CriticalTreeAllowed(env, rules);
  }

  // ---------------------------------------------------------------------------
  // Preloads

  predicate NoDuplicates(xs: seq<string>) {
    forall i, j :: 0 <= i < j < |xs| ==> xs[i] != xs[j]
  }

  /** Each font is preloaded once, and each link points at its font, trimmed. */
  predicate PreloadsValid(p: Preloads) {
    NoDuplicates(p.fonts) && |p.hrefs| == |p.fonts| &&
    forall i :: 0 <= i < |p.fonts| ==> p.hrefs[i] == Trim(p.fonts[i])
  }

  lemma PreloadValid(env: Env, p: Preloads, info: FontInfo)
    requires PreloadsValid(p)
    ensures PreloadsValid(Preload(env, p, info))
  {
  }

  lemma {:induction false} PreloadsOverValid(env: Env, p: Preloads, faces: seq<Rule>)
    requires PreloadsValid(p)
    ensures PreloadsValid(PreloadsOver(env, p, faces))
  {
    if faces != [] {
      var n := |faces| - 1;
      PreloadsOverValid(env, p, faces[..n]);
      if faces[n].FontFace? {
        PreloadValid(env, PreloadsOver(env, p, faces[..n]), FontFaceInfo(faces[n].decls));
      }
    }
  }

  /** Without the preload flag nothing is preloaded. */
  lemma {:induction false} NoPreloadWithoutFlag(env: Env, p: Preloads, faces: seq<Rule>)
    requires !env.shouldPreloadFonts
    ensures PreloadsOver(env, p, faces) == p
  {
    if faces != [] {
      NoPreloadWithoutFlag(env, p, faces[..|faces| - 1]);
    }
  }

  lemma PreloadGrows(env: Env, p: Preloads, info: FontInfo)
    ensures |p.fonts| <= |Preload(env, p, info).fonts|
    ensures Preload(env, p, info).fonts[..|p.fonts|] == p.fonts
  {
  }

  /** With the preload flag, every unmarked font-face rule with a `src` gets its
      `src` preloaded, whether or not the rule itself is kept. */
  lemma {:induction false} EverySrcPreloaded(env: Env, p: Preloads, faces: seq<Rule>, k: nat)
    requires env.shouldPreloadFonts
    requires k < |faces| && faces[k].FontFace? && !faces[k].remove
    requires FontFaceInfo(faces[k].decls).src.Some? && FontFaceInfo(faces[k].decls).src.value != ""
    ensures FontFaceInfo(faces[k].decls).src.value in PreloadsOver(env, p, faces).fonts
  {
    var n := |faces| - 1;
    var prev := PreloadsOver(env, p, faces[..n]);
    var src := FontFaceInfo(faces[k].decls).src.value;
    if k < n {
      assert faces[..n][k] == faces[k];
      EverySrcPreloaded(env, p, faces[..n], k);
      var next := PreloadsOver(env, p, faces);
      if faces[n].FontFace? && !faces[n].remove {
        PreloadGrows(env, prev, FontFaceInfo(faces[n].decls));
        assert src in next.fonts[..|prev.fonts|];
      }
    }
  }

  /** And every font preloaded is the `src` of an unmarked font-face rule. */
  lemma {:induction false} OnlySrcsPreloaded(env: Env, p: Preloads, faces: seq<Rule>, font: string)
    requires font in PreloadsOver(env, p, faces).fonts && font !in p.fonts
    ensures exists k :: 0 <= k < |faces| && faces[k].FontFace? && !faces[k].remove &&
                        FontFaceInfo(faces[k].decls).src == Some(font)
  {
    var n := |faces| - 1;
    var prev := PreloadsOver(env, p, faces[..n]);
    if font in prev.fonts {
      OnlySrcsPreloaded(env, p, faces[..n], font);
      var k :| 0 <= k < n && faces[..n][k].FontFace? && !faces[..n][k].remove &&
               FontFaceInfo(faces[..n][k].decls).src == Some(font);
      assert faces[..n][k] == faces[k];
    } else {
      assert faces[n].FontFace? && !faces[n].remove && FontFaceInfo(faces[n].decls).src == Some(font);
    }
  }

  // ---------------------------------------------------------------------------
  // What the two trees lose

  /** A kept style rule and a marked one side by side inside `@media`: the critical
      tree keeps the container with the first, and the inverse gets nothing, so the
      marked rule is in neither tree (its mirror copy went to the mirror container,
      which no stylesheet holds). */
  lemma NestedRejectedRuleIsLost(env: Env)
    ensures var keep := Style(["a"], [], false, Some(["a"]));
            var drop := Style(["b"], [], true, Some([]));
            var media := Container("media", [keep, drop], false);
            Prune(env, [media]) == [Container("media", [keep], false)] &&
            Dropped(env, [media]) == []
  {
    var keep := Style(["a"], [], false, Some(["a"]));
    var drop := Style(["b"], [], true, Some([]));
    var media := Container("media", [keep, drop], false);
    PruneSnoc(env, [], keep);
    assert [] + [keep] == [keep];
    PruneSnoc(env, [keep], drop);
    assert [keep] + [drop] == [keep, drop];
    assert Out(env, media) == Container("media", [keep], false);
    PruneSnoc(env, [], media);
    assert [] + [media] == [media];
  }

  /** A list whose every rule is marked prunes to nothing. */
  lemma {:induction false} PruneAllMarked(env: Env, rules: seq<Rule>)
    requires forall i :: 0 <= i < |rules| ==> rules[i].remove
    ensures Prune(env, rules) == []
  {
    if rules != [] {
      var n := |rules| - 1;
      var init := rules[..n];
      assert forall i :: 0 <= i < |init| ==> init[i] == rules[i];
      PruneAllMarked(env, init);
    }
  }

  /** A container whose children were all marked is rejected by the first pass, and the
      second pass walks its list first: every child goes to the mirror container, which
      no stylesheet holds, and the container reaches its side empty. When it is marked
      itself, that side is the inverse stylesheet. */
  lemma RejectedContainerArrivesEmpty(env: Env, r: Rule)
    requires r.Container? && forall i :: 0 <= i < |r.rules| ==> r.rules[i].remove
    ensures Out(env, r) == r.(rules := [])
    ensures r.remove ==> Prune(env, [r]) == [] && Dropped(env, [r]) == [r.(rules := [])]
  {
    PruneAllMarked(env, r.rules);
    PruneSnoc(env, [], r);
    assert [] + [r] == [r];
  }

  /** Such a container, at the top level, is in the inverse stylesheet with an empty
      list. */
  lemma InverseHoldsEmptied(env: Env, rules: seq<Rule>, i: nat)
    requires i < |rules| && rules[i].Container? && rules[i].remove
    requires forall k :: 0 <= k < |rules[i].rules| ==> rules[i].rules[k].remove
    ensures Container(rules[i].kind, [], true) in OutAll(env, Filter(rules, Not(KeptBy(env))))
  {
    var c := rules[i];
    RejectedContainerArrivesEmpty(env, c);
    assert Not(KeptBy(env))(c);
    FilterHas(rules, Not(KeptBy(env)), i);
    OutAllHas(env, Filter(rules, Not(KeptBy(env))), c);
  }

  /** `@media print { .unused {} }`: the rule is in neither stylesheet, and the inverse
      stylesheet gets `@media print {}`. */
  lemma RejectedMediaExample(env: Env)
    ensures var unused := Style([".unused"], [], true, Some([]));
            var media := Container("media print", [unused], true);
            Prune(env, [media]) == [] && Dropped(env, [media]) == [Container("media print", [], true)]
  {
    var unused := Style([".unused"], [], true, Some([]));
    RejectedContainerArrivesEmpty(env, Container("media print", [unused], true));
  }

  /** A kept style rule with one matching and one non-matching selector: the critical
      tree gets the matching selector, and the other selector is in neither tree. */
  lemma UnmatchedSelectorIsLost(env: Env)
    ensures var r := Style(["a", "b"], [], false, Some(["a"]));
            Prune(env, [r]) == [Style(["a"], [], false, Some(["a"]))] &&
            Dropped(env, [r]) == []
  {
    var r := Style(["a", "b"], [], false, Some(["a"]));
    assert [r][..0] == [];
  }
}
