/** The first pass of `processStyle` (`src/index.js:475-532`): a `markOnly` predicate walked
    over the whole stylesheet. It filters each style rule's selectors against the
    document, marks rules with no matching selector and containers with nothing left,
    and collects the loose font string, the keyframe names and the failed selectors. */
module FirstPass {
  import opened Wrappers
  import opened CssTree
  import opened Partition
  import opened CssWalk
  import opened JsText
  import opened Selectors

  /** The variables the predicate closes over: `criticalFonts`, `criticalKeyframeNames`
      and `failedSelectors`. */
  datatype Usage = Usage(criticalFonts: string, criticalKeyframeNames: seq<string>, failedSelectors: seq<string>)

  const Unused: Usage := Usage("", [], [])

  predicate IsAnimation(decl: Decl) {
    decl.Declaration? && (decl.property == "animation" || decl.property == "animation-name")
  }

  predicate IsFontDecl(decl: Decl) {
    decl.Declaration? && IsFontProperty(decl.property)
  }

  /** One turn of the declaration loop: a font property appends `' ' + value` to the
      font string, an animation property appends its names. Comments have no property. */
  function DeclUsage(u: Usage, decl: Decl): (u': Usage)
    ensures u'.failedSelectors == u.failedSelectors
    ensures u'.criticalFonts == u.criticalFonts + (if IsFontDecl(decl) then " " + decl.value else "")
    ensures u'.criticalKeyframeNames == u.criticalKeyframeNames + (if IsAnimation(decl) then AnimationNames(decl.value) else [])
  {
    match decl
    case DeclComment(_) => u
    case Declaration(property, value) =>
      var fonts := u.criticalFonts + (if IsFontProperty(property) then " " + value else "");
      var names := u.criticalKeyframeNames +
        (if property == "animation" || property == "animation-name" then AnimationNames(value) else []);
      Usage(fonts, names, u.failedSelectors)
  }

  /** The declaration loop of a matched style rule. */
  function DeclsUsage(u: Usage, decls: seq<Decl>): (u': Usage)
    ensures u'.failedSelectors == u.failedSelectors
    ensures |u.criticalFonts| <= |u'.criticalFonts| && u'.criticalFonts[..|u.criticalFonts|] == u.criticalFonts
    ensures |u.criticalKeyframeNames| <= |u'.criticalKeyframeNames|
    ensures u'.criticalKeyframeNames[..|u.criticalKeyframeNames|] == u.criticalKeyframeNames
  {
    if decls == [] then u
    else DeclUsage(DeclsUsage(u, decls[..|decls| - 1]), decls[|decls| - 1])
  }

  /** The inner loop over the pieces of an `animation` value. */
  method ReadAnimationNames(value: string) returns (names: seq<string>)
    ensures names == AnimationNames(value)
  {
    var pieces := SplitSpaces(value);
    names := [];
    var j := 0;
    while j < |pieces|
      invariant 0 <= j <= |pieces|
      invariant names == NonEmptyTrimmed(pieces[..j])
    {
      assert pieces[..j + 1][..j] == pieces[..j];
      var name := Trim(pieces[j]);
      if name != "" {
        names := names + [name];
      }
      j := j + 1;
    }
    assert pieces[..|pieces|] == pieces;
  }

  /** The declaration loop of a matched style rule. */
  method CollectUsage(u: Usage, decls: seq<Decl>) returns (u': Usage)
    ensures u' == DeclsUsage(u, decls)
  {
    var criticalFonts, criticalKeyframeNames := u.criticalFonts, u.criticalKeyframeNames;
    var i := 0;
    while i < |decls|
      invariant 0 <= i <= |decls|
      invariant DeclsUsage(u, decls[..i]) == Usage(criticalFonts, criticalKeyframeNames, u.failedSelectors)
    {
      assert decls[..i + 1][..i] == decls[..i];
      var decl := decls[i];
      if decl.Declaration? && IsFontProperty(decl.property) {
        criticalFonts := criticalFonts + (" " + decl.value);
      }
      if decl.Declaration? && (decl.property == "animation" || decl.property == "animation-name") {
        var names := ReadAnimationNames(decl.value);
        criticalKeyframeNames := criticalKeyframeNames + names;
      }
      i := i + 1;
    }
    assert decls[..|decls|] == decls;
    return Usage(criticalFonts, criticalKeyframeNames, u.failedSelectors);
  }

  lemma ContainsAppended(fonts: string, v: string)
    ensures Contains(fonts + (" " + v), v)
  {
    var w := fonts + (" " + v);
    assert w[|fonts| + 1..|w|] == v;
    ContainsSlice(w, |fonts| + 1, |w|);
  }

  lemma ContainsGrown(fonts: string, v: string, f: string)
    requires Contains(fonts, v)
    requires |fonts| <= |f| && f[..|fonts|] == fonts
    ensures Contains(f, v)
  {
    var extra := f[|fonts|..];
    assert "" + fonts + extra == f;
    ContainsExtended(fonts, v, "", extra);
  }

  /** Every font value of the declarations ends up in the font string. */
  lemma {:induction false} FontValuesCollected(u: Usage, decls: seq<Decl>, k: nat)
    requires k < |decls| && IsFontDecl(decls[k])
    ensures Contains(DeclsUsage(u, decls).criticalFonts, decls[k].value)
  {
    var n := |decls| - 1;
    var prev := DeclsUsage(u, decls[..n]);
    var fonts := DeclsUsage(u, decls).criticalFonts;
    assert fonts == prev.criticalFonts + (if IsFontDecl(decls[n]) then " " + decls[n].value else "") by {
      assert DeclsUsage(u, decls) == DeclUsage(prev, decls[n]);
    }
    if k == n {
      ContainsAppended(prev.criticalFonts, decls[k].value);
    } else {
      assert decls[..n][k] == decls[k];
      FontValuesCollected(u, decls[..n], k);
      ContainsGrown(prev.criticalFonts, decls[k].value, fonts);
    }
  }

  /** Every keyframe name of an animation declaration ends up in the name list. */
  lemma {:induction false} AnimationNamesCollected(u: Usage, decls: seq<Decl>, k: nat, name: string)
    requires k < |decls| && IsAnimation(decls[k]) && name in AnimationNames(decls[k].value)
    ensures name in DeclsUsage(u, decls).criticalKeyframeNames
  {
    DeclsUsageNames(u, decls);
    FlatMapContains(decls, AddedNames, k, name);
    InRightOfConcat(name, u.criticalKeyframeNames, FlatMap(decls, AddedNames));
  }

  /** The names one declaration adds. */
  function AddedNames(decl: Decl): seq<string> {
    if IsAnimation(decl) then AnimationNames(decl.value) else []
  }

  /** The declaration loop appends the names of each declaration in turn. */
  lemma {:induction false} DeclsUsageNames(u: Usage, decls: seq<Decl>)
    ensures DeclsUsage(u, decls).criticalKeyframeNames == u.criticalKeyframeNames + FlatMap(decls, AddedNames)
  {
    if decls == [] {
      assert u.criticalKeyframeNames + [] == u.criticalKeyframeNames;
    } else {
      var n := |decls| - 1;
      var prev := DeclsUsage(u, decls[..n]);
      DeclsUsageNames(u, decls[..n]);
      assert DeclsUsage(u, decls) == DeclUsage(prev, decls[n]);
      assert FlatMap(decls, AddedNames) == FlatMap(decls[..n], AddedNames) + AddedNames(decls[n]);
      ConcatAssociates(u.criticalKeyframeNames, FlatMap(decls[..n], AddedNames), AddedNames(decls[n]));
    }
  }

  lemma InExtended<T>(x: T, a: seq<T>, b: seq<T>)
    requires x in a && |a| <= |b| && b[..|a|] == a
    ensures x in b
  {
    var j :| 0 <= j < |a| && a[j] == x;
    assert b[j] == b[..|a|][j];
  }

  lemma InRightOfConcat<T>(x: T, a: seq<T>, b: seq<T>)
    requires x in b
    ensures x in a + b
  {
  }

  /** And nothing else is collected: every new name comes from an animation declaration. */
  lemma {:induction false} AnimationNamesOnlyFromAnimations(u: Usage, decls: seq<Decl>, i: nat)
    requires |u.criticalKeyframeNames| <= i < |DeclsUsage(u, decls).criticalKeyframeNames|
    ensures exists k :: (0 <= k < |decls| && IsAnimation(decls[k]) &&
                         DeclsUsage(u, decls).criticalKeyframeNames[i] in AnimationNames(decls[k].value))
  {
    var n := |decls| - 1;
    var prev := DeclsUsage(u, decls[..n]);
    var name := DeclsUsage(u, decls).criticalKeyframeNames[i];
    if i < |prev.criticalKeyframeNames| {
      AnimationNamesOnlyFromAnimations(u, decls[..n], i);
      var k :| 0 <= k < n && IsAnimation(decls[..n][k]) && prev.criticalKeyframeNames[i] in AnimationNames(decls[..n][k].value);
      assert decls[..n][k] == decls[k];
    } else {
      assert name == AnimationNames(decls[n].value)[i - |prev.criticalKeyframeNames|];
    }
  }

  /** What `rule.rules.filter((rule) => !rule.$$remove)` keeps. */
  function NotRemoved(): Rule -> bool {
    (r: Rule) => !r.remove
  }

  /** What a style rule contributes: its failed selectors, and the fonts and keyframe
      names of its declarations when one of its selectors matches. */
  function StyleUsage(d: Document, u: Usage, r: Rule): (u': Usage)
    requires r.Style?
    ensures u'.failedSelectors == u.failedSelectors + Failures(d, r.selectors)
  {
    var u1 := u.(failedSelectors := u.failedSelectors + Failures(d, r.selectors));
    if Filter(r.selectors, Matcher(d)) == [] then u1 else DeclsUsage(u1, r.decls)
  }

  /** The first-pass predicate on one rule (before `markOnly` records its answer). The
      selectors it leaves are only read back for style rules. */
  function Classify(d: Document, u: Usage, r: Rule): (j: Judged<Usage>)
    ensures r.Style? ==> j.selectors == Filter(r.selectors, Matcher(d))
    ensures r.Style? ==> (j.verdict == Rejected <==> Filter(r.selectors, Matcher(d)) == [])
    ensures j.state == if r.Style? then StyleUsage(d, u, r) else u
    ensures r.FontFace? ==> j.verdict == NoAnswer
    ensures r.Container? ==> (j.verdict == Rejected <==> forall i :: 0 <= i < |r.rules| ==> r.rules[i].remove)
    ensures (r.Keyframes? || r.Other?) ==> j.verdict == Accepted
  {
    match r
    case Style(sels, _, _, _) =>
      var kept := Filter(sels, Matcher(d));
      Judged(StyleUsage(d, u, r), kept, if kept == [] then Rejected else Accepted)
    case FontFace(_, _) => Judged(u, [], NoAnswer)
    case Container(_, rules, _) =>
      FilterEmpty(rules, NotRemoved());
      Judged(u, [], if Filter(rules, NotRemoved()) == [] then Rejected else Accepted)
    case _ => Judged(u, [], Accepted)
  }

  /** The first-pass predicate as the source runs it: the selector filter loop, the
      zero-match test, the declaration loop, and the remaining-rules test. */
  method FirstPassPredicate(d: Document, u: Usage, r: Rule) returns (j: Judged<Usage>)
    ensures j == Classify(d, u, r)
  {
    if r.Style? {
      var kept, failures := MatchSelectors(d, r.selectors);
      var u1 := u.(failedSelectors := u.failedSelectors + failures);
      if |kept| == 0 {
        return Judged(u1, kept, Rejected);
      }
      var u2 := CollectUsage(u1, r.decls);
      return Judged(u2, kept, Accepted);
    }
    if r.FontFace? {
      return Judged(u, [], NoAnswer);
    }
    if r.Container? {
      var remaining := Filter(r.rules, NotRemoved());
      return Judged(u, [], if |remaining| != 0 then Accepted else Rejected);
    }
    return Judged(u, [], Accepted);
  }

  function Predicate(d: Document): Predicate<Usage> {
    (u: Usage, r: Rule) => Classify(d, u, r)
  }

  /** `markOnly(...)` as handed to `walkStyleRules` in the first pass. */
  function FirstPassIterator(d: Document): Iterator<Usage> {
    MarkOnlyIterator(Predicate(d))
  }

  // ---------------------------------------------------------------------------
  // What the first pass marks

  /** A rule the first pass marks for removal, judged on the tree as parsed: it was
      marked already, or it is a style rule none of whose selectors matches, or it is
      a container all of whose rules are marked (an empty container included).
      Font-face, keyframes and other rules are never marked. */
  predicate Removed(d: Document, r: Rule)
    decreases r
  {
    r.remove ||
    match r
    case Style(sels, _, _, _) => Filter(sels, Matcher(d)) == []
    case Container(_, rules, _) => forall i :: 0 <= i < |rules| ==> Removed(d, rules[i])
    case _ => false
  }

  /** `outs` is `ins` as the first pass leaves it: the same rules, each with
      `$$remove` as `Removed` says and with the matching selectors recorded. */
  predicate MarkedAs(d: Document, ins: seq<Rule>, outs: seq<Rule>)
    decreases ins
  {
    |ins| == |outs| &&
    forall i :: 0 <= i < |ins| ==>
      outs[i].remove == Removed(d, ins[i]) &&
      (ins[i].Style? ==> outs[i].Style? && outs[i].marked == Some(Filter(ins[i].selectors, Matcher(d)))) &&
      (ins[i].Container? ==> outs[i].Container? && MarkedAs(d, ins[i].rules, outs[i].rules))
  }

  lemma MarkedAsSnoc(d: Document, ins: seq<Rule>, outs: seq<Rule>, r: Rule, r': Rule)
    requires MarkedAs(d, ins, outs)
    requires r'.remove == Removed(d, r)
    requires r.Style? ==> r'.Style? && r'.marked == Some(Filter(r.selectors, Matcher(d)))
    requires r.Container? ==> r'.Container? && MarkedAs(d, r.rules, r'.rules)
    ensures MarkedAs(d, ins + [r], outs + [r'])
  {
    SnocPrefix(ins, r);
    SnocPrefix(outs, r');
  }

  /** The first pass marks exactly the rules `Removed` describes, at every depth, keeps
      every rule, and records on each style rule the selectors that match. */
  lemma {:induction false} FirstPassMarks(d: Document, rules: seq<Rule>, u: Usage)
    ensures MarkedAs(d, rules, Walk(rules, u, FirstPassIterator(d)).kept)
    decreases rules
  {
    var it := FirstPassIterator(d);
    if rules != [] {
      var n := |rules| - 1;
      var r := rules[n];
      FirstPassMarks(d, rules[..n], u);
      var w := Walk(rules[..n], u, it);
      var step;
      if r.Container? {
        var c := Walk(r.rules, w.state, it);
        FirstPassMarks(d, r.rules, w.state);
        var r1 := r.(rules := c.kept);
        step := it(c.state, r1, None);
        ContainerMarked(d, r, c.kept);
        assert step.rule == SetRemove(r1, step.rule.remove);
        assert Walk(rules, u, it) == Visit(w, step);
      } else {
        step := it(w.state, r, None);
        assert Walk(rules, u, it) == Visit(w, step);
      }
      assert Walk(rules, u, it).kept == w.kept + [step.rule];
      MarkedAsSnoc(d, rules[..n], w.kept, r, step.rule);
      DropLastSnoc(rules);
    }
  }

  /** A container whose rules have been marked is rejected exactly when it is `Removed`. */
  lemma ContainerMarked(d: Document, r: Rule, kept: seq<Rule>)
    requires r.Container? && MarkedAs(d, r.rules, kept)
    ensures r.remove || Classify(d, Unused, r.(rules := kept)).verdict == Rejected <==> Removed(d, r)
  {
  }

  /** The first pass removes nothing and changes nothing but the two flags. */
  lemma FirstPassKeepsTree(d: Document, rules: seq<Rule>, u: Usage)
    ensures Walk(rules, u, FirstPassIterator(d)).rejected == []
    ensures EraseAll(Walk(rules, u, FirstPassIterator(d)).kept) == EraseAll(rules)
  {
    MarkOnlyWalkShape(rules, u, Predicate(d));
  }

  // ---------------------------------------------------------------------------
  // What the first pass collects

  predicate AllStyle(styles: seq<Rule>) {
    forall k :: 0 <= k < |styles| ==> styles[k].Style?
  }

  /** The state after the predicate has seen the given style rules, in order. */
  function UsageOver(d: Document, u: Usage, styles: seq<Rule>): (u': Usage)
    requires AllStyle(styles)
  {
    if styles == [] then u
    else StyleUsage(d, UsageOver(d, u, styles[..|styles| - 1]), styles[|styles| - 1])
  }

  lemma {:induction false} UsageOverAppend(d: Document, u: Usage, a: seq<Rule>, b: seq<Rule>)
    requires AllStyle(a) && AllStyle(b)
    ensures AllStyle(a + b)
    ensures UsageOver(d, u, a + b) == UsageOver(d, UsageOver(d, u, a), b)
    decreases |b|
  {
    if b == [] {
      assert a + b == a;
    } else {
      var n := |b| - 1;
      assert AllStyle(b[..n]);
      UsageOverAppend(d, u, a, b[..n]);
      AppendDropLast(a, b);
    }
  }

  /** The first-pass iterator's state moves only on style rules. */
  lemma IteratorState(d: Document, u: Usage, r: Rule, other: Option<Rule>)
    ensures FirstPassIterator(d)(u, r, other).state == if r.Style? then StyleUsage(d, u, r) else u
  {
  }

  lemma StyleRulesSnoc(rules: seq<Rule>, r: Rule)
    ensures r.Style? ==> StyleRules(rules + [r]) == StyleRules(rules) + [r]
    ensures r.Container? ==> StyleRules(rules + [r]) == StyleRules(rules) + StyleRules(r.rules)
    ensures !r.Style? && !r.Container? ==> StyleRules(rules + [r]) == StyleRules(rules)
  {
    SnocPrefix(rules, r);
  }

  lemma UsageOverSnoc(d: Document, u: Usage, styles: seq<Rule>, r: Rule)
    requires AllStyle(styles) && r.Style?
    ensures AllStyle(styles + [r])
    ensures UsageOver(d, u, styles + [r]) == StyleUsage(d, UsageOver(d, u, styles), r)
  {
    SnocPrefix(styles, r);
  }

  /** Only style rules feed the collected state, and they do so in document order:
      the state after the walk is the state after the style rules of the tree, taken
      in document order (a container's rules are walked where the container stands). */
  lemma {:induction false} FirstPassCollects(d: Document, rules: seq<Rule>, u: Usage)
    ensures Walk(rules, u, FirstPassIterator(d)).state == UsageOver(d, u, StyleRules(rules))
    decreases rules
  {
    var it := FirstPassIterator(d);
    if rules != [] {
      var n := |rules| - 1;
      var r := rules[n];
      DropLastSnoc(rules);
      FirstPassCollects(d, rules[..n], u);
      var w := Walk(rules[..n], u, it);
      var styles := StyleRules(rules[..n]);
      StyleRulesSnoc(rules[..n], r);
      if r.Container? {
        var c := Walk(r.rules, w.state, it);
        assert Walk(rules, u, it).state == it(c.state, r.(rules := c.kept), None).state;
        IteratorState(d, c.state, r.(rules := c.kept), None);
        FirstPassCollects(d, r.rules, w.state);
        UsageOverAppend(d, u, styles, StyleRules(r.rules));
      } else {
        assert Walk(rules, u, it).state == it(w.state, r, None).state;
        IteratorState(d, w.state, r, None);
        if r.Style? {
          UsageOverSnoc(d, u, styles, r);
        }
      }
    }
  }

  /** The fonts and names collected only grow. */
  lemma StyleUsageExtends(d: Document, u: Usage, r: Rule)
    requires r.Style?
    ensures StyleUsage(d, u, r).criticalFonts[..|u.criticalFonts|] == u.criticalFonts
    ensures StyleUsage(d, u, r).criticalKeyframeNames[..|u.criticalKeyframeNames|] == u.criticalKeyframeNames
    ensures |u.criticalFonts| <= |StyleUsage(d, u, r).criticalFonts|
    ensures |u.criticalKeyframeNames| <= |StyleUsage(d, u, r).criticalKeyframeNames|
  {
  }

  /** A matched style rule's font values are all in the final font string. */
  lemma {:induction false} UsageOverKeepsFonts(d: Document, u: Usage, styles: seq<Rule>, k: nat, i: nat)
    requires AllStyle(styles)
    requires k < |styles| && Filter(styles[k].selectors, Matcher(d)) != []
    requires i < |styles[k].decls| && IsFontDecl(styles[k].decls[i])
    ensures Contains(UsageOver(d, u, styles).criticalFonts, styles[k].decls[i].value)
    decreases |styles|
  {
    var n := |styles| - 1;
    var prev := UsageOver(d, u, styles[..n]);
    var v := styles[k].decls[i].value;
    var u1 := prev.(failedSelectors := prev.failedSelectors + Failures(d, styles[n].selectors));
    if k == n {
      FontValuesCollected(u1, styles[n].decls, i);
    } else {
      assert styles[..n][k] == styles[k];
      UsageOverKeepsFonts(d, u, styles[..n], k, i);
      StyleUsageExtends(d, prev, styles[n]);
      ContainsGrown(prev.criticalFonts, v, StyleUsage(d, prev, styles[n]).criticalFonts);
    }
  }

  /** A matched style rule's animation names are all in the final name list. */
  lemma {:induction false} UsageOverKeepsNames(d: Document, u: Usage, styles: seq<Rule>, k: nat, i: nat, name: string)
    requires AllStyle(styles)
    requires k < |styles| && Filter(styles[k].selectors, Matcher(d)) != []
    requires i < |styles[k].decls| && IsAnimation(styles[k].decls[i])
    requires name in AnimationNames(styles[k].decls[i].value)
    ensures name in UsageOver(d, u, styles).criticalKeyframeNames
    decreases |styles|
  {
    var n := |styles| - 1;
    assert AllStyle(styles[..n]);
    var prev := UsageOver(d, u, styles[..n]);
    assert UsageOver(d, u, styles) == StyleUsage(d, prev, styles[n]);
    var u1 := prev.(failedSelectors := prev.failedSelectors + Failures(d, styles[n].selectors));
    if k == n {
      AnimationNamesCollected(u1, styles[n].decls, i, name);
    } else {
      assert styles[..n][k] == styles[k];
      UsageOverKeepsNames(d, u, styles[..n], k, i, name);
      StyleUsageExtends(d, prev, styles[n]);
      InExtended(name, prev.criticalKeyframeNames, StyleUsage(d, prev, styles[n]).criticalKeyframeNames);
    }
  }

  /** A style rule none of whose selectors matches adds no font and no keyframe name
      (its failed selectors are still recorded). */
  lemma UnmatchedRuleCollectsNothing(d: Document, u: Usage, r: Rule)
    requires r.Style? && Filter(r.selectors, Matcher(d)) == []
    ensures Classify(d, u, r).state == u.(failedSelectors := u.failedSelectors + Failures(d, r.selectors))
  {
  }

  /** The failed selectors of the whole first pass: those of every style rule in
      document order. */
  function AllFailures(d: Document, styles: seq<Rule>): seq<string>
    requires AllStyle(styles)
  {
    if styles == [] then []
    else AllFailures(d, styles[..|styles| - 1]) + Failures(d, styles[|styles| - 1].selectors)
  }

  lemma {:induction false} UsageOverFailures(d: Document, u: Usage, styles: seq<Rule>)
    requires AllStyle(styles)
    ensures UsageOver(d, u, styles).failedSelectors == u.failedSelectors + AllFailures(d, styles)
  {
    if styles != [] {
      var n := |styles| - 1;
      var init, last := styles[..n], styles[n];
      assert AllStyle(init);
      var prev := UsageOver(d, u, init);
      UsageOverFailures(d, u, init);
      assert UsageOver(d, u, styles) == StyleUsage(d, prev, last);
      assert AllFailures(d, styles) == AllFailures(d, init) + Failures(d, last.selectors);
      ConcatAssociates(u.failedSelectors, AllFailures(d, init), Failures(d, last.selectors));
    }
  }
}
