/** `processStyle` (`src/index.js:443-640`) and `checkInlineThreshold`
    (`src/index.js:293-308`): the two passes over one `<style>` element, and what
    becomes of the element, the `<head>` and the inverse stylesheet afterwards. */
module Critters {
  import opened Wrappers
  import opened CssTree
  import opened Partition
  import opened CssWalk
  import opened JsText
  import opened Selectors
  import opened FirstPass
  import opened SecondPass
  import opened CrittersOptions

  /** The options `processStyle` and `checkInlineThreshold` read. */
  datatype Options = Options(
    keyframes: JsValue,
    fonts: JsValue,
    preloadFonts: JsValue,
    inlineFonts: JsValue,
    pruneSource: JsValue,
    inlineThreshold: int)

  /** What the model takes as given: the CSS parser and serializer, and the answer of
      `pruneSource(style, before, sheetInverse)` for the style's name, which writes the
      inverse sheet to disk and answers whether the whole sheet was inlined instead. */
  datatype Services = Services(
    parse: string -> seq<Rule>,
    serialize: seq<Rule> -> string,
    pruneSource: (string, string, string) -> bool)

  /** A `<style>` element: `$$reduce`, `$$name`, its text, and whether it has a parent. */
  class StyleElement {
    var reduce: Option<bool>
    var name: string
    var textContent: string
    var attached: bool

    constructor(name: string, textContent: string)
      ensures reduce == None && this.name == name && this.textContent == textContent && attached
    {
      reduce := None;
      this.name := name;
      this.textContent := textContent;
      attached := true;
    }
  }

  /** A `<link rel="stylesheet">` element: whether it is still in the document. */
  class LinkElement {
    var attached: bool

    constructor()
      ensures attached
    {
      attached := true;
    }
  }

  /** The document's `<head>`: the `href` of each font preload link appended to it. */
  class Head {
    var preloads: seq<string>

    constructor()
      ensures preloads == []
    {
      preloads := [];
    }
  }

  // ---------------------------------------------------------------------------
  // checkInlineThreshold

  /** A sheet shorter than the threshold (in UTF-16 code units) is inlined whole: the style is kept from the
      two passes (`$$reduce = false`) and the link is taken out. Otherwise nothing
      changes. */
  method CheckInlineThreshold(opts: Options, link: LinkElement, style: StyleElement, sheet: string)
    returns (inlined: bool)
    modifies link, style
    ensures inlined == InlinesWhole(opts.inlineThreshold, Utf16Length(sheet))
    ensures style.reduce == (if inlined then Some(false) else old(style.reduce))
    ensures link.attached == (old(link.attached) && !inlined)
    ensures style.name == old(style.name) && style.textContent == old(style.textContent)
    ensures style.attached == old(style.attached)
  {
    if opts.inlineThreshold != 0 && Utf16Length(sheet) < opts.inlineThreshold {
      style.reduce := Some(false);
      link.attached := false;
      return true;
    }
    return false;
  }

  // ---------------------------------------------------------------------------
  // The two passes

  /** The second pass's closure: the keyframes mode, the two font flags, and what the
      first pass collected. */
  function EnvOf(opts: Options, u: Usage): Env {
    Env(KeyframesMode(opts.keyframes),
        ShouldPreloadFonts(opts.fonts, opts.preloadFonts),
        ShouldInlineFonts(opts.fonts, opts.inlineFonts),
        u.criticalFonts,
        u.criticalKeyframeNames)
  }

  /** What the two passes leave: the usage collected, the fonts preloaded, the
      critical stylesheet, and the inverse stylesheet when one is walked. */
  datatype Reduction = Reduction(usage: Usage, preloads: Preloads, critical: seq<Rule>, inverse: Option<seq<Rule>>)

  /** The first pass over `ast`, then the second over what it marked, with
      `astInverse` as the mirror. */
  function Reduce(opts: Options, d: Document, ast: seq<Rule>, astInverse: Option<seq<Rule>>): (res: Result<Reduction>)
    ensures astInverse.None? ==> res.Ok? && res.value.inverse.None?
    ensures astInverse.Some? && res.Ok? ==> res.value.inverse.Some?
  {
    var first := Walk(ast, Unused, FirstPassIterator(d));
    var env := EnvOf(opts, first.state);
    match WalkWithReverseMirror(first.kept, astInverse, NoPreloads, SecondPassIterator(env))
    case MismatchedMirror => MismatchedMirror
    case Ok(split) => Ok(Reduction(first.state, split.state, split.rules, split.mirrorRules))
  }

  /** The second pass's closure with the keyframes mode as the source computes it,
      which reads `keyframes: false` as `'critical'`. */
  function EnvAsWritten(opts: Options, u: Usage): Env {
    EnvOf(opts, u).(keyframesMode := KeyframesModeAsWritten(opts.keyframes).s)
  }

  /** The two passes with the keyframes mode as written. */
  function ReduceAsWritten(opts: Options, d: Document, ast: seq<Rule>, astInverse: Option<seq<Rule>>): (res: Result<Reduction>)
    ensures astInverse.None? ==> res.Ok? && res.value.inverse.None?
    ensures astInverse.Some? && res.Ok? ==> res.value.inverse.Some?
  {
    var first := Walk(ast, Unused, FirstPassIterator(d));
    var env := EnvAsWritten(opts, first.state);
    match WalkWithReverseMirror(first.kept, astInverse, NoPreloads, SecondPassIterator(env))
    case MismatchedMirror => MismatchedMirror
    case Ok(split) => Ok(Reduction(first.state, split.state, split.rules, split.mirrorRules))
  }

  /** As written, `keyframes: false` reduces exactly as an unset `keyframes` does, and
      every other value reduces as with the corrected mode. */
  lemma ReduceAsWrittenIgnoresFalse(opts: Options, d: Document, ast: seq<Rule>, astInverse: Option<seq<Rule>>)
    ensures ReduceAsWritten(opts, d, ast, astInverse) ==
            Reduce(if opts.keyframes == Bool(false) then opts.(keyframes := Undefined) else opts, d, ast, astInverse)
  {
    KeyframesCorrectionIsLocal(opts.keyframes);
    KeyframesModeCases(Undefined);
    FalseKeyframesIsCritical();
  }

  /** With the mirror a second parse of the same text, the paired walk never throws,
      and the two passes come to their reference definitions: the usage is the usage
      of the style rules in document order, the critical tree is `Prune` and the
      inverse is `Dropped` of the marked tree, and the preloads are those of its
      font-face rules in order. The marked tree is the tree as `Removed` marks it. */
  lemma ReduceSameParse(opts: Options, d: Document, ast: seq<Rule>, pruneSource: bool)
    ensures var marked := Walk(ast, Unused, FirstPassIterator(d)).kept;
            var u := UsageOver(d, Unused, StyleRules(ast));
            var env := EnvOf(opts, u);
            MarkedAs(d, ast, marked) &&
            Reduce(opts, d, ast, if pruneSource then Some(ast) else None) ==
              Ok(Reduction(u, PreloadsOver(env, NoPreloads, FontFaceRules(marked)), Prune(env, marked),
                           if pruneSource then Some(Dropped(env, marked)) else None))
  {
    var first := Walk(ast, Unused, FirstPassIterator(d));
    FirstPassCollects(d, ast, Unused);
    FirstPassMarks(d, ast, Unused);
    var env := EnvOf(opts, first.state);
    var it := SecondPassIterator(env);
    SecondPassWalk(env, first.kept, NoPreloads);
    if pruneSource {
      FirstPassKeepsTree(d, ast, Unused);
      SameShapeCompatible(first.kept, ast);
      SecondPassIgnoresMirror(env);
      PairedIsPlain(first.kept, Some(ast), NoPreloads, it);
    }
  }

  /** With the mirror a second parse of the same text (or no mirror), the walks never throw. */
  lemma ReduceSucceeds(opts: Options, d: Document, ast: seq<Rule>, pruneSource: bool)
    ensures Reduce(opts, d, ast, if pruneSource then Some(ast) else None).Ok?
  {
    ReduceSameParse(opts, d, ast, pruneSource);
  }

  /** `pruneSource` changes what is collected, preloaded and kept in no way: only the
      inverse stylesheet is added. */
  lemma PruneSourceKeepsCritical(opts: Options, d: Document, ast: seq<Rule>)
    ensures Reduce(opts, d, ast, Some(ast)).Ok?
    ensures Reduce(opts, d, ast, Some(ast)).value.(inverse := None) == Reduce(opts, d, ast, None).value
  {
    ReduceSameParse(opts, d, ast, true);
    ReduceSameParse(opts, d, ast, false);
  }

  /** The top level of the stylesheet is partitioned: with `marked` the tree as the
      first pass marks it, the critical stylesheet is the marked rules the second pass
      keeps and the inverse one the others, each in order and as the second pass
      leaves it, so that every rule lands on exactly one side; and the critical
      stylesheet holds, at every depth, only rules the second pass allows. */
  lemma ReductionPartitions(opts: Options, d: Document, ast: seq<Rule>)
    ensures Reduce(opts, d, ast, Some(ast)).Ok?
    ensures var r := Reduce(opts, d, ast, Some(ast)).value;
            var marked := Walk(ast, Unused, FirstPassIterator(d)).kept;
            var env := EnvOf(opts, r.usage);
            MarkedAs(d, ast, marked) &&
            r.critical == OutAll(env, Filter(marked, KeptBy(env))) &&
            r.inverse.value == OutAll(env, Filter(marked, Not(KeptBy(env)))) &&
            multiset(r.critical) + multiset(r.inverse.value) == multiset(OutAll(env, marked)) &&
            |r.critical| + |r.inverse.value| == |ast| &&
            AllAllowed(env, Flatten(r.critical))
  {
    ReduceSameParse(opts, d, ast, true);
    var marked := Walk(ast, Unused, FirstPassIterator(d)).kept;
    var env := EnvOf(opts, UsageOver(d, Unused, StyleRules(ast)));
    PruneSplitsTopLevel(env, marked);
    CriticalTreeAllowed(env, marked);
  }

  /** A top-level container the first pass rejects (every rule in it is rejected)
      reaches the inverse stylesheet with an empty list: its rules went to the mirror
      container, which no stylesheet holds. */
  lemma RejectedContainersArriveEmpty(opts: Options, d: Document, ast: seq<Rule>, i: nat)
    requires i < |ast| && ast[i].Container? && !ast[i].remove && Removed(d, ast[i])
    ensures Reduce(opts, d, ast, Some(ast)).Ok?
    ensures var r := Reduce(opts, d, ast, Some(ast)).value;
            Container(ast[i].kind, [], true) in r.inverse.value
  {
    ReductionPartitions(opts, d, ast);
    var marked := Walk(ast, Unused, FirstPassIterator(d)).kept;
    FirstPassKeepsTree(d, ast, Unused);
    MarkedRejectedContainer(d, ast, marked, i);
    InverseHoldsEmptied(EnvOf(opts, Reduce(opts, d, ast, Some(ast)).value.usage), marked, i);
  }

  /** In the marked tree, a container rejected for its rules is marked, keeps its kind,
      and has every rule in it marked. */
  lemma MarkedRejectedContainer(d: Document, ast: seq<Rule>, marked: seq<Rule>, i: nat)
    requires MarkedAs(d, ast, marked) && EraseAll(marked) == EraseAll(ast)
    requires i < |ast| && ast[i].Container? && !ast[i].remove && Removed(d, ast[i])
    ensures marked[i].Container? && marked[i].remove && marked[i].kind == ast[i].kind
    ensures forall k :: 0 <= k < |marked[i].rules| ==> marked[i].rules[k].remove
  {
    assert Erase(marked[i]) == EraseAll(marked)[i] == EraseAll(ast)[i] == Erase(ast[i]);
    var c := marked[i];
    assert MarkedAs(d, ast[i].rules, c.rules);
  }

  /** `keyframes: false` leaves no `@keyframes` rule in the critical stylesheet, and
      `fonts: false` no `@font-face` rule. */
  lemma DisabledRulesLeave(opts: Options, d: Document, ast: seq<Rule>, mirror: bool)
    ensures Reduce(opts, d, ast, if mirror then Some(ast) else None).Ok?
    ensures var c := Flatten(Reduce(opts, d, ast, if mirror then Some(ast) else None).value.critical);
            (opts.keyframes == Bool(false) ==> forall i :: 0 <= i < |c| ==> !c[i].Keyframes?) &&
            (opts.fonts == Bool(false) ==> forall i :: 0 <= i < |c| ==> !c[i].FontFace?)
  {
    ReduceSameParse(opts, d, ast, mirror);
    var marked := Walk(ast, Unused, FirstPassIterator(d)).kept;
    var env := EnvOf(opts, UsageOver(d, Unused, StyleRules(ast)));
    CriticalTreeAllowed(env, marked);
  }

  /** As written, `keyframes: false` still inlines a `@keyframes` rule that a matched
      rule animates with, in the shape of the example below; with the corrected mode
      the same stylesheet keeps no `@keyframes` rule. */
  lemma FalseKeyframesKeepsUsedKeyframes(opts: Options, d: Document, body: Rule, unused: Rule, spin: Rule, spinner: Rule)
    requires body.Style? && unused.Style? && spin.Keyframes? && spinner.Style?
    requires !body.remove && !unused.remove && !spin.remove && !spinner.remove
    requires body.marked.None? && unused.marked.None? && spinner.marked.None?
    requires body.selectors != [] && Filter(body.selectors, Matcher(d)) == body.selectors
    requires Filter(unused.selectors, Matcher(d)) == []
    requires spinner.selectors != [] && Filter(spinner.selectors, Matcher(d)) == spinner.selectors
    requires |spinner.decls| > 0 && IsAnimation(spinner.decls[0]) && spin.name in AnimationNames(spinner.decls[0].value)
    requires opts.keyframes == Bool(false)
    ensures var ast := [body, unused, spin, spinner];
            var written := ReduceAsWritten(opts, d, ast, Some(ast));
            var corrected := Reduce(opts, d, ast, Some(ast));
            written.Ok? && spin in written.value.critical &&
            corrected.Ok? && spin !in corrected.value.critical
  {
    var ast := [body, unused, spin, spinner];
    var unset := opts.(keyframes := Undefined);
    ReduceAsWrittenIgnoresFalse(opts, d, ast, Some(ast));
    KeyframesModeCases(Undefined);
    MatchedRulesAndUsedKeyframesKept(unset, d, body, unused, spin, spinner);
    DisabledRulesLeave(opts, d, ast, true);
    var c := Reduce(opts, d, ast, Some(ast)).value.critical;
    if spin in c {
      var i :| 0 <= i < |c| && c[i] == spin;
      FlattenKeepsTopLevel(c, i);
    }
  }

  /** Fonts are preloaded only with `fonts: true` or `preloadFonts: true`; each is
      preloaded once, with its `src` trimmed as the link's `href`. */
  lemma PreloadsOnlyWhenAsked(opts: Options, d: Document, ast: seq<Rule>, mirror: bool)
    ensures Reduce(opts, d, ast, if mirror then Some(ast) else None).Ok?
    ensures var p := Reduce(opts, d, ast, if mirror then Some(ast) else None).value.preloads;
            PreloadsValid(p) &&
            (!ShouldPreloadFonts(opts.fonts, opts.preloadFonts) ==> p == NoPreloads)
  {
    ReduceSameParse(opts, d, ast, mirror);
    var marked := Walk(ast, Unused, FirstPassIterator(d)).kept;
    var env := EnvOf(opts, UsageOver(d, Unused, StyleRules(ast)));
    PreloadsOverValid(env, NoPreloads, FontFaceRules(marked));
    if !ShouldPreloadFonts(opts.fonts, opts.preloadFonts) {
      NoPreloadWithoutFlag(env, NoPreloads, FontFaceRules(marked));
    }
  }

  // ---------------------------------------------------------------------------
  // A worked example

  /** `body{color:red} .unused{color:blue} @keyframes spin{...} .spinner{animation:spin 1s}`
      against a document with `body` and `.spinner` but no `.unused`, keyframes left
      at their default and `pruneSource` on: the critical stylesheet keeps `body`, the
      `@keyframes` rule (its name is used by `.spinner`) and `.spinner`, and the
      inverse stylesheet is `.unused` alone. */
  lemma EndToEndExample(opts: Options, d: Document, ast: seq<Rule>)
    requires ast == [Style(["body"], [Declaration("color", "red")], false, None),
                     Style([".unused"], [Declaration("color", "blue")], false, None),
                     Keyframes("spin", [Frame(["0%"], [Declaration("opacity", "0")]), Frame(["100%"], [Declaration("opacity", "1")])], false),
                     Style([".spinner"], [Declaration("animation", "spin 1s")], false, None)]
    requires opts.keyframes == Undefined
    requires forall s :: d.stripPseudo(s) == s
    requires d.query("body") == Found && d.query(".unused") == NotFound && d.query(".spinner") == Found
    ensures Reduce(opts, d, ast, Some(ast)).Ok?
    ensures Reduce(opts, d, ast, Some(ast)).value.critical ==
              [ast[0].(marked := Some(["body"])), ast[2], ast[3].(marked := Some([".spinner"]))]
    ensures Reduce(opts, d, ast, Some(ast)).value.inverse == Some([ast[1].(remove := true, marked := Some([]))])
  {
    ExampleSelectors(d);
    ExampleNames();
    KeyframesModeCases(opts.keyframes);
    MatchedRulesAndUsedKeyframesKept(opts, d, ast[0], ast[1], ast[2], ast[3]);
    assert ast == [ast[0], ast[1], ast[2], ast[3]];
  }

  /** The shape of the example in general: with the default keyframes mode, a rule
      whose selectors all match stays with them, an unmatched rule goes to the inverse
      stylesheet, and a `@keyframes` rule stays when a matched rule's `animation`
      names it. */
  lemma MatchedRulesAndUsedKeyframesKept(opts: Options, d: Document, body: Rule, unused: Rule, spin: Rule, spinner: Rule)
    requires body.Style? && unused.Style? && spin.Keyframes? && spinner.Style?
    requires !body.remove && !unused.remove && !spin.remove && !spinner.remove
    requires body.marked.None? && unused.marked.None? && spinner.marked.None?
    requires body.selectors != [] && Filter(body.selectors, Matcher(d)) == body.selectors
    requires Filter(unused.selectors, Matcher(d)) == []
    requires spinner.selectors != [] && Filter(spinner.selectors, Matcher(d)) == spinner.selectors
    requires |spinner.decls| > 0 && IsAnimation(spinner.decls[0]) && spin.name in AnimationNames(spinner.decls[0].value)
    requires KeyframesMode(opts.keyframes) == "critical"
    ensures var ast := [body, unused, spin, spinner];
            var r := Reduce(opts, d, ast, Some(ast));
            r.Ok? &&
            r.value.critical == [body.(marked := Some(body.selectors)), spin, spinner.(marked := Some(spinner.selectors))] &&
            r.value.inverse == Some([unused.(remove := true, marked := Some([]))])
  {
    var ast := [body, unused, spin, spinner];
    var body' := body.(marked := Some(body.selectors));
    var unused' := unused.(remove := true, marked := Some([]));
    var spinner' := spinner.(marked := Some(spinner.selectors));
    var marked := Walk(ast, Unused, FirstPassIterator(d)).kept;
    assert marked == [body', unused', spin, spinner'] by {
      FirstPassMarks(d, ast, Unused);
      FirstPassKeepsTree(d, ast, Unused);
      MarkedFour(d, body, unused, spin, spinner, marked);
      assert MarkedRule(d, body) == body' && MarkedRule(d, unused) == unused';
      assert MarkedRule(d, spin) == spin && MarkedRule(d, spinner) == spinner';
    }
    var u := UsageOver(d, Unused, StyleRules(ast));
    assert spin.name in u.criticalKeyframeNames by {
      ExampleStyleRules(body, unused, spin, spinner);
      UsageOverKeepsNames(d, Unused, StyleRules(ast), 2, 0, spin.name);
    }
    var env := EnvOf(opts, u);
    assert KeepRule(env, body') && !KeepRule(env, unused') && KeepRule(env, spin) && KeepRule(env, spinner');
    assert Out(env, body') == body' && Out(env, unused') == unused' && Out(env, spin) == spin && Out(env, spinner') == spinner';
    PruneFour(env, body', unused', spin, spinner');
    ReduceSameParse(opts, d, ast, true);
  }

  /** Four leaf rules of which the second is dropped, each kept as it is. */
  lemma PruneFour(env: Env, a: Rule, b: Rule, c: Rule, e: Rule)
    requires a.Style? && b.Style? && c.Keyframes? && e.Style?
    requires KeepRule(env, a) && !KeepRule(env, b) && KeepRule(env, c) && KeepRule(env, e)
    requires Out(env, a) == a && Out(env, b) == b && Out(env, c) == c && Out(env, e) == e
    ensures Prune(env, [a, b, c, e]) == [a, c, e]
    ensures Dropped(env, [a, b, c, e]) == [b]
  {
    var s1 := [a];
    var s2 := s1 + [b];
    var s3 := s2 + [c];
    FourBuilt(a, b, c, e);
    PruneKeepsAsIs(env, [], a, [], []);
    PruneDropsAsIs(env, s1, b, s1, []);
    PruneKeepsAsIs(env, s2, c, s1, [b]);
    PruneKeepsAsIs(env, s3, e, s1 + [c], [b]);
  }

  /** Four elements appended one at a time, with and without the second. */
  lemma FourBuilt<T>(a: T, b: T, c: T, e: T)
    ensures [] + [a] == [a] && [] + [b] == [b]
    ensures [a] + [b] + [c] + [e] == [a, b, c, e]
    ensures [a] + [c] + [e] == [a, c, e]
  {
  }

  lemma PruneKeepsAsIs(env: Env, rules: seq<Rule>, r: Rule, kept: seq<Rule>, dropped: seq<Rule>)
    requires Prune(env, rules) == kept && Dropped(env, rules) == dropped
    requires KeepRule(env, r) && Out(env, r) == r
    ensures Prune(env, rules + [r]) == kept + [r] && Dropped(env, rules + [r]) == dropped
  {
    PruneSnoc(env, rules, r);
  }

  lemma PruneDropsAsIs(env: Env, rules: seq<Rule>, r: Rule, kept: seq<Rule>, dropped: seq<Rule>)
    requires Prune(env, rules) == kept && Dropped(env, rules) == dropped
    requires !KeepRule(env, r) && Out(env, r) == r
    ensures Prune(env, rules + [r]) == kept && Dropped(env, rules + [r]) == dropped + [r]
  {
    PruneSnoc(env, rules, r);
  }

  /** Four leaf rules as the parser left them, as the first pass marks them. */
  lemma MarkedFour(d: Document, a: Rule, b: Rule, c: Rule, e: Rule, marked: seq<Rule>)
    requires a.Style? && b.Style? && c.Keyframes? && e.Style?
    requires !a.remove && !b.remove && !c.remove && !e.remove
    requires a.marked.None? && b.marked.None? && e.marked.None?
    requires MarkedAs(d, [a, b, c, e], marked) && EraseAll(marked) == EraseAll([a, b, c, e])
    ensures marked == [MarkedRule(d, a), MarkedRule(d, b), MarkedRule(d, c), MarkedRule(d, e)]
  {
    var rules := [a, b, c, e];
    MarkedLeafAt(d, rules, marked, 0);
    MarkedLeafAt(d, rules, marked, 1);
    MarkedLeafAt(d, rules, marked, 2);
    MarkedLeafAt(d, rules, marked, 3);
  }

  lemma MarkedLeafAt(d: Document, rules: seq<Rule>, marked: seq<Rule>, k: nat)
    requires MarkedAs(d, rules, marked) && EraseAll(marked) == EraseAll(rules)
    requires k < |rules| && !rules[k].Container? && !rules[k].remove
    requires rules[k].Style? ==> rules[k].marked.None?
    ensures marked[k] == MarkedRule(d, rules[k])
  {
    assert Erase(marked[k]) == EraseAll(marked)[k];
    RuleAsMarked(d, rules[k], marked[k]);
  }

  /** A leaf rule just as the parser left it, as the first pass leaves it. */
  function MarkedRule(d: Document, r: Rule): Rule {
    if r.Style? then r.(remove := Removed(d, r), marked := Some(Filter(r.selectors, Matcher(d))))
    else SetRemove(r, Removed(d, r))
  }

  lemma RuleAsMarked(d: Document, r: Rule, r': Rule)
    requires !r.Container? && !r.remove && (r.Style? ==> r.marked.None?)
    requires Erase(r') == Erase(r) && r'.remove == Removed(d, r)
    requires r.Style? ==> r'.Style? && r'.marked == Some(Filter(r.selectors, Matcher(d)))
    ensures r' == MarkedRule(d, r)
  {
  }

  /** The selectors of the example are queried as they are, and match as the document says. */
  lemma ExampleSelectors(d: Document)
    requires forall s :: d.stripPseudo(s) == s
    requires d.query("body") == Found && d.query(".unused") == NotFound && d.query(".spinner") == Found
    ensures Filter(["body"], Matcher(d)) == ["body"]
    ensures Filter([".unused"], Matcher(d)) == []
    ensures Filter([".spinner"], Matcher(d)) == [".spinner"]
  {
    assert d.stripPseudo("body") == "body" && d.stripPseudo(".unused") == ".unused" && d.stripPseudo(".spinner") == ".spinner";
    TrimNoSpace("body");
    TrimNoSpace(".unused");
    TrimNoSpace(".spinner");
    assert Matches(d, "body") && !Matches(d, ".unused") && Matches(d, ".spinner");
    assert ["body"][..0] == [] && [".unused"][..0] == [] && [".spinner"][..0] == [];
  }

  lemma ExampleStyleRules(body: Rule, unused: Rule, spin: Rule, spinner: Rule)
    requires body.Style? && unused.Style? && spin.Keyframes? && spinner.Style?
    ensures StyleRules([body, unused, spin, spinner]) == [body, unused, spinner]
  {
    StyleRulesSnoc([], body);
    assert [] + [body] == [body];
    StyleRulesSnoc([body], unused);
    assert [body] + [unused] == [body, unused];
    StyleRulesSnoc([body, unused], spin);
    assert [body, unused] + [spin] == [body, unused, spin];
    StyleRulesSnoc([body, unused, spin], spinner);
    assert [body, unused, spin] + [spinner] == [body, unused, spin, spinner];
  }

  /** `'spin 1s'.split(/\s+/)` names `spin`. */
  lemma ExampleNames()
    ensures "spin" in AnimationNames("spin 1s")
  {
    SplitTwoWords("spin", "1s");
    assert "spin" + " " + "1s" == "spin 1s";
    TrimNoSpace("spin");
    TrimNoSpace("1s");
    var pieces := ["spin", "1s"];
    assert pieces[..1] == ["spin"] && ["spin"][..0] == [];
    assert NonEmptyTrimmed(pieces) == NonEmptyTrimmed(["spin"]) + ["1s"];
  }

  // ---------------------------------------------------------------------------
  // processStyle

  /** What `processStyle` did: nothing, removed the element because nothing was
      left, or reduced it to `sheet` (or left it whole when `pruneSource` inlined it
      completely). */
  datatype Outcome =
    | Skipped
    | Emptied(reduction: Reduction)
    | Reduced(reduction: Reduction, sheet: string, inlinedCompletely: bool)

  /** The outcome for a style element named `name` holding `text` that is not held
      back by `$$reduce`. */
  function ProcessSheet(opts: Options, svc: Services, d: Document, name: string, text: string): (o: Outcome)
  {
    if text == "" then Skipped
    else
      var ast := svc.parse(text);
      var pruning := Truthy(opts.pruneSource);
      assert Reduce(opts, d, ast, if pruning then Some(ast) else None).Ok? by {
        ReduceSucceeds(opts, d, ast, pruning);
      }
      var red := Reduce(opts, d, ast, if pruning then Some(ast) else None).value;
      var sheet := Trim(svc.serialize(red.critical));
      if Trim(sheet) == "" then Emptied(red)
      else Reduced(red, sheet, pruning && svc.pruneSource(name, text, svc.serialize(red.inverse.value)))
  }

  /** An empty style is skipped; otherwise the outcome is the reduction of its parse,
      and a reduced sheet is non-empty with no white space at either end. Only
      `pruneSource` can make a sheet count as inlined completely. */
  lemma ProcessSheetOutcome(opts: Options, svc: Services, d: Document, name: string, text: string)
    ensures ProcessSheet(opts, svc, d, name, text).Skipped? <==> text == ""
    ensures var o := ProcessSheet(opts, svc, d, name, text);
            o.Reduced? ==> o.sheet != [] && !IsJsSpace(o.sheet[0]) && !IsJsSpace(o.sheet[|o.sheet| - 1])
    ensures var o := ProcessSheet(opts, svc, d, name, text);
            o.Reduced? && o.inlinedCompletely ==> Truthy(opts.pruneSource)
    ensures var o := ProcessSheet(opts, svc, d, name, text);
            !o.Skipped? ==> Reduce(opts, d, svc.parse(text), if Truthy(opts.pruneSource) then Some(svc.parse(text)) else None) == Ok(o.reduction)
  {
    var o := ProcessSheet(opts, svc, d, name, text);
    if text != "" {
      var ast := svc.parse(text);
      ReduceSucceeds(opts, d, ast, Truthy(opts.pruneSource));
      var raw := svc.serialize(o.reduction.critical);
      if o.Reduced? {
        assert o.sheet == Trim(raw);
        TrimmedEnds(raw);
      }
    }
  }

  /** Whether `pruneSource` is on changes neither the critical sheet nor whether the
      element is emptied. */
  lemma PruneSourceKeepsSheet(opts: Options, svc: Services, d: Document, name: string, text: string)
    ensures var on := ProcessSheet(opts.(pruneSource := Bool(true)), svc, d, name, text);
            var off := ProcessSheet(opts.(pruneSource := Bool(false)), svc, d, name, text);
            on.Skipped? == off.Skipped? && on.Emptied? == off.Emptied? &&
            (on.Reduced? ==> on.sheet == off.sheet && !off.inlinedCompletely)
  {
    if text != "" {
      var ast := svc.parse(text);
      PruneSourceKeepsCritical(opts.(pruneSource := Bool(true)), d, ast);
      ReduceSameParse(opts.(pruneSource := Bool(true)), d, ast, false);
      ReduceSameParse(opts.(pruneSource := Bool(false)), d, ast, false);
    }
  }

  /** `processStyle`: a style held back by `$$reduce === false` or empty is left
      alone; otherwise the two passes run, the font preload links go into `<head>`,
      an element with nothing left is removed, and the element's text becomes the
      critical sheet unless `pruneSource` inlined it completely. */
  method ProcessStyle(opts: Options, svc: Services, d: Document, style: StyleElement, head: Head)
    returns (outcome: Outcome)
    modifies style, head
    ensures outcome == if old(style.reduce) == Some(false) then Skipped
                       else ProcessSheet(opts, svc, d, old(style.name), old(style.textContent))
    ensures head.preloads == old(head.preloads) + (if outcome.Skipped? then [] else outcome.reduction.preloads.hrefs)
    ensures style.textContent == if outcome.Reduced? && !outcome.inlinedCompletely then outcome.sheet
                                 else old(style.textContent)
    ensures style.attached == (old(style.attached) && !outcome.Emptied?)
    ensures style.reduce == old(style.reduce) && style.name == old(style.name)
  {
    if style.reduce == Some(false) {
      return Skipped;
    }
    var keyframesMode := KeyframesMode(opts.keyframes);
    var sheet := style.textContent;
    var before := sheet;
    if sheet == "" {
      return Skipped;
    }
    var ast := svc.parse(sheet);
    var astInverse := if Truthy(opts.pruneSource) then Some(svc.parse(sheet)) else None;

    var usage, marked := WalkStyleRules(ast, Unused, FirstPassIterator(d));

    var env := Env(keyframesMode,
                   ShouldPreloadFonts(opts.fonts, opts.preloadFonts),
                   ShouldInlineFonts(opts.fonts, opts.inlineFonts),
                   usage.criticalFonts,
                   usage.criticalKeyframeNames);
    var split := WalkStyleRulesWithReverseMirror(marked, astInverse, NoPreloads, SecondPassIterator(env));
    ReduceSameParse(opts, d, ast, Truthy(opts.pruneSource));
    var reduction := Reduction(usage, split.value.state, split.value.rules, split.value.mirrorRules);
    head.preloads := head.preloads + reduction.preloads.hrefs;

    sheet := Trim(svc.serialize(reduction.critical));
    if Trim(sheet) == "" {
      if style.attached {
        style.attached := false;
      }
      return Emptied(reduction);
    }

    var styleInlinedCompletely := false;
    if Truthy(opts.pruneSource) {
      var sheetInverse := svc.serialize(reduction.inverse.value);
      styleInlinedCompletely := svc.pruneSource(style.name, before, sheetInverse);
    }
    if !styleInlinedCompletely {
      style.textContent := sheet;
    }
    return Reduced(reduction, sheet, styleInlinedCompletely);
  }
}
