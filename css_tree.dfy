/** The parsed stylesheet as the walkers see it: an ordered list of rules, some of
    which (the at-rules with a nested `rules` list) contain further rules. The two
    flags the first pass writes onto rule objects, `$$remove` and
    `$$markedSelectors`, are fields of the rule values here. */
module CssTree {
  import opened Wrappers

  /** One entry of a declaration block. The parser keeps comments in the same list;
      they have no property. */
  datatype Decl = Declaration(property: string, value: string) | DeclComment(text: string)

  /** One frame of a `@keyframes` rule (`from`, `50%`, ...). Frames are carried along
      unchanged: they live in the rule's `keyframes` list, which no walker enters. */
  datatype Frame = Frame(values: seq<string>, decls: seq<Decl>)

  /** A rule of the tree.
      - `Style`: a rule of type `rule`, with its selector list; `marked` is `$$markedSelectors`.
      - `Container`: any at-rule with a nested `rules` list (`@media`, `@supports`, `@document`, `@host`).
      - `Keyframes`: a `@keyframes` rule with its name.
      - `FontFace`: a `@font-face` rule with its declarations.
      - `Other`: every other node (`@import`, `@charset`, `@page`, comments, ...).
      `remove` is `$$remove` on every kind of rule. */
  datatype Rule =
    | Style(selectors: seq<string>, decls: seq<Decl>, remove: bool, marked: Option<seq<string>>)
    | Container(kind: string, rules: seq<Rule>, remove: bool)
    | Keyframes(name: string, frames: seq<Frame>, remove: bool)
    | FontFace(decls: seq<Decl>, remove: bool)
    | Other(kind: string, remove: bool)

  /** A rule as the parser produces it: no flag set anywhere below it. */
  predicate Unmarked(r: Rule) {
    match r
    case Style(_, _, remove, marked) => !remove && marked.None?
    case Container(_, rules, remove) => !remove && AllUnmarked(rules)
    case Keyframes(_, _, remove) => !remove
    case FontFace(_, remove) => !remove
    case Other(_, remove) => !remove
  }

  predicate AllUnmarked(rules: seq<Rule>) {
    forall i :: 0 <= i < |rules| ==> Unmarked(rules[i])
  }

  /** The same tree with every flag cleared: what is left when the bookkeeping of
      the two passes is ignored. */
  function EraseAll(rules: seq<Rule>): (e: seq<Rule>)
    ensures |e| == |rules|
    ensures forall i :: 0 <= i < |rules| ==> e[i] == Erase(rules[i])
    decreases rules, 1
  {
    if rules == [] then [] else EraseAll(rules[..|rules| - 1]) + [Erase(rules[|rules| - 1])]
  }

  function Erase(r: Rule): (e: Rule)
    decreases r, 0
  {
    match r
    case Style(sels, decls, _, _) => Style(sels, decls, false, None)
    case Container(kind, rules, _) => Container(kind, EraseAll(rules), false)
    case Keyframes(name, frames, _) => Keyframes(name, frames, false)
    case FontFace(decls, _) => FontFace(decls, false)
    case Other(kind, _) => Other(kind, false)
  }

  /** The rules of a tree in document order: each rule, then the rules nested in it. */
  function Flatten(rules: seq<Rule>): (f: seq<Rule>)
    decreases rules
  {
    if rules == [] then []
    else
      var last := rules[|rules| - 1];
      Flatten(rules[..|rules| - 1]) + [last] + (if last.Container? then Flatten(last.rules) else [])
  }

  /** The style rules of a tree in document order. */
  function StyleRules(rules: seq<Rule>): (f: seq<Rule>)
    ensures forall i :: 0 <= i < |f| ==> f[i].Style?
    decreases rules
  {
    if rules == [] then []
    else
      var last := rules[|rules| - 1];
      StyleRules(rules[..|rules| - 1])
        + (if last.Style? then [last] else [])
        + (if last.Container? then StyleRules(last.rules) else [])
  }

  /** The font-face rules of a tree in document order. */
  function FontFaceRules(rules: seq<Rule>): (f: seq<Rule>)
    ensures forall i :: 0 <= i < |f| ==> f[i].FontFace?
    decreases rules
  {
    if rules == [] then []
    else
      var last := rules[|rules| - 1];
      FontFaceRules(rules[..|rules| - 1])
        + (if last.FontFace? then [last] else [])
        + (if last.Container? then FontFaceRules(last.rules) else [])
  }

  lemma {:induction false} FlattenAppend(a: seq<Rule>, b: seq<Rule>)
    ensures Flatten(a + b) == Flatten(a) + Flatten(b)
    decreases |b|
  {
    if b == [] {
      assert a + b == a;
    } else {
      var n := |b| - 1;
      assert (a + b)[..|a + b| - 1] == a + b[..n];
      assert (a + b)[|a + b| - 1] == b[n];
      FlattenAppend(a, b[..n]);
    }
  }

  /** Every top-level rule is in the flattened tree. */
  lemma {:induction false} FlattenKeepsTopLevel(rules: seq<Rule>, i: nat)
    requires i < |rules|
    ensures rules[i] in Flatten(rules)
    decreases |rules|
  {
    var n := |rules| - 1;
    if i < n {
      var init := rules[..n];
      FlattenKeepsTopLevel(init, i);
      assert init[i] == rules[i];
    }
  }

  lemma {:induction false} StyleRulesAppend(a: seq<Rule>, b: seq<Rule>)
    ensures StyleRules(a + b) == StyleRules(a) + StyleRules(b)
    decreases |b|
  {
    if b == [] {
      assert a + b == a;
    } else {
      var n := |b| - 1;
      assert (a + b)[..|a + b| - 1] == a + b[..n];
      assert (a + b)[|a + b| - 1] == b[n];
      StyleRulesAppend(a, b[..n]);
    }
  }

  lemma {:induction false} FontFaceRulesAppend(a: seq<Rule>, b: seq<Rule>)
    ensures FontFaceRules(a + b) == FontFaceRules(a) + FontFaceRules(b)
    decreases |b|
  {
    if b == [] {
      assert a + b == a;
    } else {
      var n := |b| - 1;
      assert (a + b)[..|a + b| - 1] == a + b[..n];
      assert (a + b)[|a + b| - 1] == b[n];
      FontFaceRulesAppend(a, b[..n]);
    }
  }
}
