/** The generic rule walkers and the "mark now, apply later" protocol.

    An iterator is called once per rule, children before their container, and answers
    with a `Verdict`: the source's iterators return `false`, `true` or nothing at all,
    and a rule stays in its list unless the answer is strictly `false`. Iterators of
    the source close over mutable variables (the font string, the keyframe names, the
    preloaded fonts); here that variable state is threaded through the walk as a value
    of type `S`. */
module CssWalk {
  import opened Wrappers
  import opened CssTree
  import opened Partition

  datatype Verdict = Rejected | Accepted | NoAnswer

  /** `iterator(rule) !== false` */
  predicate Keeps(v: Verdict) {
    v != Rejected
  }

  /** What one iterator call leaves behind: the closed-over state, the rule object
      (iterators write flags and selectors onto it), the mirror rule `_other`, and
      the answer. */
  datatype Step<S> = Step(state: S, rule: Rule, other: Option<Rule>, verdict: Verdict)

  type Iterator<!S> = (S, Rule, Option<Rule>) -> Step<S>

  /** One level of a walk: the state after it, the rules left in the list, and the
      rules filtered out of it, both in their original order. */
  datatype Walked<S> = Walked(state: S, kept: seq<Rule>, rejected: seq<Rule>)

  /** The mirrored walk throws a `TypeError` when the second tree does not line up with
      the first: a container at an index past the end of the mirror list, or a mirror
      rule without a `rules` list opposite a non-empty container. */
  datatype Result<T> = Ok(value: T) | MismatchedMirror

  function Visit<S>(w: Walked<S>, step: Step<S>): (w': Walked<S>)
    ensures |w'.kept| + |w'.rejected| == |w.kept| + |w.rejected| + 1
    ensures w'.state == step.state
  {
    if Keeps(step.verdict) then Walked(step.state, w.kept + [step.rule], w.rejected)
    else Walked(step.state, w.kept, w.rejected + [step.rule])
  }

  /** `walkStyleRules`: each list is filtered by the iterator's answer, a container's
      own list is walked (and so already filtered) before the iterator sees the
      container, and `_other` is cleared on every rule. */
  function Walk<S>(rules: seq<Rule>, s: S, it: Iterator<S>): (w: Walked<S>)
    ensures |w.kept| + |w.rejected| == |rules|
    decreases rules
  {
    if rules == [] then Walked(s, [], [])
    else
      var w := Walk(rules[..|rules| - 1], s, it);
      var r := rules[|rules| - 1];
      if r.Container? then
        var c := Walk(r.rules, w.state, it);
        Visit(w, it(c.state, r.(rules := c.kept), None))
      else
        Visit(w, it(w.state, r, None))
  }

  /** The `rules` list of a mirror rule, when it has one. */
  function MirrorRules(r2: Rule): Option<seq<Rule>> {
    if r2.Container? then Some(r2.rules) else None
  }

  /** A mirror rule after its `rules` list has been reassigned. Only containers carry
      the list in this model; the mirror rule is never read through that list again. */
  function WithRules(r2: Rule, rules: seq<Rule>): Rule {
    if r2.Container? then r2.(rules := rules) else r2
  }

  /** `walkStyleRulesWithReverseMirror` below the top (the mirror is present): the rule
      at index `i` is paired with `mirror[i]`; the rules the iterator accepts stay in
      the list and the others replace the mirror's list. */
  function WalkPaired<S>(rules: seq<Rule>, mirror: Option<seq<Rule>>, s: S, it: Iterator<S>): (res: Result<Walked<S>>)
    ensures res.Ok? ==> |res.value.kept| + |res.value.rejected| == |rules|
    decreases rules
  {
    if rules == [] then Ok(Walked(s, [], []))
    else
      var n := |rules| - 1;
      match WalkPaired(rules[..n], mirror, s, it)
      case MismatchedMirror => MismatchedMirror
      case Ok(w) =>
        if mirror.None? then MismatchedMirror
        else
          var r := rules[n];
          var r2 := if n < |mirror.value| then Some(mirror.value[n]) else None;
          if r.Container? then
            if r2.None? then MismatchedMirror
            else
              match WalkPaired(r.rules, MirrorRules(r2.value), w.state, it)
              case MismatchedMirror => MismatchedMirror
              case Ok(c) => Ok(Visit(w, it(c.state, r.(rules := c.kept), Some(WithRules(r2.value, c.rejected)))))
          else
            Ok(Visit(w, it(w.state, r, r2)))
  }

  /** The outcome of a top-level walk: the state, the new `rules` of the stylesheet, and
      the new `rules` of the mirror stylesheet when there is one. */
  datatype Split<S> = Split(state: S, rules: seq<Rule>, mirrorRules: Option<seq<Rule>>)

  /** `walkStyleRulesWithReverseMirror(ast, astInverse, iterator)`; a `null` mirror
      (`None`) falls back to `walkStyleRules`. */
  function WalkWithReverseMirror<S>(rules: seq<Rule>, mirror: Option<seq<Rule>>, s: S, it: Iterator<S>): (res: Result<Split<S>>)
    ensures mirror.None? ==> res == Ok(Split(Walk(rules, s, it).state, Walk(rules, s, it).kept, None))
    ensures mirror.Some? && res.Ok? ==> res.value.mirrorRules.Some?
  {
    if mirror.None? then
      var w := Walk(rules, s, it);
      Ok(Split(w.state, w.kept, None))
    else
      match WalkPaired(rules, mirror, s, it)
      case MismatchedMirror => MismatchedMirror
      case Ok(w) => Ok(Split(w.state, w.kept, Some(w.rejected)))
  }

  /** The mirror lines up with the rules well enough for the paired walk not to throw. */
  predicate Compatible(rules: seq<Rule>, mirror: Option<seq<Rule>>)
    decreases rules
  {
    (rules != [] ==> mirror.Some?) &&
    forall i :: 0 <= i < |rules| && rules[i].Container? ==>
      i < |mirror.value| && Compatible(rules[i].rules, MirrorRules(mirror.value[i]))
  }

  /** `walkStyleRules`, as a loop over the list with a recursive call per container. */
  method WalkStyleRules<S>(rules: seq<Rule>, s: S, it: Iterator<S>) returns (state: S, kept: seq<Rule>)
    ensures state == Walk(rules, s, it).state
    ensures kept == Walk(rules, s, it).kept
    decreases rules
  {
    state, kept := s, [];
    ghost var rejected: seq<Rule> := [];
    var i := 0;
    while i < |rules|
      invariant 0 <= i <= |rules|
      invariant Walk(rules[..i], s, it) == Walked(state, kept, rejected)
    {
      assert rules[..i + 1][..i] == rules[..i];
      var rule := rules[i];
      if rule.Container? {
        var children;
        state, children := WalkStyleRules(rule.rules, state, it);
        rule := rule.(rules := children);
      }
      var step := it(state, rule, None);
      state := step.state;
      if Keeps(step.verdict) {
        kept := kept + [step.rule];
      } else {
        rejected := rejected + [step.rule];
      }
      i := i + 1;
    }
    assert rules[..|rules|] == rules;
  }

  /** The recursive part of `walkStyleRulesWithReverseMirror`: the `splitFilter` loop
      over the list, whose predicate walks a container's pair of lists first. */
  method WalkMirrored<S>(rules: seq<Rule>, mirror: Option<seq<Rule>>, s: S, it: Iterator<S>) returns (res: Result<Walked<S>>)
    ensures res == WalkPaired(rules, mirror, s, it)
    decreases rules
  {
    var state, aOut, bOut := s, [], [];
    var index := 0;
    while index < |rules|
      invariant 0 <= index <= |rules|
      invariant WalkPaired(rules[..index], mirror, s, it) == Ok(Walked(state, aOut, bOut))
    {
      PrefixStep(rules, index);
      ghost var before := Walked(state, aOut, bOut);
      if mirror.None? {
        PairedThrows(rules, mirror, s, it, index, before);
        return MismatchedMirror;
      }
      var rule := rules[index];
      var rule2 := if index < |mirror.value| then Some(mirror.value[index]) else None;
      if rule.Container? {
        if rule2.None? {
          PairedThrows(rules, mirror, s, it, index, before);
          return MismatchedMirror;
        }
        var inner := WalkMirrored(rule.rules, MirrorRules(rule2.value), state, it);
        if inner.MismatchedMirror? {
          PairedThrows(rules, mirror, s, it, index, before);
          return MismatchedMirror;
        }
        PairedContainer(rules, mirror, s, it, index, before, inner.value);
        state := inner.value.state;
        rule2 := Some(WithRules(rule2.value, inner.value.rejected));
        rule := rule.(rules := inner.value.kept);
      } else {
        PairedLeaf(rules, mirror, s, it, index, before);
      }
      var step := it(state, rule, rule2);
      state := step.state;
      if Keeps(step.verdict) {
        aOut := aOut + [step.rule];
      } else {
        bOut := bOut + [step.rule];
      }
      assert Walked(state, aOut, bOut) == Visit(before, step);
      index := index + 1;
    }
    assert rules[..|rules|] == rules;
    return Ok(Walked(state, aOut, bOut));
  }

  /** One more rule that is not a container, with the mirror present. */
  lemma PairedLeaf<S>(rules: seq<Rule>, mirror: Option<seq<Rule>>, s: S, it: Iterator<S>, n: nat, w: Walked<S>)
    requires n < |rules| && mirror.Some? && !rules[n].Container?
    requires WalkPaired(rules[..n], mirror, s, it) == Ok(w)
    ensures WalkPaired(rules[..n + 1], mirror, s, it) ==
            Ok(Visit(w, it(w.state, rules[n], if n < |mirror.value| then Some(mirror.value[n]) else None)))
  {
    PrefixStep(rules, n);
  }

  /** One more container, whose pair of lists walks without throwing. */
  lemma PairedContainer<S>(rules: seq<Rule>, mirror: Option<seq<Rule>>, s: S, it: Iterator<S>, n: nat, w: Walked<S>, c: Walked<S>)
    requires n < |rules| && mirror.Some? && rules[n].Container? && n < |mirror.value|
    requires WalkPaired(rules[..n], mirror, s, it) == Ok(w)
    requires WalkPaired(rules[n].rules, MirrorRules(mirror.value[n]), w.state, it) == Ok(c)
    ensures WalkPaired(rules[..n + 1], mirror, s, it) ==
            Ok(Visit(w, it(c.state, rules[n].(rules := c.kept), Some(WithRules(mirror.value[n], c.rejected)))))
  {
    PrefixStep(rules, n);
  }

  /** The walk throws at the rule after a prefix that walked: the mirror is absent, or
      the rule is a container with no partner or whose pair of lists throws. */
  lemma PairedThrows<S>(rules: seq<Rule>, mirror: Option<seq<Rule>>, s: S, it: Iterator<S>, n: nat, w: Walked<S>)
    requires n < |rules|
    requires WalkPaired(rules[..n], mirror, s, it) == Ok(w)
    requires mirror.None? ||
             (rules[n].Container? &&
              (n >= |mirror.value| || WalkPaired(rules[n].rules, MirrorRules(mirror.value[n]), w.state, it).MismatchedMirror?))
    ensures WalkPaired(rules, mirror, s, it).MismatchedMirror?
  {
    PrefixStep(rules, n);
    PairedErrorPersists(rules, mirror, s, it, n + 1);
  }

  /** Once the walk of a prefix has thrown, the walk of the whole list throws. */
  lemma {:induction false} PairedErrorPersists<S>(rules: seq<Rule>, mirror: Option<seq<Rule>>, s: S, it: Iterator<S>, k: nat)
    requires k <= |rules|
    requires WalkPaired(rules[..k], mirror, s, it).MismatchedMirror?
    ensures WalkPaired(rules, mirror, s, it).MismatchedMirror?
    decreases |rules|
  {
    if k == |rules| {
      assert rules[..k] == rules;
    } else {
      var n := |rules| - 1;
      assert rules[..n][..k] == rules[..k];
      PairedErrorPersists(rules[..n], mirror, s, it, k);
    }
  }

  /** `walkStyleRulesWithReverseMirror(node, node2, iterator)` at the stylesheet. */
  method WalkStyleRulesWithReverseMirror<S>(rules: seq<Rule>, mirror: Option<seq<Rule>>, s: S, it: Iterator<S>)
    returns (res: Result<Split<S>>)
    ensures res == WalkWithReverseMirror(rules, mirror, s, it)
  {
    if mirror.None? {
      var state, kept := WalkStyleRules(rules, s, it);
      return Ok(Split(state, kept, None));
    }
    var w := WalkMirrored(rules, mirror, s, it);
    if w.MismatchedMirror? {
      return MismatchedMirror;
    }
    return Ok(Split(w.value.state, w.value.kept, Some(w.value.rejected)));
  }

  // ---------------------------------------------------------------------------
  // filterSelectors

  /** `rule.filterSelectors(predicate)`: with a mirror rule the passing selectors stay and
      the failing ones become the mirror's selectors; without one the failing
      selectors are dropped. */
  method FilterSelectors(selectors: seq<string>, other: Option<seq<string>>, pred: string -> bool)
    returns (kept: seq<string>, otherSelectors: Option<seq<string>>)
    ensures kept == Filter(selectors, pred)
    ensures other.None? ==> otherSelectors == other
    ensures other.Some? ==> otherSelectors == Some(Filter(selectors, Not(pred)))
  {
    if other.Some? {
      var a, b := SplitFilter(selectors, other.value, ByElement(pred));
      SplitFilterByElement(selectors, other.value, pred);
      return a, Some(b);
    }
    return Filter(selectors, pred), None;
  }

  // ---------------------------------------------------------------------------
  // markOnly / applyMarkedSelectors

  /** What a predicate wrapped by `markOnly` leaves behind: the state, the rule's
      `selectors` after the call (the first-pass predicate filters them), and the
      answer. */
  datatype Judged<S> = Judged(state: S, selectors: seq<string>, verdict: Verdict)

  type Predicate<!S> = (S, Rule) -> Judged<S>

  /** `$$markedSelectors = rule.selectors` on a mirror rule: only style rules have
      selectors, so on any other rule the assignment stores nothing. */
  function MarkOther(o: Rule): Rule {
    if o.Style? then o.(marked := Some(o.selectors)) else o
  }

  function SetRemove(r: Rule, remove: bool): (r': Rule)
    ensures r'.remove == remove
    ensures Erase(r') == Erase(r)
  {
    match r
    case Style(sels, decls, _, marked) => Style(sels, decls, remove, marked)
    case Container(kind, rules, _) => Container(kind, rules, remove)
    case Keyframes(name, frames, _) => Keyframes(name, frames, remove)
    case FontFace(decls, _) => FontFace(decls, remove)
    case Other(kind, _) => Other(kind, remove)
  }

  /** `markOnly(predicate)` applied to one rule: `$$remove` is set when the predicate
      answers `false`, `$$markedSelectors` records the selectors the predicate left,
      the selectors themselves are put back, and the call answers nothing. */
  function MarkOnly<S>(pred: Predicate<S>, s: S, r: Rule, other: Option<Rule>): (step: Step<S>)
    ensures step.verdict == NoAnswer
    ensures step.state == pred(s, r).state
    ensures step.rule.remove <==> r.remove || pred(s, r).verdict == Rejected
    ensures Erase(step.rule) == Erase(r)
    ensures step.rule.Style? ==> step.rule.marked == Some(pred(s, r).selectors)
    ensures !r.Style? ==> step.rule == SetRemove(r, step.rule.remove)
    ensures other.None? ==> step.other.None?
  {
    var j := pred(s, r);
    var marked := SetRemove(r, r.remove || j.verdict == Rejected);
    var marked' := if marked.Style? then marked.(marked := Some(j.selectors)) else marked;
    var other' := if other.Some? then Some(MarkOther(other.value)) else None;
    Step(j.state, marked', other', NoAnswer)
  }

  /** The iterator `walkStyleRules` receives in the first pass. */
  function MarkOnlyIterator<S>(pred: Predicate<S>): Iterator<S> {
    (s: S, r: Rule, o: Option<Rule>) => MarkOnly(pred, s, r, o)
  }

  /** `applyMarkedSelectors` on one rule: the recorded selectors replace the current
      ones when present (an empty list is present). */
  function ApplyMarked(r: Rule): (r': Rule)
    ensures r.Style? && r.marked.Some? ==> r' == r.(selectors := r.marked.value)
    ensures !(r.Style? && r.marked.Some?) ==> r' == r
  {
    if r.Style? && r.marked.Some? then r.(selectors := r.marked.value) else r
  }

  /** `applyMarkedSelectors(rule)`, which follows the `_other` link once: a mirror rule
      has no `_other` of its own. */
  function ApplyMarkedSelectors(r: Rule, other: Option<Rule>): (res: (Rule, Option<Rule>))
    ensures res.0 == ApplyMarked(r)
    ensures other.None? ==> res.1.None?
    ensures other.Some? ==> res.1 == Some(ApplyMarked(other.value))
  {
    (ApplyMarked(r), if other.Some? then Some(ApplyMarked(other.value)) else None)
  }

  /** Applying the marks twice is applying them once. */
  lemma ApplyMarkedSelectorsIdempotent(r: Rule, other: Option<Rule>)
    ensures ApplyMarkedSelectors(ApplyMarkedSelectors(r, other).0, ApplyMarkedSelectors(r, other).1)
         == ApplyMarkedSelectors(r, other)
  {
  }

  /** Mark now, apply later: a style rule comes out of `markOnly` with its selectors
      unchanged, and applying the marks afterwards gives it exactly the selectors the
      predicate left. */
  lemma MarkThenApply<S>(pred: Predicate<S>, s: S, r: Rule, other: Option<Rule>)
    requires r.Style?
    ensures MarkOnly(pred, s, r, other).rule.selectors == r.selectors
    ensures ApplyMarked(MarkOnly(pred, s, r, other).rule).selectors == pred(s, r).selectors
  {
  }

  // ---------------------------------------------------------------------------
  // Properties of the walks

  /** The iterator calls of a walk in the order they happen: children, then their
      container, as (rule as the iterator sees it) entries. */
  function PostOrder(rules: seq<Rule>): (log: seq<Rule>)
    decreases rules
  {
    if rules == [] then []
    else
      var r := rules[|rules| - 1];
      PostOrder(rules[..|rules| - 1]) + (if r.Container? then PostOrder(r.rules) else []) + [r]
  }

  /** An iterator that records every rule it is shown and keeps it unchanged. */
  function Recorder(): Iterator<seq<Rule>> {
    (log: seq<Rule>, r: Rule, o: Option<Rule>) => Step(log + [r], r, o, NoAnswer)
  }

  /** Children are visited, and their list rebuilt, before the iterator sees their
      container: a walk with the recording iterator leaves the tree as it was and
      logs the rules in post-order. */
  lemma {:induction false} WalkVisitsChildrenFirst(rules: seq<Rule>, log: seq<Rule>)
    ensures Walk(rules, log, Recorder()).kept == rules
    ensures Walk(rules, log, Recorder()).rejected == []
    ensures Walk(rules, log, Recorder()).state == log + PostOrder(rules)
    decreases rules
  {
    if rules != [] {
      var n := |rules| - 1;
      var init, r := rules[..n], rules[n];
      WalkVisitsChildrenFirst(init, log);
      var w := Walk(init, log, Recorder());
      var kids := if r.Container? then PostOrder(r.rules) else [];
      var step;
      if r.Container? {
        WalkVisitsChildrenFirst(r.rules, w.state);
        var c := Walk(r.rules, w.state, Recorder());
        assert r.(rules := c.kept) == r;
        step := Recorder()(c.state, r, None);
        assert step == Step(w.state + kids + [r], r, None, NoAnswer);
      } else {
        step := Recorder()(w.state, r, None);
        assert w.state + kids == w.state;
        assert step == Step(w.state + kids + [r], r, None, NoAnswer);
      }
      assert Walk(rules, log, Recorder()) == Visit(w, step);
      assert PostOrder(rules) == PostOrder(init) + kids + [r];
      DropLastSnoc(rules);
      ConcatAssociates(log, PostOrder(init), kids);
      ConcatAssociates(log, PostOrder(init) + kids, [r]);
    }
  }

  lemma EraseAllSnoc(a: seq<Rule>, x: Rule)
    ensures EraseAll(a + [x]) == EraseAll(a) + [Erase(x)]
  {
    assert (a + [x])[..|a|] == a;
  }

  /** A rule is kept iff the iterator's answer is not `false`: an iterator that
      answers nothing rejects nothing. */
  lemma {:induction false} NoAnswerKeepsAll<S>(rules: seq<Rule>, s: S, it: Iterator<S>)
    requires forall s: S, r: Rule, o: Option<Rule> :: it(s, r, o).verdict != Rejected
    ensures Walk(rules, s, it).rejected == []
    ensures |Walk(rules, s, it).kept| == |rules|
    decreases rules
  {
    if rules != [] {
      NoAnswerKeepsAll(rules[..|rules| - 1], s, it);
    }
  }

  /** The iterator call on one rule of a list, with `s` the state the calls before it
      left: a container's own list is walked first, and the iterator sees the
      container with that list filtered. */
  function Enter<S>(s: S, r: Rule, it: Iterator<S>): Step<S> {
    if r.Container? then
      var c := Walk(r.rules, s, it);
      it(c.state, r.(rules := c.kept), None)
    else
      it(s, r, None)
  }

  /** The state after a trace of calls, starting from `s`. */
  function StateAfter<S>(steps: seq<Step<S>>, s: S): S {
    if steps == [] then s else steps[|steps| - 1].state
  }

  /** The iterator calls on the rules of one list, in order, each started from the
      state the previous call left. */
  function Steps<S>(rules: seq<Rule>, s: S, it: Iterator<S>): (steps: seq<Step<S>>)
    ensures |steps| == |rules|
  {
    if rules == [] then []
    else
      var prev := Steps(rules[..|rules| - 1], s, it);
      prev + [Enter(StateAfter(prev, s), rules[|rules| - 1], it)]
  }

  /** The rules of the calls whose answer is not `false`, in order. */
  function KeptRules<S>(steps: seq<Step<S>>): seq<Rule> {
    if steps == [] then []
    else
      var last := steps[|steps| - 1];
      KeptRules(steps[..|steps| - 1]) + (if Keeps(last.verdict) then [last.rule] else [])
  }

  /** The rules of the calls whose answer is `false`, in order. */
  function RejectedRules<S>(steps: seq<Step<S>>): seq<Rule> {
    if steps == [] then []
    else
      var last := steps[|steps| - 1];
      RejectedRules(steps[..|steps| - 1]) + (if Keeps(last.verdict) then [] else [last.rule])
  }

  /** For any iterator, on any tree: the walk of a list ends in the state of its last
      iterator call, keeps exactly the rules (as the iterator left them) whose answer
      is not `false`, and takes out exactly those whose answer is `false`, both in
      order. */
  lemma {:induction false} WalkFiltersByVerdict<S>(rules: seq<Rule>, s: S, it: Iterator<S>)
    ensures Walk(rules, s, it).state == StateAfter(Steps(rules, s, it), s)
    ensures Walk(rules, s, it).kept == KeptRules(Steps(rules, s, it))
    ensures Walk(rules, s, it).rejected == RejectedRules(Steps(rules, s, it))
    decreases rules
  {
    if rules != [] {
      var n := |rules| - 1;
      var init, r := rules[..n], rules[n];
      WalkFiltersByVerdict(init, s, it);
      var prev := Steps(init, s, it);
      var w := Walk(init, s, it);
      var step := Enter(w.state, r, it);
      assert Walk(rules, s, it) == Visit(w, step);
      var steps := prev + [step];
      assert Steps(rules, s, it) == steps;
      assert steps[..|steps| - 1] == prev;
    }
  }

  /** Under `markOnly` the walk keeps every rule, keeps the shape of the tree, and leaves
      every selector list as it was: only the two flags change. */
  lemma {:induction false} MarkOnlyWalkShape<S>(rules: seq<Rule>, s: S, pred: Predicate<S>)
    ensures Walk(rules, s, MarkOnlyIterator(pred)).rejected == []
    ensures EraseAll(Walk(rules, s, MarkOnlyIterator(pred)).kept) == EraseAll(rules)
    decreases rules
  {
    var it := MarkOnlyIterator(pred);
    if rules != [] {
      var n := |rules| - 1;
      var r := rules[n];
      MarkOnlyWalkShape(rules[..n], s, pred);
      var w := Walk(rules[..n], s, it);
      var step;
      if r.Container? {
        var c := Walk(r.rules, w.state, it);
        MarkOnlyWalkShape(r.rules, w.state, pred);
        step := it(c.state, r.(rules := c.kept), None);
        assert Erase(step.rule) == Erase(r) by {
          assert Erase(r.(rules := c.kept)) == Erase(r);
        }
      } else {
        step := it(w.state, r, None);
      }
      assert Walk(rules, s, it) == Walked(step.state, w.kept + [step.rule], w.rejected);
      EraseAllSnoc(w.kept, step.rule);
      assert EraseAll(rules) == EraseAll(rules[..n]) + [Erase(r)];
    }
  }

  /** An iterator whose state, rule and answer do not depend on the mirror rule. */
  ghost predicate IgnoresMirror<S(!new)>(it: Iterator<S>) {
    forall s: S, r: Rule, o: Option<Rule> ::
      it(s, r, o).state == it(s, r, None).state &&
      it(s, r, o).rule == it(s, r, None).rule &&
      it(s, r, o).verdict == it(s, r, None).verdict
  }

  /** With a compatible mirror and an iterator that does not look at it, the paired
      walk succeeds and keeps the same rules, in the same state, as the plain walk; the
      mirror's list becomes the rules the plain walk drops. */
  lemma {:induction false} PairedIsPlain<S(!new)>(rules: seq<Rule>, mirror: Option<seq<Rule>>, s: S, it: Iterator<S>)
    requires IgnoresMirror(it)
    requires Compatible(rules, mirror)
    ensures WalkPaired(rules, mirror, s, it) == Ok(Walk(rules, s, it))
    decreases rules
  {
    if rules != [] {
      var n := |rules| - 1;
      var r := rules[n];
      CompatiblePrefix(rules, mirror, n);
      PairedIsPlain(rules[..n], mirror, s, it);
      var w := Walk(rules[..n], s, it);
      if r.Container? {
        PairedIsPlain(r.rules, MirrorRules(mirror.value[n]), w.state, it);
      }
    }
  }

  lemma CompatiblePrefix(rules: seq<Rule>, mirror: Option<seq<Rule>>, n: nat)
    requires n <= |rules|
    requires Compatible(rules, mirror)
    ensures Compatible(rules[..n], mirror)
  {
    assert forall i :: 0 <= i < n ==> rules[..n][i] == rules[i];
  }

  /** The paired walk succeeds exactly when the mirror is compatible, whatever the
      iterator does. */
  lemma {:induction false} PairedOkIffCompatible<S>(rules: seq<Rule>, mirror: Option<seq<Rule>>, s: S, it: Iterator<S>)
    ensures WalkPaired(rules, mirror, s, it).Ok? <==> Compatible(rules, mirror)
    decreases rules
  {
    if rules != [] {
      var n := |rules| - 1;
      var r := rules[n];
      PairedOkIffCompatible(rules[..n], mirror, s, it);
      var prev := WalkPaired(rules[..n], mirror, s, it);
      if prev.Ok? && mirror.Some? && r.Container? && n < |mirror.value| {
        PairedOkIffCompatible(r.rules, MirrorRules(mirror.value[n]), prev.value.state, it);
      }
      CompatibleSnoc(rules, mirror);
    }
  }

  lemma CompatibleSnoc(rules: seq<Rule>, mirror: Option<seq<Rule>>)
    requires rules != []
    ensures Compatible(rules, mirror) <==>
      Compatible(rules[..|rules| - 1], mirror) && mirror.Some? &&
      (rules[|rules| - 1].Container? ==>
        |rules| - 1 < |mirror.value| && Compatible(rules[|rules| - 1].rules, MirrorRules(mirror.value[|rules| - 1])))
  {
    var n := |rules| - 1;
    assert forall i :: 0 <= i < n ==> rules[..n][i] == rules[i];
  }

  /** Two trees of the same shape (a stylesheet and a second parse of the same text,
      whatever flags either carries) are compatible mirrors of each other. */
  lemma {:induction false} SameShapeCompatible(rules: seq<Rule>, mirror: seq<Rule>)
    requires EraseAll(rules) == EraseAll(mirror)
    ensures Compatible(rules, Some(mirror))
    decreases rules
  {
    forall i | 0 <= i < |rules| && rules[i].Container?
      ensures i < |mirror| && Compatible(rules[i].rules, MirrorRules(mirror[i]))
    {
      assert Erase(rules[i]) == Erase(mirror[i]);
      assert EraseAll(rules[i].rules) == EraseAll(mirror[i].rules);
      SameShapeCompatible(rules[i].rules, mirror[i].rules);
    }
  }
}
