/** Selector matching in the first pass (`src/index.js:480-494`): each selector is
    normalised, an empty result is unmatched without a query, and a query that throws
    is recorded and counts as unmatched. */
module Selectors {
  import opened Partition
  import opened JsText

  /** `document.querySelector(sel)`: an element, `null`, or an exception. */
  datatype QueryResult = Found | NotFound | Threw(message: string)

  /** The document the selectors are matched against, and the pseudo-class and
      pseudo-element stripping `sel.replace(/(?:>\s*)?::?[a-z-]+\s*(\{|$)/gi, '$1')`;
      both are given, not modelled. */
  datatype Document = Document(query: string -> QueryResult, stripPseudo: string -> string)

  /** The selector as it is queried: `:root` as it is, anything else stripped and trimmed. */
  function Normalize(d: Document, sel: string): (n: string)
    ensures sel == ":root" ==> n == sel
  {
    if sel == ":root" then sel else Trim(d.stripPseudo(sel))
  }

  /** The answer of the selector predicate, and the `failedSelectors` entry it pushes. */
  datatype Outcome = Outcome(matched: bool, failure: seq<string>)

  function SelectorOutcome(d: Document, sel: string): (o: Outcome)
    ensures |o.failure| <= 1
    ensures o.failure != [] ==> !o.matched
  {
    var n := Normalize(d, sel);
    if n == "" then Outcome(false, [])
    else
      match d.query(n)
      case Found => Outcome(true, [])
      case NotFound => Outcome(false, [])
      case Threw(message) => Outcome(false, [n + " -> " + message])
  }

  predicate Matches(d: Document, sel: string) {
    SelectorOutcome(d, sel).matched
  }

  /** The selector predicate handed to `filterSelectors`. */
  function Matcher(d: Document): string -> bool {
    (sel: string) => Matches(d, sel)
  }

  /** The entries pushed onto `failedSelectors` while a selector list is filtered. */
  function Failures(d: Document, sels: seq<string>): (f: seq<string>)
    ensures |f| <= |sels|
  {
    if sels == [] then []
    else Failures(d, sels[..|sels| - 1]) + SelectorOutcome(d, sels[|sels| - 1]).failure
  }

  /** The filter loop of the first pass over one rule's selectors. */
  method MatchSelectors(d: Document, sels: seq<string>) returns (kept: seq<string>, failures: seq<string>)
    ensures kept == Filter(sels, Matcher(d))
    ensures failures == Failures(d, sels)
  {
    kept, failures := [], [];
    var i := 0;
    while i < |sels|
      invariant 0 <= i <= |sels|
      invariant kept == Filter(sels[..i], Matcher(d))
      invariant failures == Failures(d, sels[..i])
    {
      assert sels[..i + 1][..i] == sels[..i];
      var sel := sels[i];
      if sel != ":root" {
        sel := Trim(d.stripPseudo(sel));
      }
      var matched := false;
      if sel != "" {
        var answer := d.query(sel);
        match answer
        case Found => matched := true;
        case NotFound =>
        case Threw(message) => failures := failures + [sel + " -> " + message];
      }
      if matched {
        kept := kept + [sels[i]];
      }
      i := i + 1;
    }
    assert sels[..|sels|] == sels;
  }

  /** `:root` is queried as it is. */
  lemma RootIsNotStripped(d: Document)
    ensures Normalize(d, ":root") == ":root"
    ensures SelectorOutcome(d, ":root").matched <==> d.query(":root") == Found
  {
  }

  /** A selector that is empty once stripped is unmatched, records nothing, and does
      not reach the document: any two documents with the same stripping agree on it. */
  lemma EmptySelectorIsNotQueried(d: Document, d2: Document, sel: string)
    requires Normalize(d, sel) == ""
    requires d2.stripPseudo == d.stripPseudo
    ensures !Matches(d, sel) && SelectorOutcome(d, sel).failure == []
    ensures SelectorOutcome(d2, sel) == SelectorOutcome(d, sel)
  {
  }

  /** A query that throws makes the selector unmatched and records exactly one entry:
      the normalised selector, ` -> ` and the message. */
  lemma ThrowingSelector(d: Document, sel: string, message: string)
    requires Normalize(d, sel) != ""
    requires d.query(Normalize(d, sel)) == Threw(message)
    ensures !Matches(d, sel)
    ensures SelectorOutcome(d, sel).failure == [Normalize(d, sel) + " -> " + message]
  {
  }

  /** A selector that throws does not stop the others: the first pass over a list
      made of two parts is the pass over the first part followed by the pass over the
      second, for the selectors kept and for the failures recorded. */
  lemma FailuresAppend(d: Document, a: seq<string>, b: seq<string>)
    ensures Failures(d, a + b) == Failures(d, a) + Failures(d, b)
    ensures Filter(a + b, Matcher(d)) == Filter(a, Matcher(d)) + Filter(b, Matcher(d))
  {
    FailuresAppendRec(d, a, b);
    FilterAppend(a, b, Matcher(d));
  }

  lemma {:induction false} FailuresAppendRec(d: Document, a: seq<string>, b: seq<string>)
    ensures Failures(d, a + b) == Failures(d, a) + Failures(d, b)
    decreases |b|
  {
    if b == [] {
      assert a + b == a;
    } else {
      var n := |b| - 1;
      var f := SelectorOutcome(d, b[n]).failure;
      assert (a + b)[..|a + b| - 1] == a + b[..n];
      assert (a + b)[|a + b| - 1] == b[n];
      assert Failures(d, a + b) == Failures(d, a + b[..n]) + f;
      assert Failures(d, b) == Failures(d, b[..n]) + f;
      FailuresAppendRec(d, a, b[..n]);
    }
  }

  function CountThrowing(d: Document, sels: seq<string>): nat {
    if sels == [] then 0
    else
      var n := Normalize(d, sels[|sels| - 1]);
      CountThrowing(d, sels[..|sels| - 1]) + (if n != "" && d.query(n).Threw? then 1 else 0)
  }

  /** One entry per throwing selector, no more and no fewer. */
  lemma {:induction false} OneFailurePerThrow(d: Document, sels: seq<string>)
    ensures |Failures(d, sels)| == CountThrowing(d, sels)
  {
    if sels != [] {
      OneFailurePerThrow(d, sels[..|sels| - 1]);
    }
  }
}
