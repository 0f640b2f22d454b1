/** `splitFilter(a, b, predicate)`: an order-preserving two-way partition of `a`.
    The predicate is called as `predicate(a[index], index, a, b)`; the second list is
    handed to it and used for nothing else. */
module Partition {

  /** The indices `i < n` of `a` whose predicate answer is `want`, in increasing order. */
  function Indices<T, B>(a: seq<T>, b: B, pred: (T, nat, seq<T>, B) -> bool, n: nat, want: bool): (ix: seq<nat>)
    requires n <= |a|
    ensures forall k :: 0 <= k < |ix| ==> ix[k] < n
  {
    if n == 0 then []
    else Indices(a, b, pred, n - 1, want) + (if pred(a[n - 1], n - 1, a, b) == want then [n - 1] else [])
  }

  /** The elements of `a` at the indices `ix`, in that order. */
  function Pick<T>(a: seq<T>, ix: seq<nat>): (r: seq<T>)
    requires forall k :: 0 <= k < |ix| ==> ix[k] < |a|
    ensures |r| == |ix|
  {
    if ix == [] then [] else Pick(a, ix[..|ix| - 1]) + [a[ix[|ix| - 1]]]
  }

  lemma PickSnoc<T>(a: seq<T>, ix: seq<nat>, j: nat)
    requires forall k :: 0 <= k < |ix| ==> ix[k] < |a|
    requires j < |a|
    ensures Pick(a, ix + [j]) == Pick(a, ix) + [a[j]]
  {
    assert (ix + [j])[..|ix|] == ix;
  }

  function Accepted<T, B>(a: seq<T>, b: B, pred: (T, nat, seq<T>, B) -> bool): seq<nat> {
    Indices(a, b, pred, |a|, true)
  }

  function Refused<T, B>(a: seq<T>, b: B, pred: (T, nat, seq<T>, B) -> bool): seq<nat> {
    Indices(a, b, pred, |a|, false)
  }

  /** The loop of `splitFilter`: each element is pushed onto `aOut` when the
      predicate accepts it and onto `bOut` otherwise. */
  method SplitFilter<T, B>(a: seq<T>, b: B, pred: (T, nat, seq<T>, B) -> bool) returns (aOut: seq<T>, bOut: seq<T>)
    ensures aOut == Pick(a, Accepted(a, b, pred))
    ensures bOut == Pick(a, Refused(a, b, pred))
  {
    aOut, bOut := [], [];
    var index := 0;
    while index < |a|
      invariant 0 <= index <= |a|
      invariant aOut == Pick(a, Indices(a, b, pred, index, true))
      invariant bOut == Pick(a, Indices(a, b, pred, index, false))
    {
      ghost var accepted, refused := Indices(a, b, pred, index, true), Indices(a, b, pred, index, false);
      if pred(a[index], index, a, b) {
        assert Indices(a, b, pred, index + 1, true) == accepted + [index];
        assert Indices(a, b, pred, index + 1, false) == refused;
        PickSnoc(a, accepted, index);
        aOut := aOut + [a[index]];
      } else {
        assert Indices(a, b, pred, index + 1, true) == accepted;
        assert Indices(a, b, pred, index + 1, false) == refused + [index];
        PickSnoc(a, refused, index);
        bOut := bOut + [a[index]];
      }
      index := index + 1;
    }
  }

  /** Every index of `a` is accepted or refused, and not both. */
  lemma {:induction false} IndicesPartition<T, B>(a: seq<T>, b: B, pred: (T, nat, seq<T>, B) -> bool, n: nat, i: nat)
    requires n <= |a| && i < n
    ensures (i in Indices(a, b, pred, n, true)) != (i in Indices(a, b, pred, n, false))
    ensures i in Indices(a, b, pred, n, pred(a[i], i, a, b))
  {
    var m := n - 1;
    if i < m {
      IndicesPartition(a, b, pred, m, i);
    }
  }

  lemma {:induction false} IndicesCount<T, B>(a: seq<T>, b: B, pred: (T, nat, seq<T>, B) -> bool, n: nat)
    requires n <= |a|
    ensures |Indices(a, b, pred, n, true)| + |Indices(a, b, pred, n, false)| == n
  {
    if n > 0 {
      IndicesCount(a, b, pred, n - 1);
    }
  }

  /** `splitFilter` loses and duplicates nothing: every element of `a` goes to exactly
      one side, the sides keep the relative order of `a`, `aOut` holds exactly the
      accepted elements, and the sizes add up. */
  lemma SplitFilterPartitions<T, B>(a: seq<T>, b: B, pred: (T, nat, seq<T>, B) -> bool)
    ensures |Pick(a, Accepted(a, b, pred))| + |Pick(a, Refused(a, b, pred))| == |a|
    ensures forall i :: 0 <= i < |a| ==> ((i in Accepted(a, b, pred)) <==> pred(a[i], i, a, b))
    ensures forall i :: 0 <= i < |a| ==> ((i in Refused(a, b, pred)) <==> !pred(a[i], i, a, b))
    ensures forall i :: 0 <= i < |a| ==> ((i in Accepted(a, b, pred)) != (i in Refused(a, b, pred)))
  {
    IndicesCount(a, b, pred, |a|);
    forall i | 0 <= i < |a|
      ensures (i in Accepted(a, b, pred)) != (i in Refused(a, b, pred))
      ensures (i in Accepted(a, b, pred)) <==> pred(a[i], i, a, b)
    {
      IndicesPartition(a, b, pred, |a|, i);
    }
  }

  /** One more element lands on exactly one side. */
  lemma PickStep<T, B>(a: seq<T>, b: B, pred: (T, nat, seq<T>, B) -> bool, n: nat, want: bool)
    requires 0 < n <= |a|
    ensures Pick(a, Indices(a, b, pred, n, want))
         == Pick(a, Indices(a, b, pred, n - 1, want)) + (if pred(a[n - 1], n - 1, a, b) == want then [a[n - 1]] else [])
  {
    var ix := Indices(a, b, pred, n - 1, want);
    if pred(a[n - 1], n - 1, a, b) == want {
      assert Indices(a, b, pred, n, want) == ix + [n - 1];
      PickSnoc(a, ix, n - 1);
    } else {
      assert Indices(a, b, pred, n, want) == ix;
    }
  }

  /** The first `n` elements of `a`, built one at a time (equal to `a[..n]`). */
  function Prefix<T>(a: seq<T>, n: nat): (p: seq<T>)
    requires n <= |a|
  {
    if n == 0 then [] else Prefix(a, n - 1) + [a[n - 1]]
  }

  lemma {:induction false} PrefixIsSlice<T>(a: seq<T>, n: nat)
    requires n <= |a|
    ensures Prefix(a, n) == a[..n]
  {
    if n > 0 {
      PrefixIsSlice(a, n - 1);
      PrefixSnoc(a, n);
    }
  }

  /** `pt` and `pf` together hold exactly the elements of `w`. */
  ghost predicate Shares<T>(pt: seq<T>, pf: seq<T>, w: seq<T>)
  {
    multiset(pt) + multiset(pf) == multiset(w)
  }

  /** The two picks over `a[..n]` together hold exactly the elements of `a[..n]`. */
  ghost predicate PicksShare<T, B>(a: seq<T>, b: B, pred: (T, nat, seq<T>, B) -> bool, n: nat)
    requires n <= |a|
  {
    Shares(Pick(a, Indices(a, b, pred, n, true)), Pick(a, Indices(a, b, pred, n, false)), Prefix(a, n))
  }

  lemma {:induction false} PickMultiset<T, B>(a: seq<T>, b: B, pred: (T, nat, seq<T>, B) -> bool, n: nat)
    requires n <= |a|
    ensures PicksShare(a, b, pred, n)
  {
    if n > 0 {
      var m := n - 1;
      PickMultiset(a, b, pred, m);
      PickMultisetStep(a, b, pred, m, n);
    }
  }

  lemma PickMultisetStep<T, B>(a: seq<T>, b: B, pred: (T, nat, seq<T>, B) -> bool, i: nat, j: nat)
    requires i < |a| && j == i + 1
    requires PicksShare(a, b, pred, i)
    ensures PicksShare(a, b, pred, j)
  {
    PickStep(a, b, pred, j, true);
    PickStep(a, b, pred, j, false);
    SharesStep(Pick(a, Indices(a, b, pred, i, true)), Pick(a, Indices(a, b, pred, i, false)),
               Pick(a, Indices(a, b, pred, j, true)), Pick(a, Indices(a, b, pred, j, false)),
               Prefix(a, i), Prefix(a, j), a[i], pred(a[i], i, a, b));
  }

  lemma SharesStep<T>(pt: seq<T>, pf: seq<T>, pt': seq<T>, pf': seq<T>, w: seq<T>, w': seq<T>, x: T, left: bool)
    requires Shares(pt, pf, w)
    requires pt' == pt + (if left == true then [x] else [])
    requires pf' == pf + (if left == false then [x] else [])
    requires w' == w + [x]
    ensures Shares(pt', pf', w')
  {
    if left {
      assert pf' == pf;
    } else {
      assert pt' == pt;
    }
  }

  lemma PrefixSnoc<T>(a: seq<T>, n: nat)
    requires 0 < n <= |a|
    ensures a[..n] == a[..n - 1] + [a[n - 1]]
  {
  }

  /** The two outputs together are a permutation of `a`. */
  lemma SplitFilterPermutes<T, B>(a: seq<T>, b: B, pred: (T, nat, seq<T>, B) -> bool)
    ensures multiset(Pick(a, Accepted(a, b, pred))) + multiset(Pick(a, Refused(a, b, pred))) == multiset(a)
  {
    PickMultiset(a, b, pred, |a|);
    assert PicksShare(a, b, pred, |a|);
    PrefixIsSlice(a, |a|);
    assert a[..|a|] == a;
  }

  /** The second list only reaches the predicate: a predicate that ignores it gives
      the same split for any second list. */
  lemma {:induction false} SecondListPassedThrough<T, B>(a: seq<T>, b1: B, b2: B, pred: (T, nat, seq<T>, B) -> bool, n: nat, want: bool)
    requires n <= |a|
    requires forall i :: 0 <= i < |a| ==> pred(a[i], i, a, b1) == pred(a[i], i, a, b2)
    ensures Indices(a, b1, pred, n, want) == Indices(a, b2, pred, n, want)
  {
    if n > 0 {
      SecondListPassedThrough(a, b1, b2, pred, n - 1, want);
    }
  }

  /** The elements of `s` that `p` accepts, in order: what `Array.prototype.filter` returns. */
  function Filter<T>(s: seq<T>, p: T -> bool): (r: seq<T>)
    ensures |r| <= |s|
    ensures forall k :: 0 <= k < |r| ==> p(r[k])
    ensures forall x :: x in r ==> x in s
  {
    if s == [] then [] else Filter(s[..|s| - 1], p) + (if p(s[|s| - 1]) then [s[|s| - 1]] else [])
  }

  lemma FilterSnoc<T>(s: seq<T>, x: T, p: T -> bool)
    ensures Filter(s + [x], p) == Filter(s, p) + (if p(x) then [x] else [])
  {
    assert (s + [x])[..|s|] == s;
  }

  /** An element the predicate accepts is in the filter. */
  lemma {:induction false} FilterHas<T>(s: seq<T>, p: T -> bool, i: nat)
    requires i < |s| && p(s[i])
    ensures s[i] in Filter(s, p)
  {
    var n := |s| - 1;
    if i < n {
      var init := s[..n];
      FilterHas(init, p, i);
      assert init[i] == s[i];
    }
  }

  /** A `splitFilter` predicate that looks only at the element. */
  function ByElement<T, B>(p: T -> bool): (T, nat, seq<T>, B) -> bool {
    (x: T, i: nat, xs: seq<T>, y: B) => p(x)
  }

  function Not<T>(p: T -> bool): T -> bool {
    (x: T) => !p(x)
  }

  /** The elements on which `p` answers `want`. */
  function Answers<T>(p: T -> bool, want: bool): T -> bool {
    (x: T) => p(x) == want
  }

  /** For a predicate that looks only at the element, the two sides of `splitFilter`
      are the elements accepted and the elements refused, as a filter gives them. */
  lemma {:induction false} SplitByElement<T, B>(a: seq<T>, b: B, p: T -> bool, n: nat, want: bool)
    requires n <= |a|
    ensures Pick(a, Indices(a, b, ByElement(p), n, want)) == Filter(a[..n], Answers(p, want))
  {
    var pred := ByElement<T, B>(p);
    if n > 0 {
      SplitByElement(a, b, p, n - 1, want);
      PrefixStep(a, n - 1);
      var ix := Indices(a, b, pred, n - 1, want);
      assert Filter(a[..n], Answers(p, want))
          == Filter(a[..n - 1], Answers(p, want)) + (if p(a[n - 1]) == want then [a[n - 1]] else []);
      if p(a[n - 1]) == want {
        assert Indices(a, b, pred, n, want) == ix + [n - 1];
        PickSnoc(a, ix, n - 1);
      } else {
        assert Indices(a, b, pred, n, want) == ix;
      }
    }
  }

  lemma {:induction false} FilterAppend<T>(a: seq<T>, b: seq<T>, p: T -> bool)
    ensures Filter(a + b, p) == Filter(a, p) + Filter(b, p)
    decreases |b|
  {
    if b == [] {
      assert a + b == a;
    } else {
      var n := |b| - 1;
      assert (a + b)[..|a + b| - 1] == a + b[..n];
      assert (a + b)[|a + b| - 1] == b[n];
      FilterAppend(a, b[..n], p);
    }
  }

  /** Dropping the last element of a concatenation drops it from the second part. */
  lemma AppendDropLast<T>(a: seq<T>, b: seq<T>)
    requires b != []
    ensures (a + b)[..|a + b| - 1] == a + b[..|b| - 1]
    ensures (a + b)[|a + b| - 1] == b[|b| - 1]
  {
  }

  /** The lists `f` gives for the elements of `xs`, one after the other. */
  function FlatMap<T, U>(xs: seq<T>, f: T -> seq<U>): seq<U> {
    if xs == [] then [] else FlatMap(xs[..|xs| - 1], f) + f(xs[|xs| - 1])
  }

  lemma {:induction false} FlatMapContains<T, U>(xs: seq<T>, f: T -> seq<U>, k: nat, x: U)
    requires k < |xs| && x in f(xs[k])
    ensures x in FlatMap(xs, f)
  {
    var n := |xs| - 1;
    if k < n {
      assert xs[..n][k] == xs[k];
      FlatMapContains(xs[..n], f, k, x);
    }
  }

  lemma ConcatAssociates<T>(a: seq<T>, b: seq<T>, c: seq<T>)
    ensures a + b + c == a + (b + c)
  {
  }

  /** A non-empty sequence is its prefix followed by its last element. */
  lemma DropLastSnoc<T>(s: seq<T>)
    requires s != []
    ensures s[..|s| - 1] + [s[|s| - 1]] == s
  {
  }

  /** The prefix one longer ends with the next element. */
  lemma PrefixStep<T>(s: seq<T>, i: nat)
    requires i < |s|
    ensures s[..i + 1][..i] == s[..i] && s[..i + 1][i] == s[i] && |s[..i + 1]| == i + 1
  {
  }

  /** Appending one element keeps the sequence as a prefix. */
  lemma SnocPrefix<T>(s: seq<T>, x: T)
    ensures (s + [x])[..|s|] == s && (s + [x])[|s|] == x
    ensures forall i :: 0 <= i < |s| ==> (s + [x])[i] == s[i]
  {
  }

  /** A filter comes out empty exactly when no element passes. */
  lemma {:induction false} FilterEmpty<T>(s: seq<T>, p: T -> bool)
    ensures Filter(s, p) == [] <==> forall i :: 0 <= i < |s| ==> !p(s[i])
  {
    if s != [] {
      var n := |s| - 1;
      FilterEmpty(s[..n], p);
      assert forall i :: 0 <= i < n ==> s[..n][i] == s[i];
    }
  }

  /** Filters by two predicates that agree everywhere are equal. */
  lemma {:induction false} FilterSame<T>(s: seq<T>, p: T -> bool, q: T -> bool)
    requires forall x :: p(x) == q(x)
    ensures Filter(s, p) == Filter(s, q)
  {
    if s != [] {
      FilterSame(s[..|s| - 1], p, q);
    }
  }

  /** `splitFilter` with an element predicate: the first list is the filter by the
      predicate, the second the filter by its negation. */
  lemma SplitFilterByElement<T, B>(a: seq<T>, b: B, p: T -> bool)
    ensures Pick(a, Accepted(a, b, ByElement(p))) == Filter(a, p)
    ensures Pick(a, Refused(a, b, ByElement(p))) == Filter(a, Not(p))
  {
    SplitByElement(a, b, p, |a|, true);
    SplitByElement(a, b, p, |a|, false);
    assert a[..|a|] == a;
    FilterSame(a, Answers(p, true), p);
    FilterSame(a, Answers(p, false), Not(p));
  }
}
