/**
 Order-preserving selection over sequences: the behaviour of JavaScript's
 `Array.prototype.filter`, which the record store uses both for the expiry
 sweep and for deletion. Alongside `Filter` itself this module gives an
 independent description of its result — the subsequence of the input made of
 exactly the selected elements — and proves the two agree.
 */
module Filtering {

  /** Keeps, in their original order, the elements of `s` that satisfy `p`. */
  function Filter<T(!new)>(p: T -> bool, s: seq<T>): (r: seq<T>)
    ensures |r| <= |s|
    ensures forall x :: x in r <==> x in s && p(x)
  {
    if |s| == 0 then []
    else if p(s[0]) then [s[0]] + Filter(p, s[1..])
    else Filter(p, s[1..])
  }

  /** The number of elements of `s` that satisfy `p`. */
  function Count<T>(p: T -> bool, s: seq<T>): (n: nat)
    ensures n <= |s|
    ensures n == 0 <==> forall i :: 0 <= i < |s| ==> !p(s[i])
    ensures n == |s| <==> forall i :: 0 <= i < |s| ==> p(s[i])
  {
    if |s| == 0 then 0
    else (if p(s[0]) then 1 else 0) + Count(p, s[1..])
  }

  /**
   `t` occurs in `s` as a (not necessarily contiguous) subsequence: the elements
   of `t` can be matched, left to right, against increasing positions of `s`.
   Matching greedily against the earliest possible position loses nothing.
   */
  predicate IsSubseq<T(==)>(t: seq<T>, s: seq<T>)
    decreases |s|
  {
    if |t| == 0 then true
    else if |s| == 0 then false
    else if t[0] == s[0] then IsSubseq(t[1..], s[1..])
    else IsSubseq(t, s[1..])
  }

  /** Filtering keeps exactly as many elements as satisfy the test. */
  lemma {:induction false} FilterLength<T(!new)>(p: T -> bool, s: seq<T>)
    ensures |Filter(p, s)| == Count(p, s)
  {
    if |s| > 0 {
      FilterLength(p, s[1..]);
    }
  }

  /** Filtering keeps the selected elements in their original relative order. */
  lemma {:induction false} FilterIsSubseq<T(!new)>(p: T -> bool, s: seq<T>)
    ensures IsSubseq(Filter(p, s), s)
  {
    if |s| > 0 {
      FilterIsSubseq(p, s[1..]);
      var r := Filter(p, s);
      if p(s[0]) {
        assert r[0] == s[0] && r[1..] == Filter(p, s[1..]);
      } else if |r| > 0 {
        assert r == Filter(p, s[1..]);
        SubseqSkipFirst(r, s);
      }
    }
  }

  /** A match against the tail of `s` is also a match against `s`. */
  lemma {:induction false} SubseqSkipFirst<T(!new)>(t: seq<T>, s: seq<T>)
    requires |s| > 0
    requires IsSubseq(t, s[1..])
    ensures IsSubseq(t, s)
    decreases |s|, |t|
  {
    if |t| > 0 && t[0] == s[0] {
      // the greedy match uses s[0] for t[0]; the rest must then fit in s[1..]
      SubseqDropFirst(t, s[1..]);
    }
  }

  /** Dropping the first element of `t` preserves being a subsequence. */
  lemma {:induction false} SubseqDropFirst<T(!new)>(t: seq<T>, s: seq<T>)
    requires |t| > 0
    requires IsSubseq(t, s)
    ensures IsSubseq(t[1..], s)
    decreases |s|, |t|
  {
    if t[0] == s[0] {
      if |t[1..]| > 0 {
        SubseqSkipFirst(t[1..], s);
      }
    } else {
      SubseqDropFirst(t, s[1..]);
      if |t[1..]| > 0 {
        SubseqSkipFirst(t[1..], s);
      }
    }
  }

  /** A subsequence made only of selected elements has at most `Count` of them. */
  lemma {:induction false} SubseqCountBound<T(!new)>(p: T -> bool, t: seq<T>, s: seq<T>)
    requires IsSubseq(t, s)
    requires forall i :: 0 <= i < |t| ==> p(t[i])
    ensures |t| <= Count(p, s)
    decreases |s|
  {
    if |t| > 0 {
      if t[0] == s[0] {
        SubseqCountBound(p, t[1..], s[1..]);
      } else {
        SubseqCountBound(p, t, s[1..]);
      }
    }
  }

  /**
   The independent description pins `Filter` down: a subsequence of `s` made
   only of selected elements, and as long as the number of selected elements,
   is the filtered sequence.
   */
  lemma {:induction false} FilterUnique<T(!new)>(p: T -> bool, t: seq<T>, s: seq<T>)
    requires IsSubseq(t, s)
    requires forall i :: 0 <= i < |t| ==> p(t[i])
    requires |t| == Count(p, s)
    ensures t == Filter(p, s)
    decreases |s|
  {
    FilterLength(p, s);
    if |s| == 0 {
    } else if |t| == 0 {
      assert Filter(p, s) == [];
    } else if t[0] == s[0] {
      FilterUnique(p, t[1..], s[1..]);
    } else {
      SubseqCountBound(p, t, s[1..]);
      FilterUnique(p, t, s[1..]);
    }
  }

  /** Filtering the concatenation filters each part. */
  lemma {:induction false} FilterAppend<T(!new)>(p: T -> bool, a: seq<T>, b: seq<T>)
    ensures Filter(p, a + b) == Filter(p, a) + Filter(p, b)
  {
    if |a| == 0 {
      assert a + b == b;
    } else {
      assert (a + b)[0] == a[0];
      assert (a + b)[1..] == a[1..] + b;
      FilterAppend(p, a[1..], b);
    }
  }

  /** When every element passes, filtering changes nothing. */
  lemma {:induction false} FilterAllPass<T(!new)>(p: T -> bool, s: seq<T>)
    requires forall i :: 0 <= i < |s| ==> p(s[i])
    ensures Filter(p, s) == s
  {
    if |s| > 0 {
      FilterAllPass(p, s[1..]);
    }
  }

  /**
   Filtering leaves the sequence unchanged exactly when its length is unchanged,
   exactly when every element passes.
   */
  lemma FilterSameLength<T(!new)>(p: T -> bool, s: seq<T>)
    ensures |Filter(p, s)| == |s| <==> Filter(p, s) == s
    ensures |Filter(p, s)| == |s| <==> forall i :: 0 <= i < |s| ==> p(s[i])
  {
    FilterLength(p, s);
    if forall i :: 0 <= i < |s| ==> p(s[i]) {
      FilterAllPass(p, s);
    }
  }

  /**
   Filtering with a stricter test `q` after a looser test `p` is the same as
   filtering with `q` alone.
   */
  lemma {:induction false} FilterStricter<T(!new)>(p: T -> bool, q: T -> bool, s: seq<T>)
    requires forall x :: q(x) ==> p(x)
    ensures Filter(q, Filter(p, s)) == Filter(q, s)
  {
    if |s| > 0 {
      FilterStricter(p, q, s[1..]);
    }
  }
}
