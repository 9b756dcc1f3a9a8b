/** Generic facts about sequences: `Array.prototype.filter`, order-preserving subsequences, first occurrences. */
module Seqs {

  /** `s.filter(f)`: the elements of `s` satisfying `f`, in their original order. */
  function Filter<T>(f: T -> bool, s: seq<T>): (r: seq<T>)
    ensures |r| <= |s|
    ensures forall i :: 0 <= i < |r| ==> r[i] in s && f(r[i])
    ensures forall i :: 0 <= i < |s| && f(s[i]) ==> s[i] in r
    decreases |s|
  {
    if |s| == 0 then [] else (if f(s[0]) then [s[0]] else []) + Filter(f, s[1..])
  }

  /** The conjunction of two tests, as one test. */
  function Both<T>(f: T -> bool, g: T -> bool): T -> bool
  {
    x => f(x) && g(x)
  }

  /** `a` is `b` with some elements left out and the rest kept in order. */
  predicate IsSubsequence<T(==)>(a: seq<T>, b: seq<T>)
    decreases |b|
  {
    if |a| == 0 then true
    else if |b| == 0 then false
    else (a[0] == b[0] && IsSubsequence(a[1..], b[1..])) || IsSubsequence(a, b[1..])
  }

  /** Every sequence is a subsequence of itself. */
  lemma {:induction false} SubsequenceReflexive<T>(s: seq<T>)
    ensures IsSubsequence(s, s)
    decreases |s|
  {
    if |s| > 0 {
      SubsequenceReflexive(s[1..]);
    }
  }

  /** Filtering drops elements but never reorders them. */
  lemma {:induction false} FilterIsSubsequence<T>(f: T -> bool, s: seq<T>)
    ensures IsSubsequence(Filter(f, s), s)
    decreases |s|
  {
    if |s| > 0 {
      FilterIsSubsequence(f, s[1..]);
      if f(s[0]) {
        assert Filter(f, s)[1..] == Filter(f, s[1..]);
      } else {
        assert Filter(f, s) == Filter(f, s[1..]);
        if |Filter(f, s)| > 0 {
          assert IsSubsequence(Filter(f, s), s[1..]);
        }
      }
    }
  }

  /** Filtering the concatenation with one trailing element: the element is kept at the end or dropped. */
  lemma {:induction false} FilterSnoc<T>(f: T -> bool, s: seq<T>, x: T)
    ensures Filter(f, s + [x]) == Filter(f, s) + (if f(x) then [x] else [])
    decreases |s|
  {
    if |s| > 0 {
      assert (s + [x])[1..] == s[1..] + [x];
      FilterSnoc(f, s[1..], x);
    }
  }

  /** A filter that every element passes changes nothing. */
  lemma {:induction false} FilterKeepsAll<T>(f: T -> bool, s: seq<T>)
    requires forall i :: 0 <= i < |s| ==> f(s[i])
    ensures Filter(f, s) == s
    decreases |s|
  {
    if |s| > 0 {
      FilterKeepsAll(f, s[1..]);
    }
  }

  /** A filter that no element passes leaves nothing. */
  lemma {:induction false} FilterDropsAll<T>(f: T -> bool, s: seq<T>)
    requires forall i :: 0 <= i < |s| ==> !f(s[i])
    ensures Filter(f, s) == []
    decreases |s|
  {
    if |s| > 0 {
      FilterDropsAll(f, s[1..]);
    }
  }

  /** A test that exactly one position passes filters down to that one element. */
  lemma {:induction false} FilterSingle<T>(f: T -> bool, s: seq<T>, k: int)
    requires 0 <= k < |s|
    requires forall j :: 0 <= j < |s| ==> (f(s[j]) <==> j == k)
    ensures Filter(f, s) == [s[k]]
    decreases |s|
  {
    if k == 0 {
      FilterDropsAll(f, s[1..]);
    } else {
      FilterSingle(f, s[1..], k - 1);
    }
  }

  /** Two tests that agree on every element filter alike. */
  lemma {:induction false} FilterCongruent<T>(f: T -> bool, g: T -> bool, s: seq<T>)
    requires forall i :: 0 <= i < |s| ==> f(s[i]) == g(s[i])
    ensures Filter(f, s) == Filter(g, s)
    decreases |s|
  {
    if |s| > 0 {
      FilterCongruent(f, g, s[1..]);
    }
  }

  /** Filtering twice in a row is filtering once by both tests. */
  lemma {:induction false} FilterFuse<T>(f: T -> bool, g: T -> bool, s: seq<T>)
    ensures Filter(g, Filter(f, s)) == Filter(Both(f, g), s)
    decreases |s|
  {
    if |s| > 0 {
      FilterFuse(f, g, s[1..]);
      assert Both(f, g)(s[0]) == (f(s[0]) && g(s[0]));
      if f(s[0]) {
        var fs := Filter(f, s);
        assert fs == [s[0]] + Filter(f, s[1..]);
        assert fs[0] == s[0] && fs[1..] == Filter(f, s[1..]);
        assert Filter(g, fs) == (if g(s[0]) then [s[0]] else []) + Filter(g, fs[1..]);
      } else {
        assert Filter(f, s) == Filter(f, s[1..]);
      }
    }
  }

  /** Filtering is idempotent. */
  lemma FilterIdempotent<T>(f: T -> bool, s: seq<T>)
    ensures Filter(f, Filter(f, s)) == Filter(f, s)
  {
    var r := Filter(f, s);
    assert forall i :: 0 <= i < |r| ==> r[i] in r;
    FilterKeepsAll(f, r);
  }

  /** No two positions of `s` hold the same element. */
  predicate Distinct<T(==)>(s: seq<T>) {
    forall i, j :: 0 <= i < j < |s| ==> s[i] != s[j]
  }

  /** The elements of `s` at their first occurrence, in the order first met. */
  function FirstOccurrences<T(==)>(s: seq<T>): (r: seq<T>)
    ensures forall i :: 0 <= i < |r| ==> r[i] in s
    ensures forall i :: 0 <= i < |s| ==> s[i] in r
    ensures Distinct(r)
    decreases |s|
  {
    if |s| == 0 then []
    else
      var init := s[..|s| - 1];
      var last := s[|s| - 1];
      assert s == init + [last];
      var d := FirstOccurrences(init);
      if last in init then d else d + [last]
  }

  /**
   `r` lists elements in the order they are first met in `s`: every occurrence
   in `s` of a later element of `r` is preceded by an occurrence of each earlier one.
   */
  predicate InFirstSeenOrder<T(==)>(r: seq<T>, s: seq<T>) {
    forall i, j, k :: 0 <= i < j < |r| && 0 <= k < |s| && s[k] == r[j] ==> r[i] in s[..k]
  }

  /** First occurrences keep the order in which elements are first met. */
  lemma {:induction false} FirstOccurrencesOrder<T>(s: seq<T>)
    ensures InFirstSeenOrder(FirstOccurrences(s), s)
    decreases |s|
  {
    if |s| > 0 {
      var init := s[..|s| - 1];
      var last := s[|s| - 1];
      FirstOccurrencesOrder(init);
      var d := FirstOccurrences(init);
      var r := FirstOccurrences(s);
      assert r == if last in init then d else d + [last];
      forall i, j, k | 0 <= i < j < |r| && 0 <= k < |s| && s[k] == r[j]
        ensures r[i] in s[..k]
      {
        assert r[i] == d[i];
        if k < |s| - 1 {
          assert s[..k] == init[..k];
          assert r[j] == init[k] && init[k] in init;
          assert j < |d| && r[j] == d[j];
          OrderAt(d, init, i, j, k);
        } else {
          assert s[..k] == init;
          assert d[i] in init;
        }
      }
    }
  }

  /** One instance of `InFirstSeenOrder`. */
  lemma OrderAt<T>(r: seq<T>, s: seq<T>, i: int, j: int, k: int)
    requires InFirstSeenOrder(r, s)
    requires 0 <= i < j < |r| && 0 <= k < |s| && s[k] == r[j]
    ensures r[i] in s[..k]
  {
  }

  /** A sequence without repeats is its own list of first occurrences. */
  lemma {:induction false} FirstOccurrencesOfDistinct<T>(s: seq<T>)
    requires Distinct(s)
    ensures FirstOccurrences(s) == s
    decreases |s|
  {
    if |s| > 0 {
      var init := s[..|s| - 1];
      assert Distinct(init);
      FirstOccurrencesOfDistinct(init);
      assert s[|s| - 1] !in init;
      assert s == init + [s[|s| - 1]];
    }
  }
}
