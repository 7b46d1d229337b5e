/**
 The array methods the handlers use for their lookups and removals:
 `findIndex`, `find`, `some` and `filter`, each with the callback it is given.
 */
module Lookup {
  import opened Wrappers

  /** `s.findIndex(p)`: the index of the first element satisfying p, or -1. */
  function FindIndex<T>(s: seq<T>, p: T -> bool): (r: int)
    ensures -1 <= r < |s|
    ensures r == -1 <==> forall j :: 0 <= j < |s| ==> !p(s[j])
    ensures r >= 0 ==> p(s[r]) && forall j :: 0 <= j < r ==> !p(s[j])
    decreases |s|
  {
    if s == [] then -1
    else if p(s[0]) then 0
    else
      var k := FindIndex(s[1..], p);
      if k == -1 then -1 else k + 1
  }

  /** `s.find(p)`: the first element satisfying p, or `undefined` (None).
      It is the element at the index `findIndex` reports. */
  function Find<T>(s: seq<T>, p: T -> bool): (r: Option<T>)
    ensures r.None? <==> FindIndex(s, p) == -1
    ensures r.Some? ==> r.value == s[FindIndex(s, p)]
    decreases |s|
  {
    if s == [] then None
    else if p(s[0]) then Some(s[0])
    else Find(s[1..], p)
  }

  /** `s.some(p)`: whether any element satisfies p. */
  function Any<T>(s: seq<T>, p: T -> bool): (r: bool)
    ensures r <==> exists j :: 0 <= j < |s| && p(s[j])
    decreases |s|
  {
    if s == [] then false else p(s[0]) || Any(s[1..], p)
  }

  /** `s.filter(keep)`: the elements that satisfy keep, in their original order. */
  function Filter<T>(s: seq<T>, keep: T -> bool): (r: seq<T>)
    ensures |r| <= |s|
    ensures forall j :: 0 <= j < |r| ==> r[j] in s && keep(r[j])
    ensures forall j :: 0 <= j < |s| && keep(s[j]) ==> s[j] in r
    decreases |s|
  {
    if s == [] then []
    else (if keep(s[0]) then [s[0]] else []) + Filter(s[1..], keep)
  }

  /** The negation of a callback: `x => !p(x)`. */
  function Not<T>(p: T -> bool): T -> bool
  {
    x => !p(x)
  }

  /** r keeps some elements of s and drops the others, without reordering them. */
  ghost predicate SubsequenceOf<T>(r: seq<T>, s: seq<T>)
    decreases |s|
  {
    if r == [] then true
    else if s == [] then false
    else (r[0] == s[0] && SubsequenceOf(r[1..], s[1..])) || SubsequenceOf(r, s[1..])
  }

  /** Filtering keeps the surviving elements in their original order. */
  lemma {:induction false} FilterIsSubsequence<T>(s: seq<T>, keep: T -> bool)
    ensures SubsequenceOf(Filter(s, keep), s)
    decreases |s|
  {
    if s != [] {
      FilterIsSubsequence(s[1..], keep);
      if keep(s[0]) {
        assert Filter(s, keep)[1..] == Filter(s[1..], keep);
      } else {
        assert Filter(s, keep) == Filter(s[1..], keep);
      }
    }
  }

  /** Filtering a concatenation filters each part: order is kept across the seam. */
  lemma {:induction false} FilterAppend<T>(a: seq<T>, b: seq<T>, keep: T -> bool)
    ensures Filter(a + b, keep) == Filter(a, keep) + Filter(b, keep)
    decreases |a|
  {
    if a == [] {
      assert a + b == b;
    } else {
      FilterAppend(a[1..], b, keep);
      assert (a + b)[0] == a[0];
      assert (a + b)[1..] == a[1..] + b;
      var head := if keep(a[0]) then [a[0]] else [];
      calc {
        Filter(a + b, keep);
        head + Filter(a[1..] + b, keep);
        head + (Filter(a[1..], keep) + Filter(b, keep));
        (head + Filter(a[1..], keep)) + Filter(b, keep);
      }
    }
  }

  /** A kept last element stays last. */
  lemma {:induction false} FilterKeepsLast<T>(s: seq<T>, keep: T -> bool)
    requires |s| >= 1 && keep(s[|s| - 1])
    ensures Filter(s, keep) == Filter(s[..|s| - 1], keep) + [s[|s| - 1]]
    decreases |s|
  {
    var init := s[..|s| - 1];
    if |s| == 1 {
      assert init == [];
      assert s[1..] == [];
    } else {
      FilterKeepsLast(s[1..], keep);
      assert s[1..][..|s| - 2] == init[1..];
      assert init[0] == s[0];
      var head := if keep(s[0]) then [s[0]] else [];
      assert Filter(s, keep) == head + Filter(s[1..], keep);
      assert Filter(init, keep) == head + Filter(init[1..], keep);
    }
  }

  /** Appending an element that matches, to a sequence where nothing does,
      makes the appended element the one `find` reports. */
  lemma FindAppended<T>(s: seq<T>, x: T, p: T -> bool)
    requires !Any(s, p) && p(x)
    ensures FindIndex(s + [x], p) == |s|
    ensures Find(s + [x], p) == Some(x)
  {
    var t := s + [x];
    assert t[|s|] == x;
    forall j | 0 <= j < |s| ensures !p(t[j]) {
      assert t[j] == s[j];
    }
  }

  /** Whatever survives a filter was in the input. */
  lemma AnyOfFilter<T>(s: seq<T>, keep: T -> bool, p: T -> bool)
    ensures Any(Filter(s, keep), p) ==> Any(s, p)
  {
    if Any(Filter(s, keep), p) {
      var j :| 0 <= j < |Filter(s, keep)| && p(Filter(s, keep)[j]);
      var k :| 0 <= k < |s| && s[k] == Filter(s, keep)[j];
    }
  }

  /** Nothing is lost: the kept and the dropped elements together are the input. */
  lemma {:induction false} FilterPartition<T>(s: seq<T>, keep: T -> bool)
    ensures multiset(Filter(s, keep)) + multiset(Filter(s, Not(keep))) == multiset(s)
    decreases |s|
  {
    if s != [] {
      FilterPartition(s[1..], keep);
      assert s == [s[0]] + s[1..];
    }
  }

  /** When every element is kept, filtering changes nothing. */
  lemma {:induction false} FilterKeepsAll<T>(s: seq<T>, keep: T -> bool)
    requires forall j :: 0 <= j < |s| ==> keep(s[j])
    ensures Filter(s, keep) == s
    decreases |s|
  {
    if s != [] {
      FilterKeepsAll(s[1..], keep);
      assert [s[0]] + s[1..] == s;
    }
  }

  /** A pairwise property of a sequence survives dropping elements. */
  lemma {:induction false} SubsequencePairwise<T>(r: seq<T>, s: seq<T>, ok: (T, T) -> bool)
    requires SubsequenceOf(r, s)
    requires forall i, j :: 0 <= i < j < |s| ==> ok(s[i], s[j])
    ensures forall i, j :: 0 <= i < j < |r| ==> ok(r[i], r[j])
    decreases |s|
  {
    if r != [] {
      if r[0] == s[0] && SubsequenceOf(r[1..], s[1..]) {
        SubsequencePairwise(r[1..], s[1..], ok);
        SubsequenceMembers(r[1..], s[1..]);
        forall i, j | 0 <= i < j < |r| ensures ok(r[i], r[j]) {
          if i > 0 {
            assert ok(r[1..][i - 1], r[1..][j - 1]);
          } else {
            var k :| 0 <= k < |s[1..]| && s[1..][k] == r[1..][j - 1];
            assert ok(s[0], s[k + 1]);
          }
        }
      } else {
        SubsequencePairwise(r, s[1..], ok);
      }
    }
  }

  /** Every element of a subsequence occurs in the sequence. */
  lemma {:induction false} SubsequenceMembers<T>(r: seq<T>, s: seq<T>)
    requires SubsequenceOf(r, s)
    ensures forall i :: 0 <= i < |r| ==> exists k :: 0 <= k < |s| && s[k] == r[i]
    decreases |s|
  {
    if r != [] {
      if r[0] == s[0] && SubsequenceOf(r[1..], s[1..]) {
        SubsequenceMembers(r[1..], s[1..]);
        forall i | 0 <= i < |r| ensures exists k :: 0 <= k < |s| && s[k] == r[i] {
          if i == 0 {
            assert s[0] == r[0];
          } else {
            var k :| 0 <= k < |s[1..]| && s[1..][k] == r[1..][i - 1];
            assert s[k + 1] == r[i];
          }
        }
      } else {
        SubsequenceMembers(r, s[1..]);
        forall i | 0 <= i < |r| ensures exists k :: 0 <= k < |s| && s[k] == r[i] {
          var k :| 0 <= k < |s[1..]| && s[1..][k] == r[i];
          assert s[k + 1] == r[i];
        }
      }
    }
  }
}
