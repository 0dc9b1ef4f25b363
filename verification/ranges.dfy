/**
 Integer ranges and completion orders. `Range(1, n + 1)` is Python's
 `range(1, n + 1)`, the page numbers every module walks; a completion order
 is what `as_completed` yields over one future per page: each page of
 `1..n` exactly once, in any order.
 */
module Ranges {

  /** `list(range(lo, hi))`. */
  function Range(lo: int, hi: int): (r: seq<int>)
    ensures |r| == if lo < hi then hi - lo else 0
    ensures forall i :: 0 <= i < |r| ==> r[i] == lo + i
    decreases hi - lo
  {
    if lo >= hi then [] else [lo] + Range(lo + 1, hi)
  }

  /** Adjacent ranges concatenate. */
  lemma {:induction false} RangeAppend(a: int, b: int, c: int)
    requires a <= b <= c
    ensures Range(a, b) + Range(b, c) == Range(a, c)
    decreases b - a
  {
    if a < b {
      RangeAppend(a + 1, b, c);
      assert Range(a, b) == [a] + Range(a + 1, b);
      assert Range(a, c) == [a] + Range(a + 1, c);
      assert ([a] + Range(a + 1, b)) + Range(b, c) == [a] + (Range(a + 1, b) + Range(b, c));
    } else {
      assert Range(a, b) == [];
      assert [] + Range(b, c) == Range(b, c);
    }
  }

  predicate StrictlyIncreasing(s: seq<int>) {
    forall i, j :: 0 <= i < j < |s| ==> s[i] < s[j]
  }

  /** A strictly increasing listing of `[lo, hi)` can only be `Range(lo, hi)`. */
  lemma {:induction false} IncreasingEnumerationIsRange(s: seq<int>, lo: int, hi: int)
    requires StrictlyIncreasing(s)
    requires forall x :: x in s <==> lo <= x < hi
    ensures s == Range(lo, hi)
    decreases |s|
  {
    if |s| == 0 {
      assert lo !in s;
    } else {
      assert s[0] in s;
      assert lo in s;
      var j :| 0 <= j < |s| && s[j] == lo;
      assert s[0] == lo;
      var t := s[1..];
      forall x
        ensures x in t <==> lo + 1 <= x < hi
      {
        if x in t {
          var k :| 0 <= k < |t| && t[k] == x;
          assert s[k + 1] == x && x in s;
          assert s[0] < s[k + 1];
        }
        if lo + 1 <= x < hi {
          assert x in s;
          var k :| 0 <= k < |s| && s[k] == x;
          assert k != 0;
          assert t[k - 1] == x;
        }
      }
      IncreasingEnumerationIsRange(t, lo + 1, hi);
      assert s == [lo] + t;
    }
  }

  /**
   What `as_completed` yields over one future per page of `range(1, n + 1)`:
   pages from `1..n`, none twice, none missing.
   */
  predicate IsCompletionOrder(order: seq<int>, n: int) {
    && (forall i :: 0 <= i < |order| ==> 1 <= order[i] <= n)
    && (forall i, j :: 0 <= i < j < |order| ==> order[i] != order[j])
    && (forall p :: 1 <= p <= n ==> p in order)
  }

  /** The pages seen in a prefix of a completion order. */
  function Seen(order: seq<int>): set<int> {
    set i | 0 <= i < |order| :: order[i]
  }
}
