/**
 * Question ids and the order in which a session draws them: every draw
 * picks an id in 1..n that has not been asked yet, so a completed session
 * asks each id exactly once.
 */
module Drawing {

  /** The ids 1..n. */
  function IdRange(n: int): (ids: set<int>)
    ensures forall k :: k in ids <==> 1 <= k <= n
    ensures n >= 0 ==> |ids| == n
  {
    if n <= 0 then {} else IdRange(n - 1) + {n}
  }

  /** No id occurs twice. */
  predicate Distinct(s: seq<int>) {
    forall i, j :: 0 <= i < j < |s| ==> s[i] != s[j]
  }

  /** Every id lies in 1..n. */
  predicate InRange(s: seq<int>, n: int) {
    forall i :: 0 <= i < |s| ==> 1 <= s[i] <= n
  }

  /** A complete draw over n questions: n distinct ids, all in 1..n. */
  predicate IsDrawOrder(s: seq<int>, n: int) {
    |s| == n && Distinct(s) && InRange(s, n)
  }

  /** The ids occurring in `s`. */
  function Elements(s: seq<int>): (e: set<int>)
    ensures forall x :: x in e <==> x in s
  {
    set x | x in s
  }

  /** A sequence without repetitions has as many elements as it has ids. */
  lemma {:induction false} DistinctElements(s: seq<int>)
    requires Distinct(s)
    ensures |Elements(s)| == |s|
  {
    if s != [] {
      var init, last := s[..|s| - 1], s[|s| - 1];
      assert s == init + [last];
      DistinctElements(init);
      assert last !in init;
      assert Elements(s) == Elements(init) + {last};
    }
  }

  /** A subset is no larger than its superset. */
  lemma SubsetSize(a: set<int>, b: set<int>)
    requires a <= b
    ensures |a| <= |b|
  {
    assert b == a + (b - a);
    assert a * (b - a) == {};
  }

  /**
   * While fewer than n ids have been drawn, some id in 1..n is still
   * unasked, so the rejection loop always has something to find.
   */
  lemma MissingId(asked: seq<int>, n: int)
    requires Distinct(asked) && InRange(asked, n) && |asked| < n
    ensures exists id :: 1 <= id <= n && id !in asked
  {
    if forall id :: 1 <= id <= n ==> id in asked {
      DistinctElements(asked);
      SubsetSize(IdRange(n), Elements(asked));
      assert false;
    }
  }

  /** A complete draw asks every id in 1..n, each exactly once. */
  lemma DrawOrderCoversAll(s: seq<int>, n: int)
    requires IsDrawOrder(s, n)
    ensures forall id :: 1 <= id <= n ==> id in s
    ensures Elements(s) == IdRange(n)
  {
    forall id | 1 <= id <= n
      ensures id in s
    {
      if id !in s {
        DistinctElements(s);
        SubsetSize(Elements(s), IdRange(n) - {id});
        assert false;
      }
    }
  }

  /**
   * One draw of the do/while loop: any id in 1..n not asked yet (the
   * random source is left open, so every such id is a possible outcome).
   */
  method Draw(asked: seq<int>, n: int) returns (id: int)
    requires Distinct(asked) && InRange(asked, n) && |asked| < n
    ensures 1 <= id <= n && id !in asked
    ensures Distinct(asked + [id]) && InRange(asked + [id], n)
  {
    MissingId(asked, n);
    id :| 1 <= id <= n && id !in asked;
  }
}
