/** First-match and counting scans over a fixed table, the shape of every loop over a global array. */
module Scan {

  function First<T>(s: seq<T>, p: T -> bool): (r: int)
    ensures -1 <= r < |s|
    ensures r >= 0 ==> p(s[r])
    ensures forall k | 0 <= k < (if r < 0 then |s| else r) :: !p(s[k])
  {
    if |s| == 0 then -1
    else
      var r := First(s[..|s| - 1], p);
      if r >= 0 then r else if p(s[|s| - 1]) then |s| - 1 else -1
  }

  function Count<T>(s: seq<T>, p: T -> bool): nat {
    if |s| == 0 then 0
    else Count(s[..|s| - 1], p) + if p(s[|s| - 1]) then 1 else 0
  }

  lemma FirstIs<T>(s: seq<T>, p: T -> bool, i: int)
    requires -1 <= i < |s|
    requires i >= 0 ==> p(s[i])
    requires forall k | 0 <= k < (if i < 0 then |s| else i) :: !p(s[k])
    ensures First(s, p) == i
  {
  }

  lemma {:induction false} CountUpdate<T>(s: seq<T>, i: nat, x: T, p: T -> bool)
    requires i < |s|
    ensures Count(s[i := x], p) == Count(s, p) - (if p(s[i]) then 1 else 0) + (if p(x) then 1 else 0)
  {
    var n := |s| - 1;
    if i == n {
      assert s[i := x][..n] == s[..n];
    } else {
      assert s[i := x][..n] == s[..n][i := x];
      CountUpdate(s[..n], i, x, p);
    }
  }

  lemma {:induction false} CountMono<T>(s: seq<T>, t: seq<T>, p: T -> bool)
    requires |s| == |t|
    requires forall k | 0 <= k < |s| :: p(t[k]) ==> p(s[k])
    ensures Count(t, p) <= Count(s, p)
  {
    if |s| == 0 {
      assert Count(t, p) == 0;
    } else {
      CountMono(s[..|s| - 1], t[..|s| - 1], p);
    }
  }

  lemma {:induction false} CountZero<T>(s: seq<T>, p: T -> bool)
    requires forall k | 0 <= k < |s| :: !p(s[k])
    ensures Count(s, p) == 0
  {
    if |s| == 0 {
      assert Count(s, p) == 0;
    } else {
      CountZero(s[..|s| - 1], p);
    }
  }

  lemma CountPrefix<T>(s: seq<T>, i: nat, p: T -> bool)
    requires i < |s|
    ensures Count(s[..i + 1], p) == Count(s[..i], p) + if p(s[i]) then 1 else 0
  {
    assert s[..i + 1][..i] == s[..i];
  }

  /** The count is the size of the set of matching positions. */
  lemma {:induction false} CountIsCardinality<T>(s: seq<T>, p: T -> bool, ids: set<int>)
    requires forall k :: k in ids <==> 0 <= k < |s| && p(s[k])
    ensures Count(s, p) == |ids|
  {
    if |s| > 0 {
      var n := |s| - 1;
      CountIsCardinality(s[..n], p, ids - {n});
    } else {
      assert forall k: int :: k !in ids;
      assert |ids| == 0;
    }
  }

  // ---- Sizes of sets of positions ---------------------------------------------------------------

  /** Distinct elements of a set are no more than the set has. */
  lemma {:induction false} DistinctSize(ids: seq<int>, within: set<int>)
    requires forall i, j | 0 <= i < j < |ids| :: ids[i] != ids[j]
    requires forall i | 0 <= i < |ids| :: ids[i] in within
    ensures |within| >= |ids|
  {
    if ids != [] {
      var n := |ids| - 1;
      DistinctSize(ids[..n], within - {ids[n]});
    }
  }

  /** A set all of whose elements are listed is no larger than the list. */
  lemma {:induction false} ListedSize(ids: seq<int>, within: set<int>)
    requires forall x | x in within :: x in ids
    ensures |within| <= |ids|
  {
    if ids == [] {
      assert forall x: int :: x !in within;
      assert |within| == 0;
    } else {
      var n := |ids| - 1;
      forall x | x in within - {ids[n]} ensures x in ids[..n] {
        var i :| 0 <= i < |ids| && ids[i] == x;
        assert ids[..n][i] == x;
      }
      ListedSize(ids[..n], within - {ids[n]});
    }
  }

  /** ... and smaller than the list if one place is not needed. */
  lemma ListedElsewhere(ids: seq<int>, i: nat, within: set<int>)
    requires i < |ids|
    requires forall x | x in within :: exists j | 0 <= j < |ids| :: j != i && ids[j] == x
    ensures |within| < |ids|
  {
    var others := ids[..i] + ids[i + 1..];
    forall x | x in within ensures x in others {
      var j :| 0 <= j < |ids| && j != i && ids[j] == x;
      assert others[if j < i then j else j - 1] == x;
    }
    ListedSize(others, within);
  }

  lemma {:induction false} Contained(a: set<int>, b: set<int>)
    requires a <= b
    ensures |a| <= |b|
    decreases a
  {
    if x :| x in a {
      Contained(a - {x}, b - {x});
    } else {
      assert forall k: int :: k !in a;
      assert |a| == 0;
    }
  }
}
