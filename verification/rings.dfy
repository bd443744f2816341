/**
 * Circular doubly-linked lists threaded through two pointer columns.  The trie
 * keeps two kinds: the Open/Closed/Full block lists (block `prev`/`next`), and
 * one free-slot list per block, stored negated in the node `base`/`check`
 * columns (`base = -prev`, `check = -next`).  A list is described by the
 * sequence `r` of its members, starting at its head.
 */
module Rings {

  /** Position after `k` in a ring of `n` members. */
  function Succ(k: int, n: int): int
  {
    if k + 1 < n then k + 1 else 0
  }

  /** Position before `k` in a ring of `n` members. */
  function Pred(k: int, n: int): int
  {
    if k > 0 then k - 1 else n - 1
  }

  /** How a pointer is stored: as is, or negated (free slots). */
  function Link(x: int, neg: bool): int
  {
    if neg then -x else x
  }

  ghost predicate Distinct(s: seq<int>)
  {
    forall i, j :: 0 <= i < |s| && 0 <= j < |s| && i != j ==> s[i] != s[j]
  }

  /** Every member of `r` indexes both columns. */
  ghost predicate InColumns(r: seq<int>, nx: seq<int>, pv: seq<int>)
  {
    forall k :: 0 <= k < |r| ==> 0 <= r[k] < |nx| && r[k] < |pv|
  }

  /**
   * `r` is a cycle: the `nx` pointer of each member is the next member and its
   * `pv` pointer the previous one, wrapping round at both ends.
   */
  ghost predicate IsRing(r: seq<int>, nx: seq<int>, pv: seq<int>, neg: bool)
  {
    InColumns(r, nx, pv) &&
    (forall k {:trigger nx[r[k]]} :: 0 <= k < |r| ==> nx[r[k]] == Link(r[Succ(k, |r|)], neg)) &&
    (forall k {:trigger pv[r[k]]} :: 0 <= k < |r| ==> pv[r[k]] == Link(r[Pred(k, |r|)], neg))
  }

  /** `r` without its (only) occurrence of `x`. */
  function Remove(r: seq<int>, x: int): (s: seq<int>)
    ensures |s| <= |r|
    ensures x in r ==> |s| == |r| - 1
    ensures forall y :: y in s ==> y in r
  {
    if r == [] then []
    else if r[0] == x then r[1..]
    else [r[0]] + Remove(r[1..], x)
  }

  lemma {:induction false} RemoveAt(r: seq<int>, k: int)
    requires Distinct(r) && 0 <= k < |r|
    ensures Remove(r, r[k]) == r[..k] + r[k + 1..]
  {
    if k > 0 {
      assert r[1..][k - 1] == r[k];
      RemoveAt(r[1..], k - 1);
      assert r[1..][..k - 1] == r[1..k];
      assert r[1..][k..] == r[k + 1..];
      assert [r[0]] + r[1..k] == r[..k];
    }
  }

  lemma {:induction false} RemoveAbsent(r: seq<int>, x: int)
    requires x !in r
    ensures Remove(r, x) == r
  {
    if r != [] {
      RemoveAbsent(r[1..], x);
    }
  }

  /** The member of `r` where `x` sits. */
  lemma IndexOf(r: seq<int>, x: int) returns (k: int)
    requires x in r
    ensures 0 <= k < |r| && r[k] == x
  {
    k :| 0 <= k < |r| && r[k] == x;
  }

  lemma DistinctRemove(r: seq<int>, k: int)
    requires Distinct(r) && 0 <= k < |r|
    ensures Distinct(r[..k] + r[k + 1..])
    ensures forall y :: y in r[..k] + r[k + 1..] <==> y in r && y != r[k]
  {
    var s := r[..k] + r[k + 1..];
    assert forall i :: 0 <= i < |s| ==> s[i] == (if i < k then r[i] else r[i + 1]);
    forall y | y in r && y != r[k]
      ensures y in s
    {
      var j :| 0 <= j < |r| && r[j] == y;
      if j < k { assert s[j] == y; } else { assert s[j - 1] == y; }
    }
  }

  /** Changing or extending the columns outside the ring's members keeps the ring. */
  lemma RingFrame(r: seq<int>, nx: seq<int>, pv: seq<int>, nx': seq<int>, pv': seq<int>, neg: bool)
    requires IsRing(r, nx, pv, neg)
    requires |nx'| >= |nx| && |pv'| >= |pv|
    requires forall k {:trigger nx'[r[k]]} :: 0 <= k < |r| ==> nx'[r[k]] == nx[r[k]]
    requires forall k {:trigger pv'[r[k]]} :: 0 <= k < |r| ==> pv'[r[k]] == pv[r[k]]
    ensures IsRing(r, nx', pv', neg)
  {
  }

  /** A single member linked to itself is a ring. */
  lemma RingSingle(x: int, nx: seq<int>, pv: seq<int>, neg: bool)
    requires 0 <= x < |nx| && x < |pv|
    requires nx[x] == Link(x, neg) && pv[x] == Link(x, neg)
    ensures IsRing([x], nx, pv, neg) && Distinct([x])
  {
  }

  /**
   * Splicing `x` in at position `p` (between `r[Pred(p)]` and `r[p]`) gives the
   * ring `r[..p] + [x] + r[p..]`.  Only the pointers of `x` and of its two new
   * neighbours change.
   */
  lemma RingInsert(r: seq<int>, p: int, x: int, nx: seq<int>, pv: seq<int>, nx': seq<int>, pv': seq<int>, neg: bool)
    requires IsRing(r, nx, pv, neg) && Distinct(r) && x !in r
    requires 0 <= p < |r|
    requires 0 <= x < |nx'| && x < |pv'| && |nx'| == |nx| && |pv'| == |pv|
    requires nx'[x] == Link(r[p], neg) && pv'[x] == Link(r[Pred(p, |r|)], neg)
    requires nx'[r[Pred(p, |r|)]] == Link(x, neg) && pv'[r[p]] == Link(x, neg)
    requires forall k {:trigger nx'[r[k]]} :: 0 <= k < |r| && k != Pred(p, |r|) ==> nx'[r[k]] == nx[r[k]]
    requires forall k {:trigger pv'[r[k]]} :: 0 <= k < |r| && k != p ==> pv'[r[k]] == pv[r[k]]
    ensures IsRing(r[..p] + [x] + r[p..], nx', pv', neg)
    ensures Distinct(r[..p] + [x] + r[p..])
  {
    var s := r[..p] + [x] + r[p..];
    forall k | 0 <= k < |s|
      ensures 0 <= s[k] < |nx'| && s[k] < |pv'|
      ensures nx'[s[k]] == Link(s[Succ(k, |s|)], neg)
      ensures pv'[s[k]] == Link(s[Pred(k, |s|)], neg)
    {
      InsertStep(r, p, x, nx, pv, nx', pv', neg, k);
    }
    forall a, b | 0 <= a < |s| && 0 <= b < |s| && a != b
      ensures s[a] != s[b]
    {
      InsertAt(r, p, x, a);
      InsertAt(r, p, x, b);
    }
  }

  lemma InsertAt(r: seq<int>, p: int, x: int, i: int)
    requires 0 <= p < |r| && 0 <= i <= |r|
    ensures (r[..p] + [x] + r[p..])[i] == (if i < p then r[i] else if i == p then x else r[i - 1])
  {
  }

  lemma InsertStep(r: seq<int>, p: int, x: int, nx: seq<int>, pv: seq<int>, nx': seq<int>, pv': seq<int>, neg: bool, k: int)
    requires IsRing(r, nx, pv, neg) && x !in r
    requires 0 <= p < |r|
    requires 0 <= x < |nx'| && x < |pv'| && |nx'| == |nx| && |pv'| == |pv|
    requires nx'[x] == Link(r[p], neg) && pv'[x] == Link(r[Pred(p, |r|)], neg)
    requires nx'[r[Pred(p, |r|)]] == Link(x, neg) && pv'[r[p]] == Link(x, neg)
    requires forall k {:trigger nx'[r[k]]} :: 0 <= k < |r| && k != Pred(p, |r|) ==> nx'[r[k]] == nx[r[k]]
    requires forall k {:trigger pv'[r[k]]} :: 0 <= k < |r| && k != p ==> pv'[r[k]] == pv[r[k]]
    requires 0 <= k <= |r|
    ensures var s := r[..p] + [x] + r[p..];
      0 <= s[k] < |nx'| && s[k] < |pv'| &&
      nx'[s[k]] == Link(s[Succ(k, |s|)], neg) && pv'[s[k]] == Link(s[Pred(k, |s|)], neg)
  {
    var n := |r|;
    var s := r[..p] + [x] + r[p..];
    InsertAt(r, p, x, k);
    InsertAt(r, p, x, Succ(k, |s|));
    InsertAt(r, p, x, Pred(k, |s|));
    if k < p {
      assert s[k] == r[k];
      assert k != Pred(p, n) ==> Succ(k, n) == k + 1;
      assert k != p ==> Pred(k, n) == Pred(k, |s|) || k == 0;
    } else if k > p {
      var i := k - 1;
      assert s[k] == r[i];
      assert i != Pred(p, n) ==> (Succ(i, n) == 0 <==> Succ(k, |s|) == 0);
    }
  }

  /**
   * Unlinking member `r[k]` of a ring of at least two (its neighbours now point
   * at each other) leaves the ring `r[..k] + r[k+1..]`.
   */
  lemma RingUnlink(r: seq<int>, k: int, nx: seq<int>, pv: seq<int>, nx': seq<int>, pv': seq<int>, neg: bool)
    requires IsRing(r, nx, pv, neg) && Distinct(r)
    requires 0 <= k < |r| && |r| >= 2
    requires |nx'| == |nx| && |pv'| == |pv|
    requires nx'[r[Pred(k, |r|)]] == Link(r[Succ(k, |r|)], neg)
    requires pv'[r[Succ(k, |r|)]] == Link(r[Pred(k, |r|)], neg)
    requires forall i {:trigger nx'[r[i]]} :: 0 <= i < |r| && i != Pred(k, |r|) ==> nx'[r[i]] == nx[r[i]]
    requires forall i {:trigger pv'[r[i]]} :: 0 <= i < |r| && i != Succ(k, |r|) ==> pv'[r[i]] == pv[r[i]]
    ensures IsRing(r[..k] + r[k + 1..], nx', pv', neg)
    ensures Distinct(r[..k] + r[k + 1..])
  {
    var s := r[..k] + r[k + 1..];
    DistinctRemove(r, k);
    forall m | 0 <= m < |s|
      ensures 0 <= s[m] < |nx'| && s[m] < |pv'|
      ensures nx'[s[m]] == Link(s[Succ(m, |s|)], neg)
      ensures pv'[s[m]] == Link(s[Pred(m, |s|)], neg)
    {
      UnlinkStep(r, k, nx, pv, nx', pv', neg, m);
    }
  }

  lemma UnlinkAt(r: seq<int>, k: int, m: int)
    requires 0 <= k < |r| && 0 <= m < |r| - 1
    ensures (r[..k] + r[k + 1..])[m] == (if m < k then r[m] else r[m + 1])
  {
  }

  /** Where `s[m]` of the shortened ring sits in `r`, and where its neighbours sit. */
  function Skip(k: int, m: int): int
  {
    if m < k then m else m + 1
  }

  lemma UnlinkNeighbours(r: seq<int>, k: int, m: int)
    requires 0 <= k < |r| && |r| >= 2 && 0 <= m < |r| - 1
    ensures var n := |r|; var s := r[..k] + r[k + 1..]; var i := Skip(k, m);
      s[m] == r[i] && i != k &&
      s[Succ(m, |s|)] == r[if Succ(i, n) == k then Succ(k, n) else Succ(i, n)] &&
      s[Pred(m, |s|)] == r[if Pred(i, n) == k then Pred(k, n) else Pred(i, n)]
  {
    var n := |r|;
    var s := r[..k] + r[k + 1..];
    UnlinkAt(r, k, m);
    UnlinkAt(r, k, Succ(m, |s|));
    UnlinkAt(r, k, Pred(m, |s|));
  }

  lemma UnlinkStep(r: seq<int>, k: int, nx: seq<int>, pv: seq<int>, nx': seq<int>, pv': seq<int>, neg: bool, m: int)
    requires IsRing(r, nx, pv, neg) && Distinct(r)
    requires 0 <= k < |r| && |r| >= 2
    requires |nx'| == |nx| && |pv'| == |pv|
    requires nx'[r[Pred(k, |r|)]] == Link(r[Succ(k, |r|)], neg)
    requires pv'[r[Succ(k, |r|)]] == Link(r[Pred(k, |r|)], neg)
    requires forall i {:trigger nx'[r[i]]} :: 0 <= i < |r| && i != Pred(k, |r|) ==> nx'[r[i]] == nx[r[i]]
    requires forall i {:trigger pv'[r[i]]} :: 0 <= i < |r| && i != Succ(k, |r|) ==> pv'[r[i]] == pv[r[i]]
    requires 0 <= m < |r| - 1
    ensures var s := r[..k] + r[k + 1..];
      0 <= s[m] < |nx'| && s[m] < |pv'| &&
      nx'[s[m]] == Link(s[Succ(m, |s|)], neg) && pv'[s[m]] == Link(s[Pred(m, |s|)], neg)
  {
    var n := |r|;
    var i := Skip(k, m);
    UnlinkNeighbours(r, k, m);
    assert nx[r[i]] == Link(r[Succ(i, n)], neg);
    assert pv[r[i]] == Link(r[Pred(i, n)], neg);
    assert (Succ(i, n) == k) == (i == Pred(k, n));
    assert (Pred(i, n) == k) == (i == Succ(k, n));
  }

  /** Starting a ring at another member gives the same ring. */
  lemma RingRotate(r: seq<int>, k: int, nx: seq<int>, pv: seq<int>, neg: bool)
    requires IsRing(r, nx, pv, neg) && Distinct(r) && 0 <= k < |r|
    ensures IsRing(r[k..] + r[..k], nx, pv, neg)
    ensures Distinct(r[k..] + r[..k])
    ensures forall y :: y in r[k..] + r[..k] <==> y in r
  {
    var n := |r|;
    var s := r[k..] + r[..k];
    forall m | 0 <= m < n
      ensures 0 <= s[m] < |nx| && s[m] < |pv|
      ensures nx[s[m]] == Link(s[Succ(m, n)], neg)
      ensures pv[s[m]] == Link(s[Pred(m, n)], neg)
    {
      RotateStep(r, k, nx, pv, neg, m);
    }
    RotateDistinct(r, k);
    RotateMembers(r, k);
  }

  lemma RotateDistinct(r: seq<int>, k: int)
    requires Distinct(r) && 0 <= k < |r|
    ensures Distinct(r[k..] + r[..k])
  {
    var n, s := |r|, r[k..] + r[..k];
    forall a, b | 0 <= a < n && 0 <= b < n && a != b
      ensures s[a] != s[b]
    {
      RotateAt(r, k, a);
      RotateAt(r, k, b);
    }
  }

  lemma RotateMembers(r: seq<int>, k: int)
    requires 0 <= k < |r|
    ensures forall y :: y in r[k..] + r[..k] <==> y in r
  {
    var n, s := |r|, r[k..] + r[..k];
    forall y | y in r
      ensures y in s
    {
      var j :| 0 <= j < n && r[j] == y;
      if j >= k { RotateAt(r, k, j - k); } else { RotateAt(r, k, n - k + j); }
    }
  }

  lemma RotateStep(r: seq<int>, k: int, nx: seq<int>, pv: seq<int>, neg: bool, m: int)
    requires IsRing(r, nx, pv, neg) && 0 <= k < |r| && 0 <= m < |r|
    ensures var s := r[k..] + r[..k];
      0 <= s[m] < |nx| && s[m] < |pv| &&
      nx[s[m]] == Link(s[Succ(m, |r|)], neg) && pv[s[m]] == Link(s[Pred(m, |r|)], neg)
  {
    var n := |r|;
    RotateAt(r, k, m);
    RotateAt(r, k, Succ(m, n));
    RotateAt(r, k, Pred(m, n));
    var i := if m < n - k then m + k else m + k - n;
    assert nx[r[i]] == Link(r[Succ(i, n)], neg);
    assert pv[r[i]] == Link(r[Pred(i, n)], neg);
  }

  lemma RotateAt(r: seq<int>, k: int, m: int)
    requires 0 <= k < |r| && 0 <= m < |r|
    ensures (r[k..] + r[..k])[m] == (if m < |r| - k then r[m + k] else r[m + k - |r|])
  {
  }

  /** Distinct values drawn from `n` consecutive integers number at most `n`. */
  lemma {:induction false} DistinctBound(f: seq<int>, lo: int, n: nat)
    requires Distinct(f) && forall x :: x in f ==> lo <= x < lo + n
    ensures |f| <= n
    decreases n
  {
    if f == [] {
    } else if lo + n - 1 in f {
      var k := IndexOf(f, lo + n - 1);
      DistinctRemove(f, k);
      var g := f[..k] + f[k + 1..];
      forall x | x in g
        ensures lo <= x < lo + (n - 1)
      {
        assert x in f && x != lo + n - 1;
      }
      DistinctBound(g, lo, n - 1);
    } else {
      var x := f[0];
      assert x in f;
      assert lo <= x < lo + n;
      DistinctBound(f, lo, n - 1);
    }
  }
}
