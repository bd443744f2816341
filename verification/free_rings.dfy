/**
 * The free slots of each block.  A free slot's node stores its free-ring
 * neighbours negated (`base = -prev`, `check = -next`), the block record's
 * `num` counts the ring's members and its `head` is the ring's first member.
 * Slot 0, the root, is never free.
 */
module FreeRings {
  import opened Outcomes
  import opened Rings
  import opened CedarState
  import opened AllocSpec

  /** Block `b`'s free slots, from its first on, are `f`, a well-linked ring counted by `num`. */
  ghost predicate FreeRingOK(s: State, f: seq<int>, b: int)
  {
    In(b, s.blocks.num) && In(b, s.blocks.head) &&
    |f| == s.blocks.num[b] && IsRing(f, s.check, s.base, true) && Distinct(f) &&
    (forall x :: x in f ==> BlockOf(x) == b && x != 0) &&
    (f != [] ==> s.blocks.head[b] == f[0])
  }

  /** Every handed-out block `b` has free ring `free[b]`. */
  ghost predicate FreeWF(s: State, free: seq<seq<int>>)
  {
    s.Shape() && |free| == s.size / 256 &&
    forall b :: 0 <= b < |free| ==> FreeRingOK(s, free[b], b)
  }

  /** `s'` differs from `s` at most in the node columns and in block `b`'s count and first free slot. */
  ghost predicate SlotsOnly(s: State, s': State, b: int)
  {
    s' == s.(base := s'.base, check := s'.check, blocks := s.blocks.(num := s'.blocks.num, head := s'.blocks.head)) &&
    |s'.base| == |s.base| && |s'.check| == |s.check| &&
    |s'.blocks.num| == |s.blocks.num| && |s'.blocks.head| == |s.blocks.head| &&
    (forall c :: 0 <= c < |s.blocks.num| && c != b ==> s'.blocks.num[c] == s.blocks.num[c]) &&
    (forall c :: 0 <= c < |s.blocks.head| && c != b ==> s'.blocks.head[c] == s.blocks.head[c])
  }

  /** Every node outside `r` keeps its `base` and `check` from `s` to `s'`. */
  ghost predicate NodesKept(s: State, s': State, r: seq<int>)
    requires |s'.base| == |s.base| && |s'.check| == |s.check|
  {
    forall x :: 0 <= x < |s.base| && 0 <= x < |s.check| && x !in r ==> s'.base[x] == s.base[x] && s'.check[x] == s.check[x]
  }

  /** The free ring after push_e_node gives back slot `e`: `e` alone, or `e` right after the first member. */
  ghost function Inserted(f: seq<int>, e: int): (r: seq<int>)
    ensures |r| == |f| + 1
  {
    if f == [] then [e] else [f[0], e] + f[1..]
  }

  /**
   * pop_e_node's free-list writes take a free slot `e` out of its block's
   * ring: the count drops by one, the ring closes over the gap and the first
   * free slot moves on when it was `e`; no other node changes.
   */
  lemma RemoveFreeRing(s: State, f: seq<int>, e: int)
    requires FreeRingOK(s, f, BlockOf(e)) && e in f
    ensures RemoveFree(s, e).Ok?
    ensures var s' := RemoveFree(s, e).value;
      FreeRingOK(s', Remove(f, e), BlockOf(e)) && SlotsOnly(s, s', BlockOf(e)) && NodesKept(s, s', f) &&
      s'.blocks.num[BlockOf(e)] == s.blocks.num[BlockOf(e)] - 1
  {
    var k := IndexOf(f, e);
    RemoveAt(f, k);
    if |f| == 1 {
      assert Remove(f, e) == [];
    } else {
      RemoveInner(s, f, k);
    }
  }

  /** The state RemoveFree leaves when `f[k]` has a neighbour on its ring: the neighbours' links close over it. */
  lemma RemoveInnerState(s: State, f: seq<int>, k: int) returns (s': State)
    requires 0 <= k < |f| && |f| >= 2 && FreeRingOK(s, f, BlockOf(f[k]))
    ensures var n, b := |f|, BlockOf(f[k]);
      var p, q := f[Pred(k, n)], f[Succ(k, n)];
      In(p, s.check) && In(q, s.base) && In(b, s.blocks.num) && In(b, s.blocks.head) &&
      s' == s.(check := s.check[p := -q], base := s.base[q := -p],
               blocks := s.blocks.(num := s.blocks.num[b := s.blocks.num[b] - 1],
                                   head := if k == 0 then s.blocks.head[b := q] else s.blocks.head)) &&
      RemoveFree(s, f[k]) == Ok(s')
  {
    var n, b := |f|, BlockOf(f[k]);
    var p, q := f[Pred(k, n)], f[Succ(k, n)];
    assert s.base[f[k]] == -p && s.check[f[k]] == -q;
    assert (f[k] == s.blocks.head[b]) == (k == 0);
    s' := RemoveFree(s, f[k]).value;
  }

  /** RemoveFreeRing for a ring with another member besides `f[k]`. */
  lemma RemoveInner(s: State, f: seq<int>, k: int)
    requires 0 <= k < |f| && |f| >= 2 && FreeRingOK(s, f, BlockOf(f[k]))
    ensures RemoveFree(s, f[k]).Ok?
    ensures var s' := RemoveFree(s, f[k]).value; var b := BlockOf(f[k]);
      FreeRingOK(s', f[..k] + f[k + 1..], b) && SlotsOnly(s, s', b) && NodesKept(s, s', f) &&
      s'.blocks.num[b] == s.blocks.num[b] - 1
  {
    var s' := RemoveInnerState(s, f, k);
    UnlinkFree(f, k, s.check, s.base, s'.check, s'.base);
    var b := BlockOf(f[k]);
    var g := f[..k] + f[k + 1..];
    assert |g| == s'.blocks.num[b];
    forall x | x in g
      ensures BlockOf(x) == b && x != 0
    {
      assert x in f;
    }
    assert g != [] ==> s'.blocks.head[b] == g[0];
  }

  /** The two writes that close a free ring over `r[k]`. */
  lemma UnlinkFree(r: seq<int>, k: int, nx: seq<int>, pv: seq<int>, nx': seq<int>, pv': seq<int>)
    requires IsRing(r, nx, pv, true) && Distinct(r) && 0 <= k < |r| && |r| >= 2
    requires nx' == nx[r[Pred(k, |r|)] := -r[Succ(k, |r|)]] && pv' == pv[r[Succ(k, |r|)] := -r[Pred(k, |r|)]]
    ensures IsRing(r[..k] + r[k + 1..], nx', pv', true) && Distinct(r[..k] + r[k + 1..])
    ensures forall x :: 0 <= x < |nx| && x !in r ==> nx'[x] == nx[x]
    ensures forall x :: 0 <= x < |pv| && x !in r ==> pv'[x] == pv[x]
    ensures forall y :: y in r[..k] + r[k + 1..] <==> y in r && y != r[k]
  {
    UnlinkWrites(r, k, nx, pv, nx', pv');
    RingUnlink(r, k, nx, pv, nx', pv', true);
    DistinctRemove(r, k);
  }

  /** The two writes that close a free ring over `r[k]` touch only its neighbours. */
  lemma UnlinkWrites(r: seq<int>, k: int, nx: seq<int>, pv: seq<int>, nx': seq<int>, pv': seq<int>)
    requires Distinct(r) && 0 <= k < |r| && |r| >= 2 && InColumns(r, nx, pv)
    requires nx' == nx[r[Pred(k, |r|)] := -r[Succ(k, |r|)]] && pv' == pv[r[Succ(k, |r|)] := -r[Pred(k, |r|)]]
    ensures forall i {:trigger nx'[r[i]]} :: 0 <= i < |r| && i != Pred(k, |r|) ==> nx'[r[i]] == nx[r[i]]
    ensures forall i {:trigger pv'[r[i]]} :: 0 <= i < |r| && i != Succ(k, |r|) ==> pv'[r[i]] == pv[r[i]]
  {
  }

  /**
   * push_e_node's free-list writes give slot `e`, not free, back to its
   * block's ring: the count rises by one, `e` becomes the only member or
   * the one right after the first, and no node outside the ring and `e`
   * changes.
   */
  lemma InsertFreeRing(s: State, f: seq<int>, e: int)
    requires FreeRingOK(s, f, BlockOf(e)) && e !in f && e != 0 && In(e, s.base) && |s.check| == |s.base|
    ensures InsertFree(s, e).Ok?
    ensures var s' := InsertFree(s, e).value; var b := BlockOf(e);
      FreeRingOK(s', Inserted(f, e), b) && SlotsOnly(s, s', b) && NodesKept(s, s', [e] + f) &&
      s'.blocks.num[b] == s.blocks.num[b] + 1
  {
    if f == [] {
      var s' := InsertFree(s, e).value;
      RingSingle(e, s'.check, s'.base, true);
    } else {
      InsertAfterHead(s, f, e);
    }
  }

  /** InsertFreeRing for a block that still had a free slot. */
  lemma InsertAfterHead(s: State, f: seq<int>, e: int)
    requires FreeRingOK(s, f, BlockOf(e)) && f != [] && e !in f && In(e, s.base) && |s.check| == |s.base|
    ensures InsertFree(s, e).Ok?
    ensures var s' := InsertFree(s, e).value; var b := BlockOf(e);
      IsRing(Inserted(f, e), s'.check, s'.base, true) && Distinct(Inserted(f, e)) &&
      s'.blocks.head[b] == f[0] && SlotsOnly(s, s', b) && NodesKept(s, s', [e] + f) &&
      s'.blocks.num[b] == s.blocks.num[b] + 1
  {
    assert s.check[f[0]] == -f[Succ(0, |f|)];
    var s' := InsertFree(s, e).value;
    LinkFree(f, e, s.check, s.base, s'.check, s'.base);
  }

  /** The four writes that link `x` into a free ring right after its first member. */
  lemma LinkFree(r: seq<int>, x: int, nx: seq<int>, pv: seq<int>, nx': seq<int>, pv': seq<int>)
    requires IsRing(r, nx, pv, true) && Distinct(r) && x !in r && |r| >= 1
    requires 0 <= x < |nx| && |pv| == |nx|
    requires var next := r[Succ(0, |r|)];
      nx' == nx[x := -next][r[0] := -x] && pv' == pv[x := -r[0]][next := -x]
    ensures IsRing(Inserted(r, x), nx', pv', true) && Distinct(Inserted(r, x))
    ensures forall y :: 0 <= y < |nx| && y != x && y !in r ==> nx'[y] == nx[y] && pv'[y] == pv[y]
  {
    if |r| == 1 {
      LinkPair(r, x, nx, pv, nx', pv');
    } else {
      LinkInner(r, x, nx, pv, nx', pv');
    }
  }

  lemma LinkPair(r: seq<int>, x: int, nx: seq<int>, pv: seq<int>, nx': seq<int>, pv': seq<int>)
    requires IsRing(r, nx, pv, true) && x !in r && |r| == 1
    requires 0 <= x < |nx| && |pv| == |nx|
    requires nx' == nx[x := -r[0]][r[0] := -x] && pv' == pv[x := -r[0]][r[0] := -x]
    ensures IsRing(Inserted(r, x), nx', pv', true) && Distinct(Inserted(r, x))
  {
    var t := Inserted(r, x);
    assert t == [r[0], x];
    assert nx'[t[0]] == -t[1] && nx'[t[1]] == -t[0];
    assert pv'[t[0]] == -t[1] && pv'[t[1]] == -t[0];
    assert InColumns(t, nx', pv');
  }

  lemma LinkInner(r: seq<int>, x: int, nx: seq<int>, pv: seq<int>, nx': seq<int>, pv': seq<int>)
    requires IsRing(r, nx, pv, true) && Distinct(r) && x !in r && |r| >= 2
    requires 0 <= x < |nx| && |pv| == |nx|
    requires nx' == nx[x := -r[1]][r[0] := -x] && pv' == pv[x := -r[0]][r[1] := -x]
    ensures IsRing(Inserted(r, x), nx', pv', true) && Distinct(Inserted(r, x))
  {
    LinkInnerFrame(r, x, nx, pv, nx', pv');
    RingInsert(r, 1, x, nx, pv, nx', pv', true);
    assert r[..1] + [x] + r[1..] == Inserted(r, x);
  }

  lemma LinkInnerFrame(r: seq<int>, x: int, nx: seq<int>, pv: seq<int>, nx': seq<int>, pv': seq<int>)
    requires x !in r && |r| >= 2 && Distinct(r)
    requires 0 <= x < |nx| && |pv| == |nx| && InColumns(r, nx, pv)
    requires nx' == nx[x := -r[1]][r[0] := -x] && pv' == pv[x := -r[0]][r[1] := -x]
    ensures forall k {:trigger nx'[r[k]]} :: 0 <= k < |r| && k != 0 ==> nx'[r[k]] == nx[r[k]]
    ensures forall k {:trigger pv'[r[k]]} :: 0 <= k < |r| && k != 1 ==> pv'[r[k]] == pv[r[k]]
  {
  }

  /** Writes confined to block `b`'s own slots and record leave every other block's free ring as it was. */
  lemma OtherRings(s: State, s': State, free: seq<seq<int>>, b: int, touched: seq<int>)
    requires FreeWF(s, free) && SlotsOnly(s, s', b) && NodesKept(s, s', touched)
    requires forall x :: x in touched ==> BlockOf(x) == b
    ensures s'.Shape() && s'.size == s.size
    ensures forall c :: 0 <= c < |free| && c != b ==> FreeRingOK(s', free[c], c)
  {
    forall c | 0 <= c < |free| && c != b
      ensures FreeRingOK(s', free[c], c)
    {
      var f := free[c];
      assert FreeRingOK(s, f, c);
      forall x | x in f
        ensures x !in touched
      {
        assert BlockOf(x) == c;
      }
      RingFrame(f, s.check, s.base, s'.check, s'.base, true);
    }
  }

  /** A step that leaves the node columns, the counts, the first free slots and `size` alone keeps the free rings. */
  lemma FreeFields(s: State, s': State, free: seq<seq<int>>)
    requires FreeWF(s, free) && s'.Shape()
    requires s'.base == s.base && s'.check == s.check && s'.blocks.num == s.blocks.num && s'.blocks.head == s.blocks.head
    requires s'.size == s.size
    ensures FreeWF(s', free)
  {
    assert forall b :: 0 <= b < |free| ==> FreeRingOK(s, free[b], b);
  }

  /** RemoveFree on a well-formed trie: block `b`'s ring loses free slot `e`, every other ring stays. */
  lemma RemoveFreeKeeps(s: State, free: seq<seq<int>>, e: int)
    requires FreeWF(s, free) && 0 <= BlockOf(e) < |free| && e in free[BlockOf(e)]
    ensures RemoveFree(s, e).Ok?
    ensures var s' := RemoveFree(s, e).value; var b := BlockOf(e);
      FreeWF(s', free[b := Remove(free[b], e)]) && SlotsOnly(s, s', b) &&
      s'.blocks.num[b] == s.blocks.num[b] - 1
  {
    var b := BlockOf(e);
    assert FreeRingOK(s, free[b], b);
    RemoveFreeRing(s, free[b], e);
    var s' := RemoveFree(s, e).value;
    OtherRings(s, s', free, b, free[b]);
  }

  /** InsertFree on a well-formed trie, for a handed-out slot other than the root that is not free. */
  lemma InsertFreeKeeps(s: State, free: seq<seq<int>>, e: int)
    requires FreeWF(s, free) && 0 < e < s.size && e !in free[BlockOf(e)]
    ensures InsertFree(s, e).Ok?
    ensures var s' := InsertFree(s, e).value; var b := BlockOf(e);
      FreeWF(s', free[b := Inserted(free[b], e)]) && SlotsOnly(s, s', b) &&
      s'.blocks.num[b] == s.blocks.num[b] + 1
  {
    var b := BlockOf(e);
    assert FreeRingOK(s, free[b], b);
    InsertFreeRing(s, free[b], e);
    var s' := InsertFree(s, e).value;
    OtherRings(s, s', free, b, [e] + free[b]);
  }
}
