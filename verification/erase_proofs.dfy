/**
 * What erase does to the keys of the standard trie.  Every slot erase gives
 * back joins its block's free ring, and a slot on a free ring reads as free
 * (a negative `check`), so erase only removes edges: it stores no key it
 * did not store before, changes no value, and the key it erases holds none
 * afterwards.
 */
module EraseProofs {
  import opened Bits
  import opened Outcomes
  import opened Rings
  import opened CedarState
  import opened AllocSpec
  import opened FreeRings
  import opened AllocProofs
  import opened Keys
  import opened Queries
  import Siblings

  /** Every slot whose base or check differs from `s` to `s'` is on one of the free rings `free'`. */
  ghost predicate FreedOnly(s: State, s': State, free': seq<seq<int>>)
  {
    |s'.base| == |s.base| && |s'.check| == |s.check| &&
    forall x | 0 <= x < |s.base| && 0 <= x < |s.check| && (s'.base[x] != s.base[x] || s'.check[x] != s.check[x]) ::
      0 <= BlockOf(x) < |free'| && x in free'[BlockOf(x)]
  }

  /** The free rings `free'` hold every slot the rings `free` held. */
  ghost predicate RingsGrow(free: seq<seq<int>>, free': seq<seq<int>>)
  {
    |free'| == |free| && forall b, x :: 0 <= b < |free| && x in free[b] ==> x in free'[b]
  }

  /** A slot on a free ring is not the root and reads as free. */
  lemma FreeSlotReads(s: State, lists: PerType<seq<int>>, free: seq<seq<int>>, x: int)
    requires AllocWF(s, lists, free) && 0 <= BlockOf(x) < |free| && x in free[BlockOf(x)]
    ensures x != 0 && In(x, s.check) && s.check[x] < 0
  {
    var b := BlockOf(x);
    var f := free[b];
    assert FreeRingOK(s, f, b);
    var k :| 0 <= k < |f| && f[k] == x;
    var n := f[Succ(k, |f|)];
    assert n in f;
    assert s.check[f[k]] == Link(n, true);
  }

  /** Changing only labels (`sibling`, `child`) keeps the allocator's invariant. */
  lemma LabelsOnlyKeeps(s: State, s': State, lists: PerType<seq<int>>, free: seq<seq<int>>)
    requires AllocWF(s, lists, free)
    requires s' == s.(sibling := s'.sibling, child := s'.child)
    requires |s'.sibling| == |s.sibling| && |s'.child| == |s.child|
    ensures AllocWF(s', lists, free)
  {
    ListsFields(s, s', lists);
    FreeFields(s, s', free);
    CountsAfter(s, s', lists, lists, 0);
  }

  /**
   * push_e_node on a well-formed allocator, giving back a slot that is in
   * use: the slot joins its free ring, nothing else leaves or joins one, and
   * only slots on the rings change their base or check.
   */
  lemma PushENodeJoinsRing(s: State, lists: PerType<seq<int>>, free: seq<seq<int>>, e: int, s': State)
    returns (lists': PerType<seq<int>>, free': seq<seq<int>>)
    requires AllocWF(s, lists, free) && In(e, s.check) && s.check[e] >= 0 && s.check[0] < 0
    requires PushENode(s, e) == Ok(s')
    ensures AllocWF(s', lists', free') && FreedOnly(s, s', free') && RingsGrow(free, free')
    ensures 0 <= BlockOf(e) < |free| && free' == free[BlockOf(e) := Inserted(free[BlockOf(e)], e)]
    ensures 0 <= BlockOf(e) < |free'| && e in free'[BlockOf(e)]
  {
    assert 0 <= BlockOf(e) < |free| by {
      assert s.Shape();
    }
    assert e !in free[BlockOf(e)] by {
      if e in free[BlockOf(e)] {
        FreeSlotReads(s, lists, free, e);
      }
    }
    lists', free' := PushENodeKeeps(s, lists, free, e);
    var b := BlockOf(e);
    assert FreeRingOK(s, free[b], b);
    InsertFreeRing(s, free[b], e);
    var s1 := InsertFree(s, e).value;
    PushRelinkNodes(s1, b);
    assert forall x :: x in [e] + free[b] ==> x in Inserted(free[b], e);
  }

  /** One round of erase on a well-formed allocator, giving back a slot that is in use, as push_e_node does. */
  lemma EraseStepJoinsRing(s: State, lists: PerType<seq<int>>, free: seq<seq<int>>, enc: Encoding, from: int, e: int, s': State, done: bool)
    returns (lists': PerType<seq<int>>, free': seq<seq<int>>)
    requires AllocWF(s, lists, free) && In(e, s.check) && s.check[e] >= 0 && s.check[0] < 0
    requires EraseStep(s, enc, from, e) == Ok((s', done))
    ensures AllocWF(s', lists', free') && FreedOnly(s, s', free') && RingsGrow(free, free')
    ensures 0 <= BlockOf(e) < |free| && free' == free[BlockOf(e) := Inserted(free[BlockOf(e)], e)]
    ensures 0 <= BlockOf(e) < |free'| && e in free'[BlockOf(e)]
  {
    var base := BaseOf(enc, s.base[from]);
    var ix := XorLabel(base, s.child[from]);
    var s1 := if s.sibling[ix] != 0 then Siblings.PopSibling(s, from, base, LabelBetween(base, e)).value else s;
    LabelsOnlyKeeps(s, s1, lists, free);
    lists', free' := PushENodeJoinsRing(s1, lists, free, e, s');
  }

  /** Push relinking a block moves no node. */
  lemma PushRelinkNodes(s: State, idx: int)
    requires PushRelink(s, idx).Ok?
    ensures PushRelink(s, idx).value.base == s.base && PushRelink(s, idx).value.check == s.check
  {
    if s.blocks.num[idx] == 1 {
      if idx != 0 {
        TransferOnlyRelinks(s, idx, Full, Closed, s.heads.closed == 0);
      }
    } else if (s.blocks.num[idx] == 2 || s.blocks.trial[idx] == s.maxTrial) && idx != 0 {
      TransferOnlyRelinks(s, idx, Closed, Open, s.heads.open == 0);
    }
  }

  /** `FreedOnly` composes when the rings only grow. */
  lemma FreedOnlyChains(s: State, s1: State, s2: State, free1: seq<seq<int>>, free2: seq<seq<int>>)
    requires FreedOnly(s, s1, free1) && FreedOnly(s1, s2, free2) && RingsGrow(free1, free2)
    ensures FreedOnly(s, s2, free2)
  {
  }

  /** The climb's outcome depends only on its arguments' values. */
  lemma SameClimb(s: State, enc: Encoding, from: int, e: int, fuel: nat, from': int, fuel': nat, s': State)
    requires EraseUp(s, enc, from, e, fuel) == Ok(s') && from' == from && fuel' == fuel
    ensures EraseUp(s, enc, from', e, fuel') == Ok(s')
  {
  }

  /**
   * A climb that ends in `s'` starts with a round of erase; unless that round
   * is the last, the climb goes on from the parent of `from` with less fuel.
   */
  lemma EraseUpStep(s: State, enc: Encoding, from: int, e: int, fuel: nat, s': State)
    returns (s2: State, done: bool, up: int, fuel': nat)
    requires EraseUp(s, enc, from, e, fuel) == Ok(s')
    ensures EraseStep(s, enc, from, e) == Ok((s2, done))
    ensures done ==> s2 == s'
    ensures !done ==> fuel' < fuel && In(from, s2.check) && up == s2.check[from] && In(up, s2.base)
    ensures !done ==> EraseUp(s2, enc, up, from, fuel') == Ok(s')
  {
    var r := EraseStep(s, enc, from, e).value;
    s2, done := r.0, r.1;
    up, fuel' := 0, 0;
    if done {
      ClimbEnds(s, enc, from, e, fuel, s2, s');
    } else {
      ClimbGoesOn(s, enc, from, e, fuel, s2, s');
      up, fuel' := s2.check[from], fuel - 1;
      SameClimb(s2, enc, s2.check[from], from, fuel - 1, up, fuel', s');
    }
  }

  /** A last round of the climb leaves the state the climb ends in. */
  lemma ClimbEnds(s: State, enc: Encoding, from: int, e: int, fuel: nat, s2: State, s': State)
    requires EraseUp(s, enc, from, e, fuel) == Ok(s') && EraseStep(s, enc, from, e) == Ok((s2, true))
    ensures s2 == s'
  {
  }

  /** After a round that is not the last, the climb goes on from the parent with less fuel. */
  lemma ClimbGoesOn(s: State, enc: Encoding, from: int, e: int, fuel: nat, s2: State, s': State)
    requires EraseUp(s, enc, from, e, fuel) == Ok(s') && EraseStep(s, enc, from, e) == Ok((s2, false))
    ensures fuel > 0 && In(from, s2.check) && In(s2.check[from], s2.base)
    ensures EraseUp(s2, enc, s2.check[from], from, fuel - 1) == Ok(s')
  {
  }

  /**
   * One round of erase's climb on a well-formed allocator: the slot given
   * back joins its free ring, and either the climb ends here or it goes on
   * from the parent, which reads as in use.
   */
  lemma EraseUpRound(s: State, lists: PerType<seq<int>>, free: seq<seq<int>>, enc: Encoding, from: int, e: int, fuel: nat, s': State)
    returns (s2: State, lists1: PerType<seq<int>>, free1: seq<seq<int>>, done: bool, up: int, fuel': nat)
    requires AllocWF(s, lists, free) && In(e, s.check) && s.check[e] >= 0 && s.check[0] < 0
    requires EraseUp(s, enc, from, e, fuel) == Ok(s')
    ensures AllocWF(s2, lists1, free1) && FreedOnly(s, s2, free1) && RingsGrow(free, free1)
    ensures 0 <= BlockOf(e) < |free1| && e in free1[BlockOf(e)]
    ensures done ==> s2 == s'
    ensures !done ==> fuel' < fuel && In(from, s2.check) && up == s2.check[from] && In(up, s2.base) && In(0, s2.check) && s2.check[0] < 0
    ensures !done ==> EraseUp(s2, enc, up, from, fuel') == Ok(s')
  {
    s2, done, up, fuel' := EraseUpStep(s, enc, from, e, fuel, s');
    lists1, free1 := EraseStepJoinsRing(s, lists, free, enc, from, e, s2, done);
    Unchanged(s, s2, lists1, free1, 0);
  }

  /**
   * erase's climb on a well-formed allocator, from a slot in use: every slot
   * given back joins a free ring, and no slot off the rings changes.
   */
  lemma EraseUpFrees(s: State, lists: PerType<seq<int>>, free: seq<seq<int>>, enc: Encoding, from: int, e: int, fuel: nat, s': State)
    returns (lists': PerType<seq<int>>, free': seq<seq<int>>)
    requires AllocWF(s, lists, free) && In(e, s.check) && s.check[e] >= 0 && s.check[0] < 0
    requires EraseUp(s, enc, from, e, fuel) == Ok(s')
    ensures AllocWF(s', lists', free') && FreedOnly(s, s', free') && RingsGrow(free, free')
    ensures 0 <= BlockOf(e) < |free'| && e in free'[BlockOf(e)]
  {
    var cur, fin, up, left;
    cur, lists', free', fin, up, left := EraseUpRound(s, lists, free, enc, from, e, fuel, s');
    var done, at, slot := fin, up, from;
    while !done
      invariant AllocWF(cur, lists', free') && FreedOnly(s, cur, free') && RingsGrow(free, free')
      invariant 0 <= BlockOf(e) < |free'| && e in free'[BlockOf(e)]
      invariant done ==> cur == s'
      invariant !done ==> In(slot, cur.check) && In(at, cur.base) && cur.check[slot] == at && cur.check[0] < 0
      invariant !done ==> EraseUp(cur, enc, at, slot, left) == Ok(s')
      decreases !done, left
    {
      var s2, lists1, free1, last, up', left' := EraseUpRound(cur, lists', free', enc, at, slot, left, s');
      FreedOnlyChains(s, cur, s2, free', free1);
      cur, lists', free', done := s2, lists1, free1, last;
      if !last {
        at, slot, left := up', at, left';
      }
    }
  }

  /**
   * When only slots on free rings change, the labels that lead from the root
   * to a node afterwards led there before: no edge is made.
   */
  lemma {:induction false} ReachKept(s: State, s': State, lists: PerType<seq<int>>, free': seq<seq<int>>, ls: seq<Byte>)
    requires AllocWF(s', lists, free') && FreedOnly(s, s', free')
    requires Reach(s', Standard, 0, ls).Some?
    ensures Reach(s, Standard, 0, ls) == Reach(s', Standard, 0, ls)
    ensures ls != [] ==> (var c := Reach(s', Standard, 0, ls).value; In(c, s'.check) && s'.check[c] >= 0)
    decreases |ls|
  {
    if ls != [] {
      var init := ls[..|ls| - 1];
      ReachKept(s, s', lists, free', init);
      var u := Reach(s', Standard, 0, init).value;
      Unchanged(s, s', lists, free', u);
      var to := XorLabel(s'.base[u], ls[|ls| - 1]);
      Unchanged(s, s', lists, free', to);
    }
  }

  /** A slot that reads as in use (or is the root) after the change is one the change left alone. */
  lemma Unchanged(s: State, s': State, lists: PerType<seq<int>>, free': seq<seq<int>>, x: int)
    requires AllocWF(s', lists, free') && FreedOnly(s, s', free')
    requires In(x, s'.base) && In(x, s'.check) && (x == 0 || s'.check[x] >= 0)
    ensures In(x, s.base) && In(x, s.check) && s.base[x] == s'.base[x] && s.check[x] == s'.check[x]
  {
    if s'.base[x] != s.base[x] || s'.check[x] != s.check[x] {
      FreeSlotReads(s', lists, free', x);
    }
  }

  /**
   * The standard trie's erase(key), on a well-formed allocator whose root
   * reads as in no block's free ring: afterwards the key holds no value, and
   * every key that holds one held the same value before.
   */
  lemma EraseForgets(s: State, lists: PerType<seq<int>>, free: seq<seq<int>>, key: seq<Byte>)
    returns (lists': PerType<seq<int>>, free': seq<seq<int>>)
    requires AllocWF(s, lists, free) && In(0, s.check) && s.check[0] < 0
    requires Erase(s, Standard, key).Ok?
    ensures var (s', _) := Erase(s, Standard, key).value;
      Stored(s', key) == None &&
      forall k :: Stored(s', k).Some? ==> Stored(s, k) == Stored(s', k)
  {
    var s', r, from := EraseSteps(s, key);
    FindMeans(s, key);
    if !r.Found? {
      lists', free' := lists, free;
      StoredAbsent(s, key);
    } else {
      var t := s.base[from];
      lists', free' := EraseUpFrees(s, lists, free, Standard, from, t, |s.check|, s');
      forall k | Stored(s', k).Some?
        ensures Stored(s, k) == Stored(s', k)
      {
        StoredKept(s, s', lists', free', k);
      }
      ErasedKeyGone(s, s', lists', free', key, from);
    }
  }

  /** The standard trie's erase(key) is find, then, when the key holds a value, the climb from its node. */
  lemma EraseSteps(s: State, key: seq<Byte>) returns (s': State, r: Lookup, from: int)
    requires Erase(s, Standard, key).Ok?
    ensures Erase(s, Standard, key).value == (s', r)
    ensures Find(s, Standard, key, 0, 0, |key|) == Ok((r, from))
    ensures !r.Found? ==> s' == s
    ensures r.Found? ==> In(from, s.base) && EraseUp(s, Standard, from, s.base[from], |s.check|) == Ok(s')
  {
    var p := Erase(s, Standard, key).value;
    s', r := p.0, p.1;
    from := Find(s, Standard, key, 0, 0, |key|).value.1;
  }

  /** Once the terminal of the key's node is on a free ring, the key holds no value. */
  lemma ErasedKeyGone(s: State, s': State, lists: PerType<seq<int>>, free': seq<seq<int>>, key: seq<Byte>, from: int)
    requires AllocWF(s', lists, free') && FreedOnly(s, s', free')
    requires Reach(s, Standard, 0, key) == Some(from) && In(from, s.base)
    requires 0 <= BlockOf(s.base[from]) < |free'| && s.base[from] in free'[BlockOf(s.base[from])]
    ensures Stored(s', key) == None
  {
    if Stored(s', key).Some? {
      ReachKept(s, s', lists, free', key);
      StoredKept(s, s', lists, free', key);
      FreeSlotReads(s', lists, free', s.base[from]);
    }
  }

  /**
   * The root's chain of children starts at slot 0, the root itself, with the
   * fake label 0; while that chain links on to a real child, a round of erase
   * at the root ends the walk there, so erasing the last key never climbs
   * past the root.
   */
  lemma EraseStopsAtRoot(s: State, enc: Encoding, e: int)
    requires In(0, s.base) && In(0, s.child) && XorLabel(BaseOf(enc, s.base[0]), s.child[0]) == 0
    requires In(0, s.sibling) && s.sibling[0] != 0
    requires EraseStep(s, enc, 0, e).Ok?
    ensures EraseStep(s, enc, 0, e).value.1
  {
    EraseStepFrees(s, enc, 0, e);
  }

  /** A key for which find reports no value holds none. */
  lemma StoredAbsent(s: State, key: seq<Byte>)
    requires Find(s, Standard, key, 0, 0, |key|).Ok? && !Find(s, Standard, key, 0, 0, |key|).value.0.Found?
    ensures Stored(s, key) == None
  {
    FindMeans(s, key);
  }

  /** A key that holds a value after the change held the same one before, in a slot the change left alone. */
  lemma StoredKept(s: State, s': State, lists: PerType<seq<int>>, free': seq<seq<int>>, k: seq<Byte>)
    requires AllocWF(s', lists, free') && FreedOnly(s, s', free')
    requires Stored(s', k).Some?
    ensures Stored(s, k) == Stored(s', k)
    ensures var c := Reach(s', Standard, 0, k).value; s.base[c] == s'.base[c] && s.check[s.base[c]] == c
  {
    ReachKept(s, s', lists, free', k);
    var c := Reach(s', Standard, 0, k).value;
    Unchanged(s, s', lists, free', c);
    var t := s'.base[c];
    Unchanged(s, s', lists, free', t);
  }
}
