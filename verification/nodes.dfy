/**
 * pop_e_node: a free slot becomes a node.  The slot is `base ^ label` under a
 * parent that already has a base, else the slot find_place offers; it leaves
 * its block's free ring (`TakeSlot`), gets `check = from` and a fresh base,
 * and a parent without a base gets one that leads to the slot by `label`.
 * Both tries share the steps and differ only in the bases written.
 */
module Nodes {
  import opened Bits
  import opened Outcomes
  import opened Rings
  import opened CedarState
  import opened AllocSpec
  import opened BlockLists
  import opened FreeRings
  import opened AllocProofs
  import opened AddBlockProofs

  /** The base a new node starts with: -1 for an inner node and 0 for a terminal in the standard trie, `VALUE_LIMIT` in the reduced one. */
  function FreshBase(enc: Encoding, lab: Byte): int
  {
    if enc == Reduced then VALUE_LIMIT else if lab != 0 then -1 else 0
  }

  /** What a parent whose first child goes to slot `e` by `label` stores as its base: `e ^ label`, as `-(e ^ label) - 1` in the reduced trie. */
  function LinkBase(enc: Encoding, e: int, lab: Byte): int
  {
    if enc == Standard then XorLabel(e, lab) else -XorLabel(e, lab) - 1
  }

  /** The slot pop_e_node takes: `base ^ label` under a parent with a base, else the one find_place offers. */
  function Target(s: State, base: int, lab: Byte): Result<(State, int)>
  {
    if base < 0 then FindPlace(s) else Ok((s, XorLabel(base, lab)))
  }

  /**
   * pop_e_node's writes to the nodes, once slot `e` has left its free ring:
   * `e` gets `check = from` and a fresh base, and a parent without a base
   * gets `parent`.
   */
  function Claim(s: State, enc: Encoding, base: int, lab: Byte, from: int, e: int, parent: int): Result<State>
  {
    if !In(e, s.base) || !In(e, s.check) || (base < 0 && !In(from, s.base)) then Err(OutOfBounds)
    else
      var s1 := s.(base := s.base[e := FreshBase(enc, lab)], check := s.check[e := from]);
      Ok(if base < 0 then s1.(base := s1.base[from := parent]) else s1)
  }

  /**
   * pop_e_node(base, label, from), with the parent's new base written as
   * `-(e ^ i32(label)) - 1` when `signExtended` holds: the reduced trie's
   * code sign-extends the label there.
   */
  function PopENodeBy(s: State, enc: Encoding, base: int, lab: Byte, from: int, signExtended: bool): Result<(State, int)>
  {
    var (s1, e) :- Target(s, base, lab);
    var s2 :- TakeSlot(s1, e);
    var parent := if signExtended then -XorSignExtended(e, lab) - 1 else LinkBase(enc, e, lab);
    var s3 :- Claim(s2, enc, base, lab, from, e, parent);
    Ok((s3, e))
  }

  /** pop_e_node of either trie, with the label read as an unsigned byte throughout. */
  function PopENode(s: State, enc: Encoding, base: int, lab: Byte, from: int): Result<(State, int)>
  {
    PopENodeBy(s, enc, base, lab, from, false)
  }

  /** The reduced trie's pop_e_node as its code stands, sign-extending the label in the parent's new base. */
  function PopENodeReducedAsWritten(s: State, base: int, lab: Byte, from: int): Result<(State, int)>
  {
    PopENodeBy(s, Reduced, base, lab, from, true)
  }

  /** The slot pop_e_node takes and the state it ends in, named. */
  lemma PopENodeSteps(s: State, enc: Encoding, base: int, lab: Byte, from: int, signExtended: bool)
    returns (s2: State, e: int)
    requires PopENodeBy(s, enc, base, lab, from, signExtended).Ok?
    ensures Target(s, base, lab).Ok? && e == Target(s, base, lab).value.1
    ensures TakeSlot(Target(s, base, lab).value.0, e) == Ok(s2)
    ensures var parent := if signExtended then -XorSignExtended(e, lab) - 1 else LinkBase(enc, e, lab);
      Claim(s2, enc, base, lab, from, e, parent).Ok? &&
      PopENodeBy(s, enc, base, lab, from, signExtended) == Ok((Claim(s2, enc, base, lab, from, e, parent).value, e))
  {
    e := Target(s, base, lab).value.1;
    s2 := TakeSlot(Target(s, base, lab).value.0, e).value;
  }

  /** Claim's writes: `e` owned by `from` with the fresh base, and `parent` as the base of a parent that had none. */
  lemma ClaimWrites(s: State, enc: Encoding, base: int, lab: Byte, from: int, e: int, parent: int, s': State)
    requires Claim(s, enc, base, lab, from, e, parent) == Ok(s')
    ensures In(e, s'.check) && s'.check[e] == from
    ensures base < 0 ==> In(from, s'.base) && s'.base[from] == parent
    ensures base >= 0 || from != e ==> s'.base[e] == FreshBase(enc, lab)
  {
  }

  /**
   * The new node is owned by `from` and starts with the fresh base; it sits
   * at `base ^ label` when the parent had a base, and otherwise the parent's
   * new base leads to it by `label`.
   */
  lemma PopENodeLinks(s: State, enc: Encoding, base: int, lab: Byte, from: int, s': State, e: int)
    requires PopENode(s, enc, base, lab, from) == Ok((s', e))
    ensures In(e, s'.check) && s'.check[e] == from
    ensures base >= 0 ==> e == XorLabel(base, lab)
    ensures base < 0 ==> In(from, s'.base) && XorLabel(BaseOf(enc, s'.base[from]), lab) == e
    ensures base >= 0 || from != e ==> s'.base[e] == FreshBase(enc, lab)
  {
    var s2, e0 := PopENodeSteps(s, enc, base, lab, from, false);
    ClaimWrites(s2, enc, base, lab, from, e, LinkBase(enc, e, lab), s');
    XorLabelCancel(e, lab);
  }

  /**
   * As written, the reduced trie gives a parent whose first child has a label
   * of 128 or more a base that is not negative, which every reader of the
   * reduced trie takes for a leaf holding a value: the child just added is
   * lost.  With the label read unsigned the parent's base stays negative.
   */
  lemma PopENodeReducedSignExtends(s: State, base: int, lab: Byte, from: int)
    requires base < 0 && lab >= 128
    requires PopENodeReducedAsWritten(s, base, lab, from).Ok?
    requires PopENodeReducedAsWritten(s, base, lab, from).value.1 >= 0
    ensures var (s', e) := PopENodeReducedAsWritten(s, base, lab, from).value;
      In(from, s'.base) && s'.base[from] >= 0 && XorLabel(BaseOf(Reduced, s'.base[from]), lab) != e
  {
    var s2, e := PopENodeSteps(s, Reduced, base, lab, from, true);
  }

  /** With the label read unsigned, a reduced parent given a base by pop_e_node has a negative base, the mark of a node with children. */
  lemma PopENodeReducedLinks(s: State, base: int, lab: Byte, from: int)
    requires base < 0
    requires PopENode(s, Reduced, base, lab, from).Ok?
    requires PopENode(s, Reduced, base, lab, from).value.1 >= 0
    ensures var (s', e) := PopENode(s, Reduced, base, lab, from).value;
      In(from, s'.base) && s'.base[from] < 0 && XorLabel(BaseOf(Reduced, s'.base[from]), lab) == e
  {
    var s2, e := PopENodeSteps(s, Reduced, base, lab, from, false);
    XorLabelCancel(e, lab);
  }

  /** Slot `x` is on no free ring. */
  ghost predicate InUse(free: seq<seq<int>>, x: int)
  {
    0 <= BlockOf(x) < |free| ==> x !in free[BlockOf(x)]
  }

  /** Writing the base and check of a slot that is on no free ring keeps the allocator's invariant. */
  lemma NodeWriteKeeps(s: State, lists: PerType<seq<int>>, free: seq<seq<int>>, x: int, b: int, c: int)
    requires AllocWF(s, lists, free) && 0 <= x < s.size && InUse(free, x)
    ensures AllocWF(s.(base := s.base[x := b], check := s.check[x := c]), lists, free)
  {
    var s' := s.(base := s.base[x := b], check := s.check[x := c]);
    ListsFields(s, s', lists);
    forall r | 0 <= r < |free|
      ensures FreeRingOK(s', free[r], r)
    {
      assert FreeRingOK(s, free[r], r);
      var f := free[r];
      forall k | 0 <= k < |f|
        ensures s'.check[f[k]] == s.check[f[k]] && s'.base[f[k]] == s.base[f[k]]
      {
        assert f[k] in f;
      }
      RingFrame(f, s.check, s.base, s'.check, s'.base, true);
    }
  }

  /** pop_e_node's writes to two slots on no free ring keep the allocator's invariant. */
  lemma ClaimKeeps(s: State, lists: PerType<seq<int>>, free: seq<seq<int>>, enc: Encoding, base: int, lab: Byte, from: int, e: int, parent: int)
    requires AllocWF(s, lists, free) && 0 <= from < s.size && InUse(free, from) && 0 <= e < s.size && InUse(free, e)
    ensures Claim(s, enc, base, lab, from, e, parent).Ok?
    ensures AllocWF(Claim(s, enc, base, lab, from, e, parent).value, lists, free)
  {
    NodeWriteKeeps(s, lists, free, e, FreshBase(enc, lab), from);
    var s1 := s.(base := s.base[e := FreshBase(enc, lab)], check := s.check[e := from]);
    if base < 0 {
      NodeWriteKeeps(s1, lists, free, from, parent, s1.check[from]);
      assert s1.check[from := s1.check[from]] == s1.check;
    }
  }

  /**
   * pop_e_node taking a free slot under a parent that has a base leaves the
   * parent's base and check alone: only the slot and its free-ring
   * neighbours are written, and the parent is on no free ring.
   */
  lemma PopENodeKeepsParent(s: State, lists: PerType<seq<int>>, free: seq<seq<int>>, enc: Encoding, base: int, lab: Byte, from: int)
    requires AllocWF(s, lists, free) && 0 <= from < s.size && InUse(free, from)
    requires base >= 0 && 0 <= BlockOf(XorLabel(base, lab)) < |free| && XorLabel(base, lab) in free[BlockOf(XorLabel(base, lab))]
    ensures PopENode(s, enc, base, lab, from).Ok?
    ensures var (s', e) := PopENode(s, enc, base, lab, from).value;
      e != from && In(from, s'.base) && In(from, s'.check) &&
      s'.base[from] == s.base[from] && s'.check[from] == s.check[from]
  {
    var lists', free' := PopENodeKeeps(s, lists, free, enc, base, lab, from);
    var e := XorLabel(base, lab);
    var b := BlockOf(e);
    assert FreeRingOK(s, free[b], b);
    assert from !in free[b] by {
      if BlockOf(from) != b {
        assert forall x :: x in free[b] ==> BlockOf(x) == b;
      }
    }
    RemoveFreeRing(s, free[b], e);
    var s1 := RemoveFree(s, e).value;
    assert s1.base[from] == s.base[from] && s1.check[from] == s.check[from];
    var s2, e0 := PopENodeSteps(s, enc, base, lab, from, false);
    PopRelinkNodes(s1, b);
  }

  /** The slot pop_e_node takes is never the parent's own: the parent is in use. */
  lemma PopENodeOther(s: State, lists: PerType<seq<int>>, free: seq<seq<int>>, enc: Encoding, base: int, lab: Byte, from: int)
    requires AllocWF(s, lists, free) && 0 <= from < s.size && InUse(free, from)
    requires base >= 0 ==> 0 <= BlockOf(XorLabel(base, lab)) < |free| && XorLabel(base, lab) in free[BlockOf(XorLabel(base, lab))]
    ensures PopENode(s, enc, base, lab, from).Ok?
    ensures PopENode(s, enc, base, lab, from).value.1 != from
  {
    var lists', free' := PopENodeKeeps(s, lists, free, enc, base, lab, from);
    var lists1, free1 := TargetFree(s, lists, free, base, lab);
    var e := Target(s, base, lab).value.1;
    var s2, e0 := PopENodeSteps(s, enc, base, lab, from, false);
    assert BlockOf(from) < |free| by {
      assert s.Shape();
    }
    assert free1[BlockOf(from)] == free[BlockOf(from)];
  }

  /** Moving a block between lists touches no node. */
  lemma PopRelinkNodes(s: State, idx: int)
    requires PopRelink(s, idx).Ok?
    ensures PopRelink(s, idx).value.base == s.base && PopRelink(s, idx).value.check == s.check
  {
    if s.blocks.num[idx] == 0 && idx != 0 {
      TransferNodes(s, idx, Closed, Full, s.heads.full == 0);
    } else if idx != 0 && s.blocks.num[idx] == 1 && s.blocks.trial[idx] != s.maxTrial {
      TransferNodes(s, idx, Open, Closed, s.heads.closed == 0);
    }
  }

  lemma TransferNodes(s: State, idx: int, from: BlockType, to: BlockType, toEmpty: bool)
    requires TransferBlock(s, idx, from, to, toEmpty).Ok?
    ensures TransferBlock(s, idx, from, to, toEmpty).value.base == s.base
    ensures TransferBlock(s, idx, from, to, toEmpty).value.check == s.check
  {
    var s1 := PopBlock(s, idx, from, idx == s.blocks.next[idx]).value;
    assert s1.base == s.base && s1.check == s.check;
  }

  /** The slot pop_e_node takes is free, on a well-formed allocator, when the parent has no base. */
  lemma TargetFree(s: State, lists: PerType<seq<int>>, free: seq<seq<int>>, base: int, lab: Byte)
    returns (lists': PerType<seq<int>>, free': seq<seq<int>>)
    requires AllocWF(s, lists, free)
    requires base >= 0 ==> 0 <= BlockOf(XorLabel(base, lab)) < |free| && XorLabel(base, lab) in free[BlockOf(XorLabel(base, lab))]
    ensures Target(s, base, lab).Ok?
    ensures var (s1, e) := Target(s, base, lab).value;
      AllocWF(s1, lists', free') && 0 <= BlockOf(e) < |free'| && e in free'[BlockOf(e)] &&
      |free| <= |free'| && forall b :: 0 <= b < |free| ==> free'[b] == free[b]
  {
    lists', free' := lists, free;
    if base < 0 {
      lists', free' := FindPlaceKeeps(s, lists, free);
    }
  }

  /**
   * pop_e_node on a well-formed allocator keeps it well-formed, when the
   * slot `base ^ label` it takes is free (or the parent has no base, so
   * find_place chooses one) and the parent is a node in use: the slot leaves
   * its block's free ring and nothing else leaves or joins one.
   */
  lemma PopENodeKeeps(s: State, lists: PerType<seq<int>>, free: seq<seq<int>>, enc: Encoding, base: int, lab: Byte, from: int)
    returns (lists': PerType<seq<int>>, free': seq<seq<int>>)
    requires AllocWF(s, lists, free) && 0 <= from < s.size && InUse(free, from)
    requires base >= 0 ==> 0 <= BlockOf(XorLabel(base, lab)) < |free| && XorLabel(base, lab) in free[BlockOf(XorLabel(base, lab))]
    ensures PopENode(s, enc, base, lab, from).Ok?
    ensures var (s', e) := PopENode(s, enc, base, lab, from).value;
      AllocWF(s', lists', free') && 0 <= BlockOf(e) < |free'| && InUse(free', e)
  {
    var lists1, free1 := TargetFree(s, lists, free, base, lab);
    var (s1, e) := Target(s, base, lab).value;
    lists', free' := TakeSlotKeeps(s1, lists1, free1, e);
    var s2 := TakeSlot(s1, e).value;
    var b := BlockOf(e);
    assert InUse(free', from) by {
      if BlockOf(from) == b {
        assert forall y :: y in free'[b] ==> y in free1[b];
      }
    }
    assert 0 <= e < s2.size by {
      assert FreeRingOK(s1, free1[b], b);
    }
    ClaimKeeps(s2, lists', free', enc, base, lab, from, e, LinkBase(enc, e, lab));
  }
}
