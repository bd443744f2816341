/**
 * What the standard trie's update(key, value) does to the keys when no node
 * has to move (Cedar.java:1095-1108, with follow at Cedar.java:589-612
 * taking no `resolve` branch): find(key) reads `value`
 * back, update returns the value find read before (0 for a new key), every
 * other key keeps its value, and the allocator's invariant holds again.
 * While the key's labels follow edges that are there, update changes
 * nothing; once they leave the trie, every node it makes is new, so only
 * the first slot outside the trie has to be free.
 */
module UpdateKeeps {
  import opened Bits
  import opened Outcomes
  import opened CedarState
  import opened AllocSpec
  import opened FreeRings
  import opened AllocProofs
  import opened AddBlockProofs
  import opened Nodes
  import opened Keys
  import opened Queries
  import opened EraseProofs
  import opened EraseKeeps
  import Siblings

  /**
   * The standard trie's root reads as free and its base lies in a handed-out
   * block; every slot past the handed-out blocks is still blank.
   */
  ghost predicate Rooted(s: State)
  {
    s.Shape() && s.check[0] < 0 && 0 <= s.base[0] < s.size &&
    forall x | s.size <= x < |s.check| :: s.check[x] == BLANK_CHECK
  }

  /** Slot `x` is handed out and on no free ring. */
  ghost predicate Held(s: State, free: seq<seq<int>>, x: int)
  {
    0 <= x < s.size && InUse(free, x)
  }

  /** Every slot held in `s` is on no ring of `free'`. */
  ghost predicate Transfers(s: State, free: seq<seq<int>>, free': seq<seq<int>>)
  {
    forall x | Held(s, free, x) :: InUse(free', x)
  }

  /**
   * From `s` to `s'` every slot held in `s` keeps its check, and its base
   * too unless it is `lv` and had a negative one (a node given its first
   * child).
   */
  ghost predicate Guarded(s: State, s': State, free: seq<seq<int>>, lv: int)
  {
    s.Shape() && s'.Shape() && s.size <= s'.size &&
    forall x | Held(s, free, x) ::
      s'.check[x] == s.check[x] && (x != lv || s.base[x] >= 0 ==> s'.base[x] == s.base[x])
  }

  /** A slot a node with a base owns by a label is held. */
  lemma OwnedHeld(s: State, lists: PerType<seq<int>>, free: seq<seq<int>>, from: int, lab: Byte)
    requires AllocWF(s, lists, free) && Rooted(s) && In(from, s.base) && s.base[from] >= 0
    requires var ix := XorLabel(s.base[from], lab); In(ix, s.check) && s.check[ix] == from
    ensures Held(s, free, XorLabel(s.base[from], lab))
  {
    var ix := XorLabel(s.base[from], lab);
    if 0 <= BlockOf(ix) < |free| && ix in free[BlockOf(ix)] {
      FreeSlotReads(s, lists, free, ix);
    }
  }

  /** Every node labels lead to from the root is held. */
  lemma ReachHeld(s: State, lists: PerType<seq<int>>, free: seq<seq<int>>, a: seq<Byte>)
    requires AllocWF(s, lists, free) && Rooted(s) && Reach(s, Standard, 0, a).Some?
    ensures Held(s, free, Reach(s, Standard, 0, a).value)
  {
    if a == [] {
      if 0 <= BlockOf(0) < |free| && 0 in free[BlockOf(0)] {
        FreeSlotReads(s, lists, free, 0);
      }
    } else {
      var u := Reach(s, Standard, 0, a[..|a| - 1]).value;
      OwnedHeld(s, lists, free, u, a[|a| - 1]);
    }
  }

  /** add_block writes only the block it hands out; past it the slots are as before or blank. */
  lemma AddBlockFrame(s: State, lists: PerType<seq<int>>, free: seq<seq<int>>)
    requires AllocWF(s, lists, free)
    ensures AddBlock(s).Ok?
    ensures var s' := AddBlock(s).value.0;
      s'.size == s.size + 256 && |s.check| <= |s'.check| && |s.base| <= |s'.base| &&
      (forall x | 0 <= x < s.size :: s'.base[x] == s.base[x] && s'.check[x] == s.check[x]) &&
      (forall x | s'.size <= x < |s'.check| :: s'.check[x] == if x < |s.check| then s.check[x] else BLANK_CHECK)
  {
    AddBlockKeeps(s, lists, free);
    RoomKeeps(s, lists, free);
    var s1 := Room(s);
    assert forall x | 0 <= x < |s1.check| :: s1.check[x] == if x < |s.check| then s.check[x] else BLANK_CHECK;
    assert forall x | 0 <= x < |s.base| :: s1.base[x] == s.base[x];
    var s2 := LinkBlock(s1, s1.size);
    var s3 := PushBlock(s2, BlockOf(s1.size), Open, s1.heads.open == 0).value;
    assert s3.base == s2.base && s3.check == s2.check;
  }

  /** The slot pop_e_node takes is found without touching any handed-out slot. */
  lemma TargetFrame(s: State, lists: PerType<seq<int>>, free: seq<seq<int>>, base: int, lab: Byte)
    requires AllocWF(s, lists, free)
    requires base >= 0 ==> 0 <= BlockOf(XorLabel(base, lab)) < |free| && XorLabel(base, lab) in free[BlockOf(XorLabel(base, lab))]
    ensures Target(s, base, lab).Ok?
    ensures var s1 := Target(s, base, lab).value.0;
      s.size <= s1.size && |s.check| <= |s1.check| && |s.base| <= |s1.base| &&
      (forall x | 0 <= x < s.size :: s1.base[x] == s.base[x] && s1.check[x] == s.check[x]) &&
      (forall x | s1.size <= x < |s1.check| :: s1.check[x] == if x < |s.check| then s.check[x] else BLANK_CHECK)
  {
    var l1, f1 := TargetFree(s, lists, free, base, lab);
    if base < 0 && s.heads.closed == 0 && s.heads.open == 0 {
      AddBlockFrame(s, lists, free);
    }
  }

  /** Taking a free slot off its ring writes only slots on that ring. */
  lemma TakeSlotFrame(s: State, lists: PerType<seq<int>>, free: seq<seq<int>>, e: int)
    requires AllocWF(s, lists, free) && 0 <= BlockOf(e) < |free| && e in free[BlockOf(e)]
    ensures TakeSlot(s, e).Ok?
    ensures var s' := TakeSlot(s, e).value;
      s'.size == s.size && |s'.base| == |s.base| && |s'.check| == |s.check| &&
      forall x | 0 <= x < |s.check| && x !in free[BlockOf(e)] :: s'.base[x] == s.base[x] && s'.check[x] == s.check[x]
  {
    var b := BlockOf(e);
    var lists', free' := TakeSlotKeeps(s, lists, free, e);
    assert FreeRingOK(s, free[b], b);
    RemoveFreeRing(s, free[b], e);
    var s1 := RemoveFree(s, e).value;
    PopRelinkNodes(s1, b);
    var s2 := TakeSlot(s, e).value;
    assert s2.size / 256 == |free'| == |free| == s.size / 256;
  }

  /** Claim writes the new node's base and check, and the parent's base when it had none. */
  lemma ClaimFrame(s: State, base: int, lab: Byte, from: int, e: int)
    requires Claim(s, Standard, base, lab, from, e, LinkBase(Standard, e, lab)).Ok?
    ensures var s' := Claim(s, Standard, base, lab, from, e, LinkBase(Standard, e, lab)).value;
      s' == s.(base := s'.base, check := s'.check) && |s'.base| == |s.base| && |s'.check| == |s.check| &&
      (forall x | 0 <= x < |s.check| && x != e :: s'.check[x] == s.check[x]) &&
      (forall x | 0 <= x < |s.base| && x != e && (x != from || base >= 0) :: s'.base[x] == s.base[x])
  {
  }

  /** The states pop_e_node passes through, with the rings before and after the slot is taken. */
  lemma PopENodeWalk(s: State, lists: PerType<seq<int>>, free: seq<seq<int>>, lab: Byte, from: int)
    returns (s1: State, e: int, f1: seq<seq<int>>, s2: State, lists': PerType<seq<int>>, free': seq<seq<int>>)
    requires AllocWF(s, lists, free) && Rooted(s) && Held(s, free, from)
    requires var base := s.base[from];
      base >= 0 ==> 0 <= BlockOf(XorLabel(base, lab)) < |free| && XorLabel(base, lab) in free[BlockOf(XorLabel(base, lab))]
    ensures Target(s, s.base[from], lab) == Ok((s1, e)) && TakeSlot(s1, e) == Ok(s2)
    ensures 0 <= BlockOf(e) < |f1| && e in f1[BlockOf(e)] && |free| <= |f1| && (forall b | 0 <= b < |free| :: f1[b] == free[b])
    ensures s1.Shape() && FreeRingOK(s1, f1[BlockOf(e)], BlockOf(e)) && |f1| == s1.size / 256
    ensures free' == f1[BlockOf(e) := Rings.Remove(f1[BlockOf(e)], e)] && e !in free'[BlockOf(e)]
    ensures Claim(s2, Standard, s.base[from], lab, from, e, LinkBase(Standard, e, lab)).Ok?
    ensures var s3 := Claim(s2, Standard, s.base[from], lab, from, e, LinkBase(Standard, e, lab)).value;
      PopENode(s, Standard, s.base[from], lab, from) == Ok((s3, e)) && AllocWF(s3, lists', free')
    ensures s.size <= s1.size && |s.check| <= |s1.check| && |s.base| <= |s1.base| &&
      (forall x | 0 <= x < s.size :: s1.base[x] == s.base[x] && s1.check[x] == s.check[x]) &&
      (forall x | s1.size <= x < |s1.check| :: s1.check[x] == if x < |s.check| then s.check[x] else BLANK_CHECK)
    ensures s2.size == s1.size && |s2.base| == |s1.base| && |s2.check| == |s1.check| &&
      forall x | 0 <= x < |s1.check| && x !in f1[BlockOf(e)] :: s2.base[x] == s1.base[x] && s2.check[x] == s1.check[x]
  {
    var base := s.base[from];
    var l1;
    l1, f1 := TargetFree(s, lists, free, base, lab);
    s1, e := Target(s, base, lab).value.0, Target(s, base, lab).value.1;
    var b := BlockOf(e);
    assert FreeRingOK(s1, f1[b], b);
    lists', free' := TakeSlotKeeps(s1, l1, f1, e);
    s2 := TakeSlot(s1, e).value;
    TargetFrame(s, lists, free, base, lab);
    TakeSlotFrame(s1, l1, f1, e);
    assert InUse(free', from) by {
      assert f1[BlockOf(from)] == free[BlockOf(from)];
    }
    assert 0 <= e < s2.size;
    ClaimKeeps(s2, lists', free', Standard, base, lab, from, e, LinkBase(Standard, e, lab));
    var s2', e' := PopENodeSteps(s, Standard, base, lab, from, false);
  }

  /** The held slots of `s` are off the ring pop_e_node takes its slot from, and off every ring after. */
  lemma WalkSparesHeld(s: State, free: seq<seq<int>>, f1: seq<seq<int>>, free': seq<seq<int>>, e: int)
    requires s.Shape() && |free| == s.size / 256 && |free| <= |f1| && (forall b | 0 <= b < |free| :: f1[b] == free[b])
    requires 0 <= BlockOf(e) < |f1| && (forall x | x in f1[BlockOf(e)] :: BlockOf(x) == BlockOf(e))
    requires free' == f1[BlockOf(e) := Rings.Remove(f1[BlockOf(e)], e)]
    ensures forall x | Held(s, free, x) :: x !in f1[BlockOf(e)] && InUse(free', x)
    ensures e in f1[BlockOf(e)] ==> !Held(s, free, e)
  {
    forall x | Held(s, free, x)
      ensures x !in f1[BlockOf(e)] && InUse(free', x)
    {
      assert f1[BlockOf(x)] == free[BlockOf(x)];
    }
  }

  /**
   * The three writes of pop_e_node seen together: handed-out slots are
   * kept by find_place, only ring slots by the unlinking, only the new node
   * and a parent without a base by the claim.
   */
  lemma PopFrameFacts(s: State, s1: State, s2: State, s3: State, free: seq<seq<int>>, f1: seq<seq<int>>,
                      free': seq<seq<int>>, e: int, from: int)
    requires Rooted(s) && s3.Shape() && Held(s, free, from) && Held(s, free, 0)
    requires s.size <= s1.size && |s.check| <= |s1.check| && |s.base| <= |s1.base|
    requires forall x | 0 <= x < s.size :: s1.base[x] == s.base[x] && s1.check[x] == s.check[x]
    requires forall x | s1.size <= x < |s1.check| :: s1.check[x] == if x < |s.check| then s.check[x] else BLANK_CHECK
    requires s2.size == s1.size && |s2.base| == |s1.base| && |s2.check| == |s1.check|
    requires s1.Shape() && 0 <= BlockOf(e) < |f1| && e in f1[BlockOf(e)] && forall x | x in f1[BlockOf(e)] :: 0 <= x < s1.size
    requires forall x | 0 <= x < |s1.check| && x !in f1[BlockOf(e)] :: s2.base[x] == s1.base[x] && s2.check[x] == s1.check[x]
    requires s3 == s2.(base := s3.base, check := s3.check) && |s3.base| == |s2.base| && |s3.check| == |s2.check|
    requires forall x | 0 <= x < |s2.check| && x != e :: s3.check[x] == s2.check[x]
    requires forall x | 0 <= x < |s2.base| && x != e && (x != from || s.base[from] >= 0) :: s3.base[x] == s2.base[x]
    requires forall x | Held(s, free, x) :: x !in f1[BlockOf(e)] && InUse(free', x)
    ensures Rooted(s3) && Guarded(s, s3, free, from) && Transfers(s, free, free')
  {
    forall x | s3.size <= x < |s3.check|
      ensures s3.check[x] == BLANK_CHECK
    {
      assert x !in f1[BlockOf(e)];
    }
  }

  /**
   * pop_e_node under a held parent in the standard trie: the new node is a
   * slot no ring holds any more and that was not held before; every held
   * slot keeps its check, and its base unless it is the parent and had
   * none; the invariant and the blank slots past the blocks are kept.
   */
  lemma PopENodeFrame(s: State, lists: PerType<seq<int>>, free: seq<seq<int>>, lab: Byte, from: int)
    returns (lists': PerType<seq<int>>, free': seq<seq<int>>)
    requires AllocWF(s, lists, free) && Rooted(s) && Held(s, free, from)
    requires var base := s.base[from];
      base >= 0 ==> 0 <= BlockOf(XorLabel(base, lab)) < |free| && XorLabel(base, lab) in free[BlockOf(XorLabel(base, lab))]
    ensures PopENode(s, Standard, s.base[from], lab, from).Ok?
    ensures var (s', e) := PopENode(s, Standard, s.base[from], lab, from).value;
      AllocWF(s', lists', free') && Rooted(s') && Guarded(s, s', free, from) && Transfers(s, free, free') &&
      Held(s', free', e) && !Held(s, free, e)
  {
    var base := s.base[from];
    var s1, e, f1, s2;
    s1, e, f1, s2, lists', free' := PopENodeWalk(s, lists, free, lab, from);
    ClaimFrame(s2, base, lab, from, e);
    var s3 := Claim(s2, Standard, base, lab, from, e, LinkBase(Standard, e, lab)).value;
    WalkSparesHeld(s, free, f1, free', e);
    assert Held(s, free, 0) by {
      if 0 <= BlockOf(0) < |free| && 0 in free[BlockOf(0)] {
        FreeSlotReads(s, lists, free, 0);
      }
    }
    PopFrameFacts(s, s1, s2, s3, free, f1, free', e, from);
  }

  /** push_sibling writes labels only. */
  lemma PushSiblingLabels(s: State, from: int, base: int, lab: Byte, hasChild: bool)
    requires Siblings.PushSibling(s, from, base, lab, hasChild).Ok?
    ensures var s' := Siblings.PushSibling(s, from, base, lab, hasChild).value;
      s' == s.(sibling := s'.sibling, child := s'.child) && |s'.sibling| == |s.sibling| && |s'.child| == |s.child|
  {
  }

  /**
   * follow(from, label) in the standard trie from a held node whose slot for
   * `label` is its own or free: an edge that is there is taken without any
   * change; otherwise the node returned is new (held now, not before) with
   * the fresh base.  Either way it is owned by `from` and is where `from`'s
   * base leads by `label`, every held slot keeps its check, and its base
   * unless it is `from` and had none, and the invariant is kept.
   */
  lemma FollowStep(s: State, lists: PerType<seq<int>>, free: seq<seq<int>>, from: int, lab: Byte)
    returns (lists': PerType<seq<int>>, free': seq<seq<int>>)
    requires AllocWF(s, lists, free) && Rooted(s) && Held(s, free, from)
    requires Attachable(s, Standard, from, lab, free) && Follow(s, Standard, from, lab).Ok?
    ensures var (s', to) := Follow(s, Standard, from, lab).value;
      AllocWF(s', lists', free') && Rooted(s') && Guarded(s, s', free, from) && Transfers(s, free, free') &&
      Held(s', free', to) && s'.check[to] == from && XorLabel(s'.base[from], lab) == to
    ensures var (s', to) := Follow(s, Standard, from, lab).value;
      var ix := XorLabel(s.base[from], lab);
      if s.base[from] >= 0 && s.check[ix] == from then s' == s && to == ix
      else !Held(s, free, to) && s'.base[to] == FreshBase(Standard, lab)
  {
    var base := s.base[from];
    var ix := XorLabel(base, lab);
    FollowCases(s, Standard, from, lab);
    if base >= 0 && s.check[ix] == from {
      lists', free' := lists, free;
      OwnedHeld(s, lists, free, from, lab);
    } else {
      lists', free' := PopENodeFrame(s, lists, free, lab, from);
      var (s1, e) := PopENode(s, Standard, base, lab, from).value;
      PopENodeLinks(s, Standard, base, lab, from, s1, e);
      PushSiblingLabels(s1, from, XorLabel(e, lab), lab, base >= 0);
      var s2 := Siblings.PushSibling(s1, from, XorLabel(e, lab), lab, base >= 0).value;
      LabelsOnlyKeeps(s1, s2, lists', free');
      assert Follow(s, Standard, from, lab) == Ok((s2, e));
    }
  }

  /** Guarded steps compose, when the later step's exempt node was not held at the start. */
  lemma GuardedChain(s: State, s1: State, s2: State, free: seq<seq<int>>, f1: seq<seq<int>>, f2: seq<seq<int>>, lv: int, lv2: int)
    requires Guarded(s, s1, free, lv) && Transfers(s, free, f1) && Guarded(s1, s2, f1, lv2) && Transfers(s1, f1, f2)
    requires !Held(s, free, lv2)
    ensures Guarded(s, s2, free, lv) && Transfers(s, free, f2)
  {
    forall x | Held(s, free, x)
      ensures Held(s1, f1, x)
    {
    }
  }

  /**
   * A step that guards every held slot but `from`'s base keeps the labels
   * that led to `from` leading there: the nodes above it are held and are
   * not `from`, and `from`'s check is kept.
   */
  lemma ReachKeptBy(s: State, s': State, lists: PerType<seq<int>>, free: seq<seq<int>>, a: seq<Byte>, from: int)
    requires AllocWF(s, lists, free) && Rooted(s) && Reach(s, Standard, 0, a) == Some(from)
    requires Guarded(s, s', free, from)
    ensures Reach(s', Standard, 0, a) == Some(from)
  {
    ReachHeld(s, lists, free, a);
    if a != [] {
      var a0 := a[..|a| - 1];
      forall i | 0 <= i <= |a0|
        ensures KeptAt(s, s', Reach(s, Standard, 0, a0[..i]))
      {
        ReachPrefix(s, Standard, 0, a0, i);
        assert a0[..i] == a[..i];
        ReachPrefix(s, Standard, 0, a, i);
        ReachHeld(s, lists, free, a0[..i]);
        if Reach(s, Standard, 0, a0[..i]) == Some(from) {
          ReachInjective(s, a0[..i], a);
        }
      }
      ReachAlongKept(s, s', a0);
      assert a0[..|a0|] == a0;
      var u := Reach(s, Standard, 0, a0).value;
      ReachHeld(s, lists, free, a0);
    }
  }

  /** The labels to `from` and then `label` lead to the node `from` owns where its base leads by `label`. */
  lemma ReachExtends(s: State, key: seq<Byte>, pos: nat, from: int, to: int)
    requires pos < |key| && Reach(s, Standard, 0, key[..pos]) == Some(from) && In(from, s.base)
    requires In(to, s.check) && s.check[to] == from && XorLabel(s.base[from], key[pos]) == to
    ensures Reach(s, Standard, 0, key[..pos + 1]) == Some(to)
  {
    var ls := key[..pos + 1];
    assert ls[..|ls| - 1] == key[..pos];
  }

  /** An edge that is there is followed without any change. */
  lemma FollowAlong(s: State, key: seq<Byte>, pos: nat, from: int)
    requires pos < |key| && Reach(s, Standard, 0, key[..pos]) == Some(from) && Reach(s, Standard, 0, key[..pos + 1]).Some?
    ensures Follow(s, Standard, from, key[pos]) == Ok((s, Reach(s, Standard, 0, key[..pos + 1]).value))
  {
    var ls := key[..pos + 1];
    assert ls[..|ls| - 1] == key[..pos];
  }

  /** update's loop along edges that are there changes nothing. */
  lemma {:induction false} InsertAlong(s: State, key: seq<Byte>, pos: nat, from: int, p: nat)
    requires pos <= p <= |key| && Reach(s, Standard, 0, key[..pos]) == Some(from) && Reach(s, Standard, 0, key[..p]).Some?
    ensures Insert(s, Standard, key, pos, from) == Insert(s, Standard, key, p, Reach(s, Standard, 0, key[..p]).value)
    decreases p - pos
  {
    if pos < p {
      ReachPrefix(s, Standard, 0, key[..p], pos + 1);
      assert key[..p][..pos + 1] == key[..pos + 1];
      var to := Reach(s, Standard, 0, key[..pos + 1]).value;
      FollowAlong(s, key, pos, from);
      InsertStep(s, Standard, key, pos, from, s, s, to);
      InsertAlong(s, key, pos + 1, to, p);
    }
  }

  /** Labels that lead nowhere leave the trie after some prefix that leads somewhere. */
  lemma {:induction false} Leaving(s: State, key: seq<Byte>) returns (p: nat)
    requires Reach(s, Standard, 0, key) == None
    ensures p < |key| && Reach(s, Standard, 0, key[..p]).Some? && Reach(s, Standard, 0, key[..p + 1]) == None
    decreases |key|
  {
    var init := key[..|key| - 1];
    if Reach(s, Standard, 0, init) == None {
      p := Leaving(s, init);
      assert init[..p] == key[..p] && init[..p + 1] == key[..p + 1];
    } else {
      p := |key| - 1;
      assert key[..p + 1] == key;
    }
  }

  /**
   * update's loop once the key has left the trie: from a new node with no
   * base every label makes a new node with no base, held now and not at the
   * start, and the labels lead to it; the slots held at the start stay
   * guarded.
   */
  lemma {:induction false} InsertFresh(s: State, free0: seq<seq<int>>, lv: int, cur: State, lists: PerType<seq<int>>,
                                      free: seq<seq<int>>, key: seq<Byte>, pos: nat, from: int)
    returns (lists': PerType<seq<int>>, free': seq<seq<int>>)
    requires AllocWF(cur, lists, free) && Rooted(cur) && Guarded(s, cur, free0, lv) && Transfers(s, free0, free)
    requires pos <= |key| && 0 !in key && Reach(cur, Standard, 0, key[..pos]) == Some(from)
    requires Held(cur, free, from) && !Held(s, free0, from) && cur.base[from] == -1
    requires Insert(cur, Standard, key, pos, from).Ok?
    ensures var (s1, v) := Insert(cur, Standard, key, pos, from).value;
      AllocWF(s1, lists', free') && Rooted(s1) && Guarded(s, s1, free0, lv) && Transfers(s, free0, free') &&
      Reach(s1, Standard, 0, key) == Some(v) && Held(s1, free', v) && !Held(s, free0, v) && s1.base[v] == -1
    decreases |key| - pos
  {
    if pos == |key| {
      assert key[..pos] == key;
      lists', free' := lists, free;
    } else {
      var lab := key[pos];
      assert lab != 0 by {
        assert key[pos] in key;
      }
      var l1, f1 := FollowStep(cur, lists, free, from, lab);
      var (c2, to) := Follow(cur, Standard, from, lab).value;
      ReachKeptBy(cur, c2, lists, free, key[..pos], from);
      ReachExtends(c2, key, pos, from, to);
      GuardedChain(s, cur, c2, free0, free, f1, lv, from);
      InsertStep(cur, Standard, key, pos, from, cur, c2, to);
      lists', free' := InsertFresh(s, free0, lv, c2, l1, f1, key, pos + 1, to);
    }
  }

  /**
   * No edge update(key) adds along the key's labels and the terminal label
   * 0 (`ls`) needs a node moved: wherever a prefix leads to a node, the
   * next label's slot under its base is its own child, free, or the node
   * has no base yet.
   */
  ghost predicate NoRelocation(s: State, ls: seq<Byte>, free: seq<seq<int>>)
  {
    forall p | 0 <= p < |ls| && Reach(s, Standard, 0, ls[..p]).Some? && In(Reach(s, Standard, 0, ls[..p]).value, s.base) ::
      Attachable(s, Standard, Reach(s, Standard, 0, ls[..p]).value, ls[p], free)
  }

  /** find's loop along labels that all lead somewhere stops at the node the whole key leads to. */
  lemma {:induction false} DescendAlong(s: State, key: seq<Byte>, pos: nat, v: int)
    requires pos <= |key| && Reach(s, Standard, 0, key[..pos]) == Some(v) && Reach(s, Standard, 0, key).Some?
    ensures Descend(s, Standard, key, 0, |key|, pos, v) == Ok(Stop(|key|, Reach(s, Standard, 0, key).value, false))
    decreases |key| - pos
  {
    if pos < |key| {
      ReachPrefix(s, Standard, 0, key, pos + 1);
      var ls := key[..pos + 1];
      assert ls[..|ls| - 1] == key[..pos];
      DescendAlong(s, key, pos + 1, Reach(s, Standard, 0, ls).value);
    } else {
      assert key[..pos] == key;
    }
  }

  /** find(key) reads the value the standard trie stores for a key. */
  lemma LookupStored(s: State, key: seq<Byte>)
    requires key != [] && Stored(s, key).Some?
    ensures LookupKey(s, Standard, key) == Ok(Found(Stored(s, key).value))
  {
    assert key[..0] == [];
    DescendAlong(s, key, 0, 0);
  }

  /** The path of a key without byte 0, with its terminal label, has no prefix that is another key's path. */
  lemma TerminalPathsDiffer(key: seq<Byte>, k: seq<Byte>, i: nat)
    requires 0 !in k && k != key && i <= |k| + 1
    ensures (k + [0])[..i] != key + [0]
  {
    var os := (k + [0])[..i];
    if i == |key| + 1 {
      if i <= |k| {
        assert os[|key|] == k[|key|] && k[|key|] in k;
      } else {
        assert os == k + [0];
        assert os[..|key|] == k && (key + [0])[..|key|] == key;
      }
    }
  }

  /** A prefix of a key without byte 0 does not end in the terminal label. */
  lemma NoZeroEnd(key: seq<Byte>, j: nat, a: seq<Byte>)
    requires j <= |key| && 0 !in key
    ensures key[..j] != a + [0]
  {
    if j == |a| + 1 {
      assert key[..j][|a|] == key[|a|] && key[|a|] in key;
      assert (a + [0])[|a|] == 0;
    }
  }

  /** A node with a child along a path has a base. */
  lemma InnerHasBase(s: State, ls: seq<Byte>, i: nat)
    requires i < |ls| && Reach(s, Standard, 0, ls[..i + 1]).Some?
    ensures Reach(s, Standard, 0, ls[..i]).Some?
    ensures var x := Reach(s, Standard, 0, ls[..i]).value; In(x, s.base) && s.base[x] >= 0
  {
    var a := ls[..i + 1];
    assert a[..|a| - 1] == ls[..i];
  }

  /**
   * A guarded step whose exempt node `lv` is on the key's path (a key
   * without byte 0) keeps every stored key without byte 0: `lv` changes
   * its base only when it had none, and no stored key's path runs through
   * a node without a base but at its terminal, which is not on the key's
   * path.
   */
  lemma OtherKept(s: State, s2: State, lists: PerType<seq<int>>, free: seq<seq<int>>, key: seq<Byte>, j: nat, lv: int, k: seq<Byte>)
    requires AllocWF(s, lists, free) && Rooted(s) && Guarded(s, s2, free, lv)
    requires j <= |key| && 0 !in key && Reach(s, Standard, 0, key[..j]) == Some(lv)
    requires 0 !in k && Stored(s, k).Some?
    ensures Stored(s2, k) == Stored(s, k)
  {
    var os := k + [0];
    ReachTerminal(s, k, Reach(s, Standard, 0, k).value);
    forall i | 0 <= i <= |k| + 1
      ensures KeptAt(s, s2, Reach(s, Standard, 0, os[..i]))
    {
      ReachPrefix(s, Standard, 0, os, i);
      ReachHeld(s, lists, free, os[..i]);
      if i <= |k| {
        ReachPrefix(s, Standard, 0, os, i + 1);
        InnerHasBase(s, os, i);
      } else {
        assert os[..i] == os;
        NoZeroEnd(key, j, k);
        if Reach(s, Standard, 0, os) == Some(lv) {
          ReachInjective(s, os, key[..j]);
        }
      }
    }
    StoredFromKept(s, s2, k);
  }

  /**
   * update's last write: the terminal `t` the key's labels and 0 lead to
   * gets `value`.  The invariant and the root are kept, the key stores
   * `value`, and every other key without byte 0 keeps its value.
   */
  lemma WriteBack(s2: State, lists: PerType<seq<int>>, free: seq<seq<int>>, key: seq<Byte>, t: int, value: int)
    requires AllocWF(s2, lists, free) && Rooted(s2) && Reach(s2, Standard, 0, key + [0]) == Some(t)
    ensures In(t, s2.base)
    ensures var s' := s2.(base := s2.base[t := value]);
      AllocWF(s', lists, free) && Rooted(s') && Stored(s', key) == Some(value) &&
      forall k | k != key && 0 !in k && Stored(s2, k).Some? :: Stored(s', k) == Stored(s2, k)
  {
    var s' := s2.(base := s2.base[t := value]);
    ReachHeld(s2, lists, free, key + [0]);
    ReachInUse(s2, key + [0]);
    NodeWriteKeeps(s2, lists, free, t, value, s2.check[t]);
    assert s2.check[t := s2.check[t]] == s2.check;
    var ks := key + [0];
    assert ks[..|key|] == key;
    var c := Reach(s2, Standard, 0, key).value;
    forall i | 0 <= i <= |key|
      ensures KeptAt(s2, s', Reach(s2, Standard, 0, key[..i]))
    {
      ReachPrefix(s2, Standard, 0, key, i);
      if Reach(s2, Standard, 0, key[..i]) == Some(t) {
        ReachInjective(s2, key[..i], ks);
      }
    }
    ReachAlongKept(s2, s', key);
    if c == t {
      ReachInjective(s2, key, ks);
    }
    XorLabelZero(s2.base[c]);
    forall k | k != key && 0 !in k && Stored(s2, k).Some?
      ensures Stored(s', k) == Stored(s2, k)
    {
      var os := k + [0];
      forall i | 0 <= i <= |k| + 1
        ensures KeptAt(s2, s', Reach(s2, Standard, 0, os[..i]))
      {
        TerminalPathsDiffer(key, k, i);
        if Reach(s2, Standard, 0, os[..i]) == Some(t) {
          ReachInjective(s2, os[..i], ks);
        }
      }
      StoredFromKept(s2, s', k);
    }
  }

  /**
   * update's end: once its loop and the terminal's follow have left a
   * trie `s2` guarded against `s` but at a node on the key's path, with
   * the key's labels and 0 leading to `t`, the value is written there,
   * find(key) reads it back and every other key keeps its value.
   */
  lemma UpdateEnds(s: State, lists: PerType<seq<int>>, free: seq<seq<int>>, key: seq<Byte>, value: int, j: nat, lv: int,
                   s1: State, v: int, s2: State, t: int, lists2: PerType<seq<int>>, free2: seq<seq<int>>)
    requires AllocWF(s, lists, free) && Rooted(s) && key != [] && 0 !in key
    requires j <= |key| && Reach(s, Standard, 0, key[..j]) == Some(lv)
    requires Insert(s, Standard, key, 0, 0) == Ok((s1, v)) && Follow(s1, Standard, v, 0) == Ok((s2, t))
    requires AllocWF(s2, lists2, free2) && Rooted(s2) && Guarded(s, s2, free, lv)
    requires Reach(s2, Standard, 0, key + [0]) == Some(t)
    ensures In(t, s2.base) && Update(s, Standard, key, value) == Ok((s2.(base := s2.base[t := value]), s2.base[t]))
    ensures var s' := s2.(base := s2.base[t := value]);
      AllocWF(s', lists2, free2) && Rooted(s') &&
      LookupKey(s', Standard, key) == Ok(Found(value)) && Stored(s', key) == Some(value) &&
      forall k | k != key && 0 !in k && Stored(s, k).Some? :: Stored(s', k) == Stored(s, k)
  {
    WriteBack(s2, lists2, free2, key, t, value);
    var s' := s2.(base := s2.base[t := value]);
    LookupStored(s', key);
    forall k | k != key && 0 !in k && Stored(s, k).Some?
      ensures Stored(s', k) == Stored(s, k)
    {
      OtherKept(s, s2, lists, free, key, j, lv, k);
    }
  }

  /**
   * The terminal's follow from the node `v` a key leads to: the terminal
   * the node owns, whose base is the value stored, or a new one with value
   * 0 for a key that stores none; the labels and 0 lead to it.
   */
  lemma OnPathTerminal(s: State, lists: PerType<seq<int>>, free: seq<seq<int>>, key: seq<Byte>, v: int)
    returns (lists': PerType<seq<int>>, free': seq<seq<int>>)
    requires AllocWF(s, lists, free) && Rooted(s) && NoRelocation(s, key + [0], free)
    requires Reach(s, Standard, 0, key) == Some(v) && Follow(s, Standard, v, 0).Ok?
    ensures var (s2, t) := Follow(s, Standard, v, 0).value;
      AllocWF(s2, lists', free') && Rooted(s2) && Guarded(s, s2, free, v) &&
      Reach(s2, Standard, 0, key + [0]) == Some(t) && In(t, s2.base) &&
      s2.base[t] == (if Stored(s, key).Some? then Stored(s, key).value else 0)
  {
    var ks := key + [0];
    ReachHeld(s, lists, free, key);
    assert ks[..|key|] == key && ks[|key|] == 0 && ks[..|key| + 1] == ks;
    lists', free' := FollowStep(s, lists, free, v, 0);
    var (s2, t) := Follow(s, Standard, v, 0).value;
    ReachKeptBy(s, s2, lists, free, key, v);
    ReachExtends(s2, ks, |key|, v, t);
    FollowCases(s, Standard, v, 0);
    TerminalPrev(s, key, v, s2, t);
  }

  /**
   * The value at the terminal of a key's node: the stored value when the
   * node already owns its terminal (follow changed nothing), else the new
   * terminal's 0.
   */
  lemma TerminalPrev(s: State, key: seq<Byte>, v: int, s2: State, t: int)
    requires s.Shape() && Reach(s, Standard, 0, key) == Some(v) && In(v, s.base) && In(t, s2.base)
    requires s.base[v] >= 0 ==> In(XorLabel(s.base[v], 0), s.check)
    requires s.base[v] >= 0 && s.check[XorLabel(s.base[v], 0)] == v ==> s2 == s && t == XorLabel(s.base[v], 0)
    requires !(s.base[v] >= 0 && s.check[XorLabel(s.base[v], 0)] == v) ==> s2.base[t] == 0
    ensures s2.base[t] == (if Stored(s, key).Some? then Stored(s, key).value else 0)
  {
    XorLabelZero(s.base[v]);
  }

  /**
   * update(key) when the key's labels all lead somewhere: nothing changes
   * on the way, and the terminal is the one the key's node owns (update
   * returns the value stored) or a new one with value 0.
   */
  lemma UpdateOnPath(s: State, lists: PerType<seq<int>>, free: seq<seq<int>>, key: seq<Byte>, value: int)
    returns (lists': PerType<seq<int>>, free': seq<seq<int>>)
    requires AllocWF(s, lists, free) && Rooted(s)
    requires key != [] && 0 !in key && NoRelocation(s, key + [0], free)
    requires Update(s, Standard, key, value).Ok? && Reach(s, Standard, 0, key).Some?
    ensures var (s', prev) := Update(s, Standard, key, value).value;
      AllocWF(s', lists', free') && Rooted(s') &&
      LookupKey(s', Standard, key) == Ok(Found(value)) && Stored(s', key) == Some(value) &&
      prev == (if Stored(s, key).Some? then Stored(s, key).value else 0) &&
      forall k | k != key && 0 !in k && Stored(s, k).Some? :: Stored(s', k) == Stored(s, k)
  {
    var v := Reach(s, Standard, 0, key).value;
    assert key[..0] == [] && key[..|key|] == key;
    InsertAlong(s, key, 0, 0, |key|);
    lists', free' := OnPathTerminal(s, lists, free, key, v);
    var (s2, t) := Follow(s, Standard, v, 0).value;
    UpdateEnds(s, lists, free, key, value, |key|, v, s, v, s2, t, lists', free');
  }

  /**
   * update's loop when the key's labels leave the trie after `p` of them:
   * nothing changes up to the node they lead to, which gets a new child,
   * and every node after it is new and has no base.
   */
  lemma OffPathLoop(s: State, lists: PerType<seq<int>>, free: seq<seq<int>>, key: seq<Byte>)
    returns (p: nat, lists': PerType<seq<int>>, free': seq<seq<int>>)
    requires AllocWF(s, lists, free) && Rooted(s)
    requires 0 !in key && NoRelocation(s, key + [0], free)
    requires Insert(s, Standard, key, 0, 0).Ok? && Reach(s, Standard, 0, key) == None
    ensures p <= |key| && Reach(s, Standard, 0, key[..p]).Some?
    ensures var (s1, v) := Insert(s, Standard, key, 0, 0).value;
      AllocWF(s1, lists', free') && Rooted(s1) && Guarded(s, s1, free, Reach(s, Standard, 0, key[..p]).value) &&
      Transfers(s, free, free') && Reach(s1, Standard, 0, key) == Some(v) && Held(s1, free', v) &&
      !Held(s, free, v) && s1.base[v] == -1
  {
    p := Leaving(s, key);
    var u := Reach(s, Standard, 0, key[..p]).value;
    var ks := key + [0];
    assert key[..0] == [];
    InsertAlong(s, key, 0, 0, p);
    ReachHeld(s, lists, free, key[..p]);
    assert ks[..p] == key[..p] && ks[p] == key[p];
    assert key[p] != 0 by {
      assert key[p] in key;
    }
    assert key[..p + 1][..p] == key[..p];
    var la, fa := FollowStep(s, lists, free, u, key[p]);
    var (sa, w) := Follow(s, Standard, u, key[p]).value;
    ReachKeptBy(s, sa, lists, free, key[..p], u);
    ReachExtends(sa, key, p, u, w);
    InsertStep(s, Standard, key, p, u, s, sa, w);
    lists', free' := InsertFresh(s, free, u, sa, la, fa, key, p + 1, w);
  }

  /** update(key) when the key's labels leave the trie: the new terminal holds 0. */
  lemma UpdateOffPath(s: State, lists: PerType<seq<int>>, free: seq<seq<int>>, key: seq<Byte>, value: int)
    returns (lists': PerType<seq<int>>, free': seq<seq<int>>)
    requires AllocWF(s, lists, free) && Rooted(s)
    requires key != [] && 0 !in key && NoRelocation(s, key + [0], free)
    requires Update(s, Standard, key, value).Ok? && Reach(s, Standard, 0, key) == None
    ensures var (s', prev) := Update(s, Standard, key, value).value;
      AllocWF(s', lists', free') && Rooted(s') &&
      LookupKey(s', Standard, key) == Ok(Found(value)) && Stored(s', key) == Some(value) &&
      prev == (if Stored(s, key).Some? then Stored(s, key).value else 0) &&
      forall k | k != key && 0 !in k && Stored(s, k).Some? :: Stored(s', k) == Stored(s, k)
  {
    var p, lb, fb := OffPathLoop(s, lists, free, key);
    var u := Reach(s, Standard, 0, key[..p]).value;
    var (s1, v) := Insert(s, Standard, key, 0, 0).value;
    lists', free' := FollowStep(s1, lb, fb, v, 0);
    var (s2, t) := Follow(s1, Standard, v, 0).value;
    GuardedChain(s, s1, s2, free, fb, free', u, v);
    ReachKeptBy(s1, s2, lb, fb, key, v);
    var ks := key + [0];
    assert ks[..|key|] == key && ks[|key|] == 0 && ks[..|key| + 1] == ks;
    ReachExtends(s2, ks, |key|, v, t);
    UpdateEnds(s, lists, free, key, value, p, u, s1, v, s2, t, lists', free');
  }

  /**
   * update(key, value) on the standard trie, when no edge it adds needs a
   * node moved: the allocator's invariant holds again, find(key) reads
   * `value`, update returns the value the key held (0 for a new key), and
   * every other key keeps its value.  Keys are taken without byte 0, the
   * terminal label.
   */
  lemma UpdateFinds(s: State, lists: PerType<seq<int>>, free: seq<seq<int>>, key: seq<Byte>, value: int)
    returns (lists': PerType<seq<int>>, free': seq<seq<int>>)
    requires AllocWF(s, lists, free) && Rooted(s)
    requires key != [] && 0 !in key && NoRelocation(s, key + [0], free)
    requires Update(s, Standard, key, value).Ok?
    ensures var (s', prev) := Update(s, Standard, key, value).value;
      AllocWF(s', lists', free') && Rooted(s') &&
      LookupKey(s', Standard, key) == Ok(Found(value)) && Stored(s', key) == Some(value) &&
      prev == (if Stored(s, key).Some? then Stored(s, key).value else 0) &&
      (forall w :: LookupKey(s, Standard, key) == Ok(Found(w)) ==> prev == w) &&
      forall k | k != key && 0 !in k && Stored(s, k).Some? :: Stored(s', k) == Stored(s, k)
  {
    if Reach(s, Standard, 0, key).Some? {
      lists', free' := UpdateOnPath(s, lists, free, key, value);
    } else {
      lists', free' := UpdateOffPath(s, lists, free, key, value);
    }
    if LookupKey(s, Standard, key).Ok? {
      StoredMeans(s, key);
    }
  }
}
