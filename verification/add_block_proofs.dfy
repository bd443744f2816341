/**
 * add_block and find_place keep the allocator's invariant: doubling the
 * tables changes no list or ring, and the block handed out joins Open with
 * all 256 of its slots in one free ring.
 */
module AddBlockProofs {
  import opened Outcomes
  import opened Rings
  import opened CedarState
  import opened AllocSpec
  import opened BlockLists
  import opened FreeRings
  import opened AllocProofs

  /** The free ring add_block builds for the block whose first slot is `start`: its slots in order. */
  ghost function NewRing(start: int): (r: seq<int>)
    ensures |r| == 256
  {
    seq(256, i => start + i)
  }

  /** The links add_block writes make its slots one free ring. */
  lemma NewRingLinked(base: seq<int>, check: seq<int>, start: int)
    requires 0 <= start && start + 256 <= |base| && |check| == |base|
    ensures IsRing(NewRing(start), LinkedCheck(check, start), LinkedBase(base, start), true)
    ensures Distinct(NewRing(start))
  {
    var r := NewRing(start);
    var nx, pv := LinkedCheck(check, start), LinkedBase(base, start);
    forall k | 0 <= k < 256
      ensures nx[r[k]] == Link(r[Succ(k, 256)], true) && pv[r[k]] == Link(r[Pred(k, 256)], true)
    {
      assert r[k] == start + k;
    }
  }

  /** Doubling the tables keeps the block lists: the links of every listed block are where they were. */
  lemma GrowLists(s: State, lists: PerType<seq<int>>)
    requires ListsWF(s, lists)
    ensures ListsWF(Grow(s), lists)
  {
    var g := Grow(s);
    forall t
      ensures ListWF(t, lists.Get(t), g.heads.Get(t), g.blocks.next, g.blocks.prev)
    {
      var m := lists.Get(t);
      assert ListWF(t, m, s.heads.Get(t), s.blocks.next, s.blocks.prev);
      RingFrame(RingOf(t, m), s.blocks.next, s.blocks.prev, g.blocks.next, g.blocks.prev, false);
    }
    GrowShape(s);
  }

  lemma GrowShape(s: State)
    requires s.Shape()
    ensures Grow(s).Shape() && Grow(s).size == s.size
  {
    var c := s.capacity;
    assert (c + c) / 256 == c / 256 + c / 256;
  }

  /** Doubling the tables keeps every free ring. */
  lemma GrowFree(s: State, free: seq<seq<int>>)
    requires FreeWF(s, free)
    ensures FreeWF(Grow(s), free)
  {
    var g := Grow(s);
    GrowShape(s);
    forall b | 0 <= b < |free|
      ensures FreeRingOK(g, free[b], b)
    {
      assert FreeRingOK(s, free[b], b);
      RingFrame(free[b], s.check, s.base, g.check, g.base, true);
    }
  }

  /** Doubling the tables keeps the invariant: the new blocks are blank. */
  lemma GrowKeeps(s: State, lists: PerType<seq<int>>, free: seq<seq<int>>)
    requires AllocWF(s, lists, free)
    ensures AllocWF(Grow(s), lists, free)
  {
    GrowLists(s, lists);
    GrowFree(s, free);
    var g := Grow(s);
    forall t, b | b in lists.Get(t)
      ensures Fits(g, t, b)
    {
      assert Fits(s, t, b);
    }
  }

  /** The room add_block makes: the tables double only when every slot is handed out. */
  lemma RoomKeeps(s: State, lists: PerType<seq<int>>, free: seq<seq<int>>)
    requires AllocWF(s, lists, free)
    ensures var s1 := Room(s);
      AllocWF(s1, lists, free) && s1.size == s.size && s1.size + 256 <= s1.capacity
  {
    if s.size == s.capacity {
      GrowKeeps(s, lists, free);
    }
  }

  /** The slots of block `idx` are `256 * idx` to `256 * idx + 255`. */
  lemma SlotOfBlock(idx: int, i: int)
    requires 0 <= i < 256
    ensures BlockOf(256 * idx + i) == idx
  {
  }

  /** Linking a fresh block leaves every handed-out block's free ring alone and gives the new block all its slots. */
  lemma LinkRings(s: State, free: seq<seq<int>>)
    requires FreeWF(s, free) && Fresh(s) && s.size + 256 <= s.capacity
    ensures In(BlockOf(s.size), s.blocks.head)
    ensures var s2 := LinkBlock(s, s.size);
      s2.Shape() && (forall b :: 0 <= b < |free| ==> FreeRingOK(s2, free[b], b)) &&
      FreeRingOK(s2, NewRing(s.size), BlockOf(s.size))
  {
    var start, idx := s.size, BlockOf(s.size);
    assert start == 256 * idx;
    var s2 := LinkBlock(s, start);
    forall b | 0 <= b < |free|
      ensures FreeRingOK(s2, free[b], b)
    {
      var f := free[b];
      assert FreeRingOK(s, f, b);
      forall k | 0 <= k < |f|
        ensures s2.check[f[k]] == s.check[f[k]] && s2.base[f[k]] == s.base[f[k]]
      {
        assert f[k] in f && BlockOf(f[k]) == b;
      }
      RingFrame(f, s.check, s.base, s2.check, s2.base, true);
    }
    NewRingLinked(s.base, s.check, start);
    var r := NewRing(start);
    forall x | x in r
      ensures BlockOf(x) == idx && x != 0
    {
      var i :| 0 <= i < 256 && r[i] == x;
      SlotOfBlock(idx, i);
    }
  }

  /** The block list `lists` gets when the fresh block `idx` joins Open at its head. */
  ghost function Joined(lists: PerType<seq<int>>, idx: int): PerType<seq<int>>
  {
    lists.With(Open, [idx] + lists.open)
  }

  /** The fresh block at `size` is a real block with a record, and in no list yet. */
  lemma FreshBlock(s: State, lists: PerType<seq<int>>)
    requires ListsWF(s, lists) && s.size + 256 <= s.capacity
    ensures var idx := BlockOf(s.size);
      1 <= idx < |s.blocks.next| && CountAll(lists, idx) == 0 && Partitioned(Joined(lists, idx), idx + 1)
  {
    var idx, c := BlockOf(s.size), s.capacity;
    assert s.size == 256 * idx && c == 256 * (c / 256);
    var j := Joined(lists, idx);
    forall b
      ensures CountAll(j, b) == (if 1 <= b < idx + 1 then 1 else 0)
    {
      assert CountAll(lists, b) == (if 1 <= b < idx then 1 else 0);
      assert Count(b, [idx] + lists.open) == (if b == idx then 1 else Count(b, lists.open));
    }
  }

  /** Pushing the fresh block onto Open leaves Closed and Full linked as they were. */
  lemma OtherAfterJoin(s: State, s': State, lists: PerType<seq<int>>, idx: int, t: BlockType)
    requires ListsWF(s, lists) && t != Open && CountAll(lists, idx) == 0 && 1 <= idx
    requires Pushed(s, s', idx, Open, lists.open)
    ensures ListWF(t, lists.Get(t), s'.heads.Get(t), s'.blocks.next, s'.blocks.prev)
  {
    var m := lists.Get(t);
    assert ListWF(t, m, s.heads.Get(t), s.blocks.next, s.blocks.prev);
    Disjoint(s, lists, t, Open);
    forall b | b in RingOf(t, m)
      ensures s'.blocks.next[b] == s.blocks.next[b] && s'.blocks.prev[b] == s.blocks.prev[b]
    {
      assert b !in RingOf(Open, lists.open);
      assert Count(idx, m) == 0;
      assert b in RingOf(t, m);
    }
    ListFrame(t, m, s.heads.Get(t), s.blocks.next, s.blocks.prev, s'.blocks.next, s'.blocks.prev);
  }

  /** add_block's push_block makes the fresh block the head of Open, and with `size` past it the lists are well formed. */
  lemma JoinKeeps(s: State, lists: PerType<seq<int>>)
    requires ListsWF(s, lists) && s.size + 256 <= s.capacity
    ensures var idx := BlockOf(s.size); var empty := s.heads.open == 0;
      PushBlock(s, idx, Open, empty).Ok? &&
      var s' := PushBlock(s, idx, Open, empty).value;
      ListsWF(s'.(size := s'.size + 256), Joined(lists, idx)) &&
      s' == s.(blocks := s.blocks.(next := s'.blocks.next, prev := s'.blocks.prev), heads := s'.heads)
  {
    var idx, m := BlockOf(s.size), lists.Get(Open);
    FreshBlock(s, lists);
    assert ListWF(Open, m, s.heads.Get(Open), s.blocks.next, s.blocks.prev);
    EmptyIffNoHead(Open, m, s.heads.open, s.blocks.next, s.blocks.prev);
    PushBlockKeepsList(s, Open, m, idx, s.heads.open == 0);
    JoinLists(s, PushBlock(s, idx, Open, s.heads.open == 0).value, lists, idx);
  }

  lemma JoinLists(s: State, s': State, lists: PerType<seq<int>>, idx: int)
    requires ListsWF(s, lists) && s.size + 256 <= s.capacity && 1 <= idx
    requires CountAll(lists, idx) == 0 && Partitioned(Joined(lists, idx), s.size / 256 + 1)
    requires Pushed(s, s', idx, Open, lists.open)
    ensures ListsWF(s'.(size := s'.size + 256), Joined(lists, idx))
  {
    OtherAfterJoin(s, s', lists, idx, Closed);
    OtherAfterJoin(s, s', lists, idx, Full);
    var s4, j := s'.(size := s'.size + 256), Joined(lists, idx);
    assert s4.size / 256 == s.size / 256 + 1;
    forall t
      ensures ListWF(t, j.Get(t), s4.heads.Get(t), s4.blocks.next, s4.blocks.prev)
    {
    }
  }

  /**
   * add_block on a well-formed trie: the block at `size` is handed out and
   * returned, joins Open at its head with all 256 slots free, the tables
   * double exactly when they were full, and the invariant holds again.
   */
  lemma AddBlockKeeps(s: State, lists: PerType<seq<int>>, free: seq<seq<int>>)
    requires AllocWF(s, lists, free)
    ensures AddBlock(s).Ok?
    ensures var (s', idx) := AddBlock(s).value;
      idx == BlockOf(s.size) && s'.size == s.size + 256 && s'.heads.open == idx &&
      s'.capacity == (if s.size == s.capacity then 2 * s.capacity else s.capacity) &&
      AllocWF(s', Joined(lists, idx), free + [NewRing(s.size)])
  {
    var s1 := Room(s);
    RoomKeeps(s, lists, free);
    var idx := BlockOf(s1.size);
    LinkRings(s1, free);
    var s2 := LinkBlock(s1, s1.size);
    ListsFields(s1, s2, lists);
    JoinKeeps(s2, lists);
    var s3 := PushBlock(s2, idx, Open, s2.heads.open == 0).value;
    SlotOfBlock(idx + 1, 0);
    AddBlockEnd(s1, s2, s3, lists, free);
    assert AddBlock(s) == Ok((s3.(size := s3.size + 256), idx));
  }

  /** The state add_block ends in, from the one its loop leaves (`s2`) and the one its push_block leaves (`s3`). */
  lemma AddBlockEnd(s1: State, s2: State, s3: State, lists: PerType<seq<int>>, free: seq<seq<int>>)
    requires AllocWF(s1, lists, free) && s1.size + 256 <= s1.capacity
    requires In(BlockOf(s1.size), s1.blocks.head) && s2 == LinkBlock(s1, s1.size)
    requires forall b :: 0 <= b < |free| ==> FreeRingOK(s2, free[b], b)
    requires FreeRingOK(s2, NewRing(s1.size), BlockOf(s1.size))
    requires ListsWF(s3.(size := s3.size + 256), Joined(lists, BlockOf(s1.size)))
    requires s3 == s2.(blocks := s2.blocks.(next := s3.blocks.next, prev := s3.blocks.prev), heads := s3.heads)
    ensures AllocWF(s3.(size := s3.size + 256), Joined(lists, BlockOf(s1.size)), free + [NewRing(s1.size)])
  {
    var idx, s4 := BlockOf(s1.size), s3.(size := s3.size + 256);
    JoinedCounts(s1, s4, lists, idx);
    var free' := free + [NewRing(s1.size)];
    forall b | 0 <= b < |free'|
      ensures FreeRingOK(s4, free'[b], b)
    {
      assert FreeRingOK(s2, free'[b], b);
    }
  }

  /** The fresh block's blank record fits Open, and the blocks after it stay blank. */
  lemma JoinedCounts(s: State, s': State, lists: PerType<seq<int>>, idx: int)
    requires CountsWF(s, lists) && Fresh(s) && idx == BlockOf(s.size) && 0 <= idx < |s.blocks.num|
    requires s'.blocks.num == s.blocks.num && s'.blocks.trial == s.blocks.trial && s'.maxTrial == s.maxTrial
    requires s'.size == s.size + 256 && s.size == 256 * idx
    ensures CountsWF(s', Joined(lists, idx)) && Fresh(s')
  {
    var j := Joined(lists, idx);
    forall t, b | b in j.Get(t)
      ensures Fits(s', t, b)
    {
      if b in lists.Get(t) {
        assert Fits(s, t, b);
      }
    }
    SlotOfBlock(idx + 1, 0);
  }

  /** The head block of Closed or Open has a free slot, and its first free slot is one. */
  lemma HeadSlotFree(s: State, lists: PerType<seq<int>>, free: seq<seq<int>>, t: BlockType)
    requires AllocWF(s, lists, free) && t != Full && s.heads.Get(t) != 0
    ensures var b := s.heads.Get(t);
      0 <= b < |free| && In(b, s.blocks.head) && s.blocks.head[b] in free[b] && BlockOf(s.blocks.head[b]) == b
  {
    var b, m := s.heads.Get(t), lists.Get(t);
    assert ListWF(t, m, s.heads.Get(t), s.blocks.next, s.blocks.prev);
    EmptyIffNoHead(t, m, s.heads.Get(t), s.blocks.next, s.blocks.prev);
    assert b == m[0] && b in m;
    assert CountAll(lists, b) == 1;
    assert Fits(s, t, b);
    assert FreeRingOK(s, free[b], b);
    assert free[b][0] in free[b];
  }

  /**
   * find_place on a well-formed trie hands out a free slot: the first free
   * slot of the head of Closed, else of Open, else of a block added for it;
   * only in that last case does the state change, and the invariant holds.
   */
  lemma FindPlaceKeeps(s: State, lists: PerType<seq<int>>, free: seq<seq<int>>) returns (lists': PerType<seq<int>>, free': seq<seq<int>>)
    requires AllocWF(s, lists, free)
    ensures FindPlace(s).Ok?
    ensures var (s', e) := FindPlace(s).value;
      AllocWF(s', lists', free') && 0 <= BlockOf(e) < |free'| && e in free'[BlockOf(e)] &&
      ((s.heads.closed != 0 || s.heads.open != 0) ==> s' == s && lists' == lists && free' == free)
    ensures |free| <= |free'| && forall b :: 0 <= b < |free| ==> free'[b] == free[b]
  {
    if s.heads.closed != 0 {
      HeadSlotFree(s, lists, free, Closed);
      lists', free' := lists, free;
    } else if s.heads.open != 0 {
      HeadSlotFree(s, lists, free, Open);
      lists', free' := lists, free;
    } else {
      AddBlockKeeps(s, lists, free);
      var idx := BlockOf(s.size);
      lists', free' := Joined(lists, idx), free + [NewRing(s.size)];
      SlotOfBlock(idx, 0);
      assert free'[idx][0] == s.size;
    }
  }
}
