/**
 * The allocator's invariant and the steps that keep it.  Besides the block
 * lists and the free rings, the list a block is in agrees with its count of
 * free slots and its number of failed placement rounds:
 *   - Open blocks have at least two free slots and trials left;
 *   - Closed blocks have one free slot, or have used up their trials;
 *   - Full blocks have none.
 * Blocks past `size` are still blank: 256 free slots, no trials.
 */
module AllocProofs {
  import opened Outcomes
  import opened Rings
  import opened CedarState
  import opened AllocSpec
  import opened BlockLists
  import opened FreeRings

  /** Block `b`'s count and trials agree with list `t`. */
  ghost predicate Fits(s: State, t: BlockType, b: int)
  {
    In(b, s.blocks.num) && In(b, s.blocks.trial) &&
    match t
    case Open => s.blocks.num[b] >= 2 && 0 <= s.blocks.trial[b] < s.maxTrial
    case Closed => s.blocks.num[b] >= 1 && (s.blocks.num[b] == 1 || s.blocks.trial[b] == s.maxTrial)
    case Full => s.blocks.num[b] == 0
  }

  ghost predicate CountsWF(s: State, lists: PerType<seq<int>>)
  {
    s.maxTrial >= 1 && forall t, b :: b in lists.Get(t) ==> Fits(s, t, b)
  }

  /** The blocks not handed out yet are blank. */
  ghost predicate Fresh(s: State)
  {
    |s.blocks.trial| == |s.blocks.num| &&
    forall b :: 0 <= b < |s.blocks.num| && s.size / 256 <= b ==> s.blocks.num[b] == BLANK_NUM && s.blocks.trial[b] == 0
  }

  /** The allocator's invariant, with the block lists' members `lists` and the blocks' free rings `free`. */
  ghost predicate AllocWF(s: State, lists: PerType<seq<int>>, free: seq<seq<int>>)
  {
    ListsWF(s, lists) && CountsWF(s, lists) && FreeWF(s, free) && Fresh(s)
  }

  /** `s'` has the counts and trials of `s`, except perhaps block `b`'s. */
  ghost predicate SameCounts(s: State, s': State, b: int)
  {
    s'.maxTrial == s.maxTrial && |s'.blocks.num| == |s.blocks.num| && |s'.blocks.trial| == |s.blocks.trial| &&
    (forall c :: 0 <= c < |s.blocks.num| && c != b ==> s'.blocks.num[c] == s.blocks.num[c]) &&
    (forall c :: 0 <= c < |s.blocks.trial| && c != b ==> s'.blocks.trial[c] == s.blocks.trial[c])
  }

  /** A list's members are distinct. */
  lemma ListDistinct(t: BlockType, m: seq<int>, head: int, nx: seq<int>, pv: seq<int>)
    requires ListWF(t, m, head, nx, pv)
    ensures Distinct(m)
  {
    var r := RingOf(t, m);
    assert forall i :: 0 <= i < |m| ==> r[i] == m[i];
  }

  /** Every handed-out block but block 0 is in some list. */
  lemma WhichList(s: State, lists: PerType<seq<int>>, b: int) returns (t: BlockType)
    requires ListsWF(s, lists) && 1 <= b < s.size / 256
    ensures b in lists.Get(t)
  {
    assert CountAll(lists, b) == 1;
    t := if b in lists.open then Open else if b in lists.closed then Closed else Full;
  }

  /** Only handed-out blocks other than block 0 are listed, each in one list. */
  lemma Listed(s: State, lists: PerType<seq<int>>, b: int, t: BlockType)
    requires ListsWF(s, lists) && b in lists.Get(t)
    ensures 1 <= b < s.size / 256
    ensures forall u :: u != t ==> b !in lists.Get(u)
  {
    assert CountAll(lists, b) == (if 1 <= b < s.size / 256 then 1 else 0);
  }

  /** Who is where after block `idx` moves from `from` to `to`. */
  lemma MovedMembers(s: State, lists: PerType<seq<int>>, idx: int, from: BlockType, to: BlockType)
    requires ListsWF(s, lists) && idx in lists.Get(from) && from != to
    ensures forall t, c :: c in Moved(lists, idx, from, to).Get(t) ==> if c == idx then t == to else c in lists.Get(t)
  {
    var m := lists.Get(from);
    assert ListWF(from, m, s.heads.Get(from), s.blocks.next, s.blocks.prev);
    ListDistinct(from, m, s.heads.Get(from), s.blocks.next, s.blocks.prev);
    var k := IndexOf(m, idx);
    RemoveAt(m, k);
    DistinctRemove(m, k);
    Listed(s, lists, idx, from);
  }

  /** Counts that change only at block `b` keep the invariant when `b` fits the list it is now in. */
  lemma CountsAfter(s: State, s': State, lists: PerType<seq<int>>, lists': PerType<seq<int>>, b: int)
    requires CountsWF(s, lists) && SameCounts(s, s', b)
    requires forall t, c :: c in lists'.Get(t) && c != b ==> c in lists.Get(t)
    requires forall t :: b in lists'.Get(t) ==> Fits(s', t, b)
    ensures CountsWF(s', lists')
  {
    forall t, c | c in lists'.Get(t)
      ensures Fits(s', t, c)
    {
      if c != b {
        assert Fits(s, t, c);
      }
    }
  }

  /** A step that leaves the links, the list heads and `size` alone keeps the block lists. */
  lemma ListsFields(s: State, s': State, lists: PerType<seq<int>>)
    requires ListsWF(s, lists) && s'.Shape()
    requires s'.blocks.next == s.blocks.next && s'.blocks.prev == s.blocks.prev && s'.heads == s.heads && s'.size == s.size
    ensures ListsWF(s', lists)
  {
    assert forall t :: ListWF(t, lists.Get(t), s.heads.Get(t), s.blocks.next, s.blocks.prev);
  }

  /**
   * A transfer_block that a count change calls for: block `b` leaves `from`
   * for `to`, which its new count fits; the lists and counts stay well formed.
   */
  lemma RelinkMove(s0: State, s: State, lists: PerType<seq<int>>, b: int, from: BlockType, to: BlockType)
    requires ListsWF(s, lists) && CountsWF(s0, lists) && SameCounts(s0, s, b)
    requires b in lists.Get(from) && from != to && Fits(s, to, b)
    ensures TransferBlock(s, b, from, to, s.heads.Get(to) == 0).Ok?
    ensures var s' := TransferBlock(s, b, from, to, s.heads.Get(to) == 0).value;
      Transferred(s, s', lists, b, from, to) && CountsWF(s', Moved(lists, b, from, to))
  {
    RelinkMoveLists(s, lists, b, from, to);
    var s' := TransferBlock(s, b, from, to, s.heads.Get(to) == 0).value;
    CountsAfter(s0, s', lists, Moved(lists, b, from, to), b);
  }

  /** The list part of RelinkMove, for a block that has a free slot exactly when it does not go to Full. */
  lemma RelinkMoveLists(s: State, lists: PerType<seq<int>>, b: int, from: BlockType, to: BlockType)
    requires ListsWF(s, lists) && b in lists.Get(from) && from != to
    requires 0 <= b < |s.blocks.num| && (to == Full) == (s.blocks.num[b] == 0)
    ensures TransferBlock(s, b, from, to, s.heads.Get(to) == 0).Ok?
    ensures Transferred(s, TransferBlock(s, b, from, to, s.heads.Get(to) == 0).value, lists, b, from, to)
    ensures forall t, c :: c in Moved(lists, b, from, to).Get(t) ==> if c == b then t == to else c in lists.Get(t)
  {
    TransferKeepsLists(s, lists, b, from, to, s.heads.Get(to) == 0);
    MovedMembers(s, lists, b, from, to);
  }

  /** Block `b` is listed where its count and trials in `s0` say, and has lost one free slot in `s`. */
  ghost predicate LostSlot(s0: State, s: State, b: int)
  {
    SameCounts(s0, s, b) && 0 <= b < |s0.blocks.num| && b < |s0.blocks.trial| &&
    s0.blocks.num[b] >= 1 && s.blocks.num[b] == s0.blocks.num[b] - 1 && s.blocks.trial[b] == s0.blocks.trial[b]
  }

  /**
   * pop_e_node's list moves, after block `b` has lost a free slot, restore
   * the agreement between lists and counts.
   */
  lemma PopRelinkKeeps(s0: State, s: State, lists: PerType<seq<int>>, free: seq<seq<int>>, b: int) returns (lists': PerType<seq<int>>)
    requires CountsWF(s0, lists) && ListsWF(s, lists) && FreeWF(s, free) && Fresh(s)
    requires LostSlot(s0, s, b) && b < s.size / 256
    ensures PopRelink(s, b).Ok? && AllocWF(PopRelink(s, b).value, lists', free)
  {
    var num := s.blocks.num[b];
    if b == 0 {
      lists' := lists;
      NotListed(s, lists, 0);
      CountsAfter(s0, s, lists, lists, 0);
    } else {
      var t := WhichList(s, lists, b);
      assert Fits(s0, t, b);
      if num == 0 || (num == 1 && s.blocks.trial[b] != s.maxTrial) {
        var to := if num == 0 then Full else Closed;
        RelinkMove(s0, s, lists, b, t, to);
        lists' := Moved(lists, b, t, to);
        var s' := PopRelink(s, b).value;
        FreeFields(s, s', free);
      } else {
        lists' := lists;
        Listed(s, lists, b, t);
        CountsAfter(s0, s, lists, lists, b);
      }
    }
  }

  /** Block 0 is in no list. */
  lemma NotListed(s: State, lists: PerType<seq<int>>, b: int)
    requires ListsWF(s, lists) && b == 0
    ensures forall t :: b !in lists.Get(t)
  {
    assert CountAll(lists, b) == 0;
  }

  /**
   * pop_e_node's allocator part on a well-formed trie, for a free slot `e`:
   * `e` leaves its block's free ring, nothing else leaves or joins any, and
   * the invariant holds again.
   */
  lemma TakeSlotKeeps(s: State, lists: PerType<seq<int>>, free: seq<seq<int>>, e: int) returns (lists': PerType<seq<int>>, free': seq<seq<int>>)
    requires AllocWF(s, lists, free) && 0 <= BlockOf(e) < |free| && e in free[BlockOf(e)]
    ensures TakeSlot(s, e).Ok? && AllocWF(TakeSlot(s, e).value, lists', free')
    ensures free' == free[BlockOf(e) := Remove(free[BlockOf(e)], e)] && e !in free'[BlockOf(e)]
  {
    var b := BlockOf(e);
    RemoveFreeKeeps(s, free, e);
    free' := free[b := Remove(free[b], e)];
    var s1 := RemoveFree(s, e).value;
    ListsFields(s, s1, lists);
    assert FreeRingOK(s, free[b], b);
    var k := IndexOf(free[b], e);
    DistinctRemove(free[b], k);
    RemoveAt(free[b], k);
    lists' := PopRelinkKeeps(s, s1, lists, free', b);
  }

  /** Block `b` is listed where its count and trials in `s0` say, and has gained one free slot in `s`. */
  ghost predicate GainedSlot(s0: State, s: State, b: int)
  {
    SameCounts(s0, s, b) && 0 <= b < |s0.blocks.num| && b < |s0.blocks.trial| &&
    s.blocks.num[b] == s0.blocks.num[b] + 1 && s.blocks.trial[b] == s0.blocks.trial[b]
  }

  /**
   * push_e_node's list moves and trial reset, after block `b` has gained a
   * free slot, restore the agreement between lists and counts.
   */
  lemma PushRelinkKeeps(s0: State, s: State, lists: PerType<seq<int>>, free: seq<seq<int>>, b: int) returns (lists': PerType<seq<int>>)
    requires CountsWF(s0, lists) && ListsWF(s, lists) && FreeWF(s, free) && Fresh(s)
    requires GainedSlot(s0, s, b) && b < s.size / 256
    ensures PushRelink(s, b).Ok? && AllocWF(PushRelink(s, b).value, lists', free)
  {
    var num := s.blocks.num[b];
    if b == 0 {
      lists' := lists;
      NotListed(s, lists, 0);
      var s' := PushRelink(s, b).value;
      CountsAfter(s0, s', lists, lists, 0);
      ListsFields(s, s', lists);
      FreeFields(s, s', free);
    } else {
      var t := WhichList(s, lists, b);
      assert Fits(s0, t, b);
      if num == 1 {
        RelinkMove(s0, s, lists, b, t, Closed);
        lists' := Moved(lists, b, t, Closed);
        FreeFields(s, PushRelink(s, b).value, free);
      } else if num == 2 || s.blocks.trial[b] == s.maxTrial {
        lists' := ReopenKeeps(s0, s, lists, free, b, t);
      } else {
        lists' := lists;
        Listed(s, lists, b, t);
        var s' := PushRelink(s, b).value;
        CountsAfter(s0, s', lists, lists, b);
        ListsFields(s, s', lists);
        FreeFields(s, s', free);
      }
    }
  }

  /** A Closed block with two free slots, or out of trials, moves to Open and its trials restart. */
  lemma ReopenKeeps(s0: State, s: State, lists: PerType<seq<int>>, free: seq<seq<int>>, b: int, t: BlockType) returns (lists': PerType<seq<int>>)
    requires CountsWF(s0, lists) && ListsWF(s, lists) && FreeWF(s, free) && Fresh(s)
    requires GainedSlot(s0, s, b) && 1 <= b < s.size / 256 && b in lists.Get(t) && Fits(s0, t, b)
    requires s.blocks.num[b] >= 2 && (s.blocks.num[b] == 2 || s.blocks.trial[b] == s.maxTrial)
    ensures PushRelink(s, b).Ok? && AllocWF(PushRelink(s, b).value, lists', free)
  {
    RelinkMoveLists(s, lists, b, t, Open);
    lists' := Moved(lists, b, t, Open);
    var s1 := TransferBlock(s, b, t, Open, s.heads.open == 0).value;
    var s' := PushRelink(s, b).value;
    assert s' == s1.(blocks := s1.blocks.(trial := s1.blocks.trial[b := 0]));
    CountsAfter(s0, s', lists, lists', b);
    ListsFields(s1, s', lists');
    FreeFields(s, s', free);
  }

  /** A handed-out block's count is a possible number of free slots, 0 to 256. */
  lemma CountBound(s: State, free: seq<seq<int>>, b: int)
    requires FreeWF(s, free) && 0 <= b < |free|
    ensures 0 <= s.blocks.num[b] <= 256
  {
    assert FreeRingOK(s, free[b], b);
    DistinctBound(free[b], 256 * b, 256);
  }

  /** push_e_node's last steps keep the invariant: they touch neither links, counts, trials nor node columns. */
  lemma SettleKeeps(s: State, lists: PerType<seq<int>>, free: seq<seq<int>>, e: int)
    requires AllocWF(s, lists, free) && 0 <= e < s.size
    ensures Settle(s, e).Ok? && AllocWF(Settle(s, e).value, lists, free)
  {
    CountBound(s, free, BlockOf(e));
    var s' := Settle(s, e).value;
    ListsFields(s, s', lists);
    FreeFields(s, s', free);
    CountsAfter(s, s', lists, lists, 0);
  }

  /**
   * push_e_node on a well-formed trie, for a handed-out slot other than the
   * root that is not free: `e` joins its block's free ring, nothing else
   * joins or leaves any, and the invariant holds again.
   */
  lemma PushENodeKeeps(s: State, lists: PerType<seq<int>>, free: seq<seq<int>>, e: int) returns (lists': PerType<seq<int>>, free': seq<seq<int>>)
    requires AllocWF(s, lists, free) && 0 < e < s.size && e !in free[BlockOf(e)]
    ensures PushENode(s, e).Ok? && AllocWF(PushENode(s, e).value, lists', free')
    ensures free' == free[BlockOf(e) := Inserted(free[BlockOf(e)], e)] && e in free'[BlockOf(e)]
  {
    var b := BlockOf(e);
    InsertFreeKeeps(s, free, e);
    free' := free[b := Inserted(free[b], e)];
    var s1 := InsertFree(s, e).value;
    ListsFields(s, s1, lists);
    lists' := PushRelinkKeeps(s, s1, lists, free', b);
    SettleKeeps(PushRelink(s1, b).value, lists', free', e);
  }

  /** transfer_block only relinks lists: counts, trials, rejection bounds and nodes stay. */
  lemma TransferOnlyRelinks(s: State, idx: int, from: BlockType, to: BlockType, toEmpty: bool)
    requires TransferBlock(s, idx, from, to, toEmpty).Ok?
    ensures var s' := TransferBlock(s, idx, from, to, toEmpty).value;
      s' == s.(blocks := s.blocks.(next := s'.blocks.next, prev := s'.blocks.prev), heads := s'.heads)
  {
  }

  /** The free-ring and list steps of push_e_node leave rejection bounds and labels alone. */
  lemma InsertFreeFrame(s: State, e: int)
    requires InsertFree(s, e).Ok?
    ensures var s' := InsertFree(s, e).value;
      s'.blocks.reject == s.blocks.reject && s'.reject == s.reject && s'.child == s.child && s'.sibling == s.sibling
  {
  }

  lemma PushRelinkFrame(s: State, b: int)
    requires PushRelink(s, b).Ok?
    ensures var s' := PushRelink(s, b).value;
      s'.blocks.reject == s.blocks.reject && s'.reject == s.reject && s'.child == s.child && s'.sibling == s.sibling
      && s'.blocks.num == s.blocks.num
  {
    if s.blocks.num[b] == 1 {
      if b != 0 {
        TransferOnlyRelinks(s, b, Full, Closed, s.heads.closed == 0);
      }
    } else if (s.blocks.num[b] == 2 || s.blocks.trial[b] == s.maxTrial) && b != 0 {
      TransferOnlyRelinks(s, b, Closed, Open, s.heads.open == 0);
    }
  }

  /**
   * push_e_node never lowers a block's rejection bound: only the freed slot's
   * block changes, and it ends at least at the global bound for its new count;
   * the slot's child and sibling labels are cleared, and the block counts one
   * more free slot.
   */
  lemma PushENodeRaisesReject(s: State, e: int)
    requires PushENode(s, e).Ok?
    ensures var s', b := PushENode(s, e).value, BlockOf(e);
      && 0 <= b < |s.blocks.reject| == |s'.blocks.reject| && 0 <= e < |s'.child| && e < |s'.sibling|
      && In(b, s.blocks.num) && |s'.blocks.num| == |s.blocks.num| && s'.blocks.num[b] == s.blocks.num[b] + 1
      && (forall c :: 0 <= c < |s.blocks.reject| && c != b ==> s'.blocks.reject[c] == s.blocks.reject[c])
      && s.blocks.reject[b] <= s'.blocks.reject[b]
      && In(b, s'.blocks.num) && In(s'.blocks.num[b], s'.reject) && s'.reject[s'.blocks.num[b]] <= s'.blocks.reject[b]
      && s'.child[e] == 0 && s'.sibling[e] == 0
  {
    var s1 := InsertFree(s, e).value;
    InsertFreeFrame(s, e);
    var s2 := PushRelink(s1, BlockOf(e)).value;
    PushRelinkFrame(s1, BlockOf(e));
    assert PushENode(s, e) == Settle(s2, e);
  }
}
