/**
 * What each step of the slot allocator does to the trie's state, as functions
 * of the state before it.  The class methods in `BaseCedar` perform the same
 * writes in place and are proved to end in exactly these states; the lemmas in
 * `AllocProofs` show what the steps keep.  An index outside its table ends the
 * step in `Err(OutOfBounds)`, which is where the source would throw.
 */
module AllocSpec {
  import opened Bits
  import opened Outcomes
  import opened CedarState

  /** Records `resize` writes into fresh room.  The source's initial records are not part of this model; these are assumed. */
  const BLANK_BASE: int := 0
  const BLANK_CHECK: int := 0
  const BLANK_NUM: int := 256
  const BLANK_REJECT: int := 257

  /** push_block: make block `idx` the head of list `to`, alone in it when `empty`, else just before the old head. */
  function PushBlock(s: State, idx: int, to: BlockType, empty: bool): Result<State>
  {
    var nx, pv, head := s.blocks.next, s.blocks.prev, s.heads.Get(to);
    if !In(idx, nx) || !In(idx, pv) then Err(OutOfBounds)
    else if empty then
      Ok(s.(blocks := s.blocks.(next := nx[idx := idx], prev := pv[idx := idx]), heads := s.heads.With(to, idx)))
    else if !In(head, pv) || !In(head, nx) || !In(pv[head], nx) then Err(OutOfBounds)
    else
      // the old tail is read after prev(idx) is written; it is prev(head) either way
      var t := pv[head];
      Ok(s.(blocks := s.blocks.(next := nx[idx := head][t := idx], prev := pv[idx := t][head := idx]),
            heads := s.heads.With(to, idx)))
  }

  /** pop_block: unlink block `idx` from list `from`; the head becomes 0 when `last`, and moves on when it was `idx`. */
  function PopBlock(s: State, idx: int, from: BlockType, last: bool): Result<State>
  {
    var nx, pv := s.blocks.next, s.blocks.prev;
    if last then Ok(s.(heads := s.heads.With(from, 0)))
    else if !In(idx, nx) || !In(idx, pv) || !In(pv[idx], nx) || !In(nx[idx], pv) then Err(OutOfBounds)
    else
      var next, prev := nx[idx], pv[idx];
      var head := if idx == s.heads.Get(from) then next else s.heads.Get(from);
      Ok(s.(blocks := s.blocks.(next := nx[prev := next], prev := pv[next := prev]), heads := s.heads.With(from, head)))
  }

  /**
   * transfer_block: move block `idx` from list `from` to list `to`.  The block
   * is last in `from` when it is its own successor; `to` is treated as empty
   * when the caller says so and the block has a free slot (so never for Full).
   */
  function TransferBlock(s: State, idx: int, from: BlockType, to: BlockType, toEmpty: bool): Result<State>
  {
    if !In(idx, s.blocks.next) || !In(idx, s.blocks.num) then Err(OutOfBounds)
    else
      var isLast := idx == s.blocks.next[idx];
      var isEmpty := toEmpty && s.blocks.num[idx] != 0;
      var s1 :- PopBlock(s, idx, from, isLast);
      PushBlock(s1, idx, to, isEmpty)
  }

  /** The free-ring neighbours add_block gives slot `j` of the block whose first slot is `start`. */
  function FreePrev(j: int, start: int): int
  {
    if j == start then start + 255 else j - 1
  }

  function FreeNext(j: int, start: int): int
  {
    if j == start + 255 then start else j + 1
  }

  /** The `base` column after add_block links slots `start .. start+255` into one free ring (`base = -prev`). */
  function LinkedBase(base: seq<int>, start: int): (r: seq<int>)
    ensures |r| == |base|
  {
    seq(|base|, j requires 0 <= j < |base| => if start <= j < start + 256 then -FreePrev(j, start) else base[j])
  }

  /** The `check` column after add_block links the new block's slots (`check = -next`). */
  function LinkedCheck(check: seq<int>, start: int): (r: seq<int>)
    ensures |r| == |check|
  {
    seq(|check|, j requires 0 <= j < |check| => if start <= j < start + 256 then -FreeNext(j, start) else check[j])
  }

  /** `n` records of value `v`: what a buffer's resize writes into its new room. */
  function Fill<T>(n: nat, v: T): (r: seq<T>)
    ensures |r| == n && forall i :: 0 <= i < n ==> r[i] == v
  {
    seq(n, _ => v)
  }

  /** The tables after `capacity` doubles: every buffer keeps its records and gains fresh ones. */
  function Grow(s: State): (r: State)
    requires s.capacity >= 0
  {
    var c := s.capacity;
    var nb := c / 256;
    s.(capacity := c + c,
       base := s.base + Fill(c, BLANK_BASE), check := s.check + Fill(c, BLANK_CHECK),
       sibling := s.sibling + Fill(c, 0), child := s.child + Fill(c, 0),
       blocks := Blocks(s.blocks.prev + Fill(nb, 0), s.blocks.next + Fill(nb, 0),
                        s.blocks.num + Fill(nb, BLANK_NUM), s.blocks.reject + Fill(nb, BLANK_REJECT),
                        s.blocks.trial + Fill(nb, 0), s.blocks.head + Fill(nb, 0)))
  }

  /**
   * add_block's first step: double the tables when every slot is handed out.
   * (A negative capacity would make the resize throw; the index check after
   * this step fails for it instead.)
   */
  function Room(s: State): State
  {
    if s.size == s.capacity && s.capacity >= 0 then Grow(s) else s
  }

  /**
   * add_block: hand out the block at `size` (doubling the tables first when
   * they are full), link its 256 slots into its free ring, put it at the head
   * of the Open list and return its index.
   */
  function AddBlock(s: State): Result<(State, int)>
  {
    var s1 := Room(s);
    var start := s1.size;
    var idx := BlockOf(start);
    if !In(idx, s1.blocks.head) || !(0 <= start && start + 256 <= |s1.base| && start + 256 <= |s1.check|) then Err(OutOfBounds)
    else
      var s3 :- PushBlock(LinkBlock(s1, start), idx, Open, s1.heads.open == 0);
      Ok((s3.(size := s3.size + 256), BlockOf(s3.size + 256) - 1))
  }

  /** add_block's writes to the block whose first slot is `start`: that is its first free slot, and its slots are linked into one ring. */
  function LinkBlock(s: State, start: int): (r: State)
    requires In(BlockOf(start), s.blocks.head)
  {
    s.(blocks := s.blocks.(head := s.blocks.head[BlockOf(start) := start]),
       base := LinkedBase(s.base, start), check := LinkedCheck(s.check, start))
  }

  /**
   * The free-list part of pop_e_node: the block's count drops, and unless
   * that was its last free slot, slot `e` is unlinked from the block's free
   * ring (its neighbours read off its own negated links) and the block's
   * first free slot moves on when it was `e`.
   */
  function RemoveFree(s: State, e: int): Result<State>
  {
    var idx := BlockOf(e);
    if !In(e, s.base) || !In(e, s.check) || !In(idx, s.blocks.num) || !In(idx, s.blocks.head) then Err(OutOfBounds)
    else
      var nbase, ncheck := s.base[e], s.check[e];
      var num := s.blocks.num[idx] - 1;
      var s1 := s.(blocks := s.blocks.(num := s.blocks.num[idx := num]));
      if num == 0 then Ok(s1)
      else if !In(-nbase, s1.check) || !In(-ncheck, s1.base) then Err(OutOfBounds)
      else
        var s2 := s1.(check := s1.check[-nbase := ncheck]);
        var s3 := s2.(base := s2.base[-ncheck := nbase]);
        if e == s3.blocks.head[idx] then Ok(s3.(blocks := s3.blocks.(head := s3.blocks.head[idx := -ncheck]))) else Ok(s3)
  }

  /**
   * The list moves pop_e_node makes once block `idx` has lost a slot: to
   * Full when none is left, from Open to Closed when one is left and the
   * block has not used up its trials.  Block 0 never moves.
   */
  function PopRelink(s: State, idx: int): Result<State>
  {
    if !In(idx, s.blocks.num) || !In(idx, s.blocks.trial) then Err(OutOfBounds)
    else if s.blocks.num[idx] == 0 then
      if idx != 0 then TransferBlock(s, idx, Closed, Full, s.heads.full == 0) else Ok(s)
    else if idx != 0 && s.blocks.num[idx] == 1 && s.blocks.trial[idx] != s.maxTrial then
      TransferBlock(s, idx, Open, Closed, s.heads.closed == 0)
    else Ok(s)
  }

  /** The allocator's part of pop_e_node: slot `e` stops being free. */
  function TakeSlot(s: State, e: int): Result<State>
  {
    var s1 :- RemoveFree(s, e);
    PopRelink(s1, BlockOf(e))
  }

  /**
   * The free-list part of push_e_node: the block's count rises, and slot `e`
   * becomes the block's only free slot (and its first) when the count is now
   * 1, else is linked in right after the block's first free slot.
   */
  function InsertFree(s: State, e: int): Result<State>
  {
    var idx := BlockOf(e);
    if !In(e, s.base) || !In(e, s.check) || !In(idx, s.blocks.num) || !In(idx, s.blocks.head) then Err(OutOfBounds)
    else
      var num := s.blocks.num[idx] + 1;
      var s1 := s.(blocks := s.blocks.(num := s.blocks.num[idx := num]));
      if num == 1 then
        Ok(s1.(blocks := s1.blocks.(head := s1.blocks.head[idx := e]), base := s1.base[e := -e], check := s1.check[e := -e]))
      else
        var prev := s1.blocks.head[idx];
        if !In(prev, s1.check) then Err(OutOfBounds)
        else
          var next := -s1.check[prev];
          if !In(next, s1.base) then Err(OutOfBounds)
          else
            var s2 := s1.(base := s1.base[e := -prev], check := s1.check[e := -next]);
            var s3 := s2.(check := s2.check[prev := -e]);
            Ok(s3.(base := s3.base[next := -e]))
  }

  /**
   * The list moves push_e_node makes once block `idx` has gained a slot:
   * from Full to Closed at one free slot; from Closed to Open at two, or when
   * the block had used up its trials, whose count then restarts.  Block 0
   * never moves.
   */
  function PushRelink(s: State, idx: int): Result<State>
  {
    if !In(idx, s.blocks.num) || !In(idx, s.blocks.trial) then Err(OutOfBounds)
    else if s.blocks.num[idx] == 1 then
      if idx != 0 then TransferBlock(s, idx, Full, Closed, s.heads.closed == 0) else Ok(s)
    else
      var moved :-
        if (s.blocks.num[idx] == 2 || s.blocks.trial[idx] == s.maxTrial) && idx != 0 then
          TransferBlock(s, idx, Closed, Open, s.heads.open == 0)
        else Ok(s);
      Ok(moved.(blocks := moved.blocks.(trial := moved.blocks.trial[idx := 0])))
  }

  /** push_e_node's last steps: the block's rejection bound rises to the global one for its count, and the slot's links clear. */
  function Settle(s: State, e: int): Result<State>
  {
    var idx := BlockOf(e);
    if !In(idx, s.blocks.num) || !In(s.blocks.num[idx], s.reject) || !In(idx, s.blocks.reject) || !In(e, s.sibling) || !In(e, s.child) then
      Err(OutOfBounds)
    else
      var rej := s.reject[s.blocks.num[idx]];
      var s1 := if s.blocks.reject[idx] < rej then s.(blocks := s.blocks.(reject := s.blocks.reject[idx := rej])) else s;
      Ok(s1.(sibling := s1.sibling[e := 0], child := s1.child[e := 0]))
  }

  /** push_e_node: slot `e` becomes free again. */
  function PushENode(s: State, e: int): Result<State>
  {
    var s1 :- InsertFree(s, e);
    var s2 :- PushRelink(s1, BlockOf(e));
    Settle(s2, e)
  }

  /**
   * find_place: the first free slot of the head block of Closed, else of
   * Open, else of a newly added block.
   */
  function FindPlace(s: State): Result<(State, int)>
  {
    if s.heads.closed != 0 then
      if In(s.heads.closed, s.blocks.head) then Ok((s, s.blocks.head[s.heads.closed])) else Err(OutOfBounds)
    else if s.heads.open != 0 then
      if In(s.heads.open, s.blocks.head) then Ok((s, s.blocks.head[s.heads.open])) else Err(OutOfBounds)
    else
      var (s1, idx) :- AddBlock(s);
      Ok((s1, idx * 256))
  }
}
