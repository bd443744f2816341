/**
 * find_places: choosing a base for a node whose children must move.  The
 * children are the labels `child` (as set_child lists them); a base `b` fits
 * when each child's slot `b ^ label` is free, which the source reads off a
 * negative `check`.  Candidates are `e ^ child[0]` for the free slots `e` of
 * the Open blocks, tried block by block along the Open list and slot by slot
 * along each block's free ring; a block that fails records the number of
 * children it could not take (its `reject`, and the global one for its count
 * of free slots), uses up a trial, and moves to Closed when it has none
 * left.  When no Open block fits, a new block is added.
 */
module Placement {
  import opened Bits
  import opened Outcomes
  import opened CedarState
  import opened AllocSpec

  /** The longest free ring a walk follows: a block has 256 slots. */
  const MAX_RING: nat := 256

  /** The slot child `i` gets under the base `e ^ child[0]`. */
  function SlotOf(e: int, child: seq<Byte>, i: int): int
    requires 0 <= i < |child|
  {
    XorLabel(XorLabel(e, child[0]), child[i])
  }

  /**
   * find_places' innermost loop, from child `i` on: whether every child's
   * slot under `base` has a negative `check`.  The source reads `child[1]`
   * before looking at the length, so a single child is out of bounds.
   */
  function ChildrenFit(check: seq<int>, base: int, child: seq<Byte>, i: nat): Result<bool>
    decreases |child| - i
  {
    if i >= |child| then Err(OutOfBounds)
    else
      var x := XorLabel(base, child[i]);
      if !In(x, check) then Err(OutOfBounds)
      else if check[x] >= 0 then Ok(false)
      else if i == |child| - 1 then Ok(true)
      else ChildrenFit(check, base, child, i + 1)
  }

  /**
   * find_places' walk along the free ring of block `idx`, from slot `e` back
   * to the block's first free slot: the first slot whose base fits the
   * children, or `None`.
   */
  function ScanRing(s: State, idx: int, e: int, child: seq<Byte>, fuel: nat): Result<Option<int>>
    requires child != [] && In(idx, s.blocks.head)
    decreases fuel
  {
    if fuel == 0 then Err(Diverges)
    else
      var fits :- ChildrenFit(s.check, XorLabel(e, child[0]), child, 1);
      if fits then Ok(Some(e))
      else if !In(e, s.check) then Err(OutOfBounds)
      else
        var next := -s.check[e];
        if next == s.blocks.head[idx] then Ok(None)
        else ScanRing(s, idx, next, child, fuel - 1)
  }

  /**
   * What find_places records about block `idx` when it could not place `nc`
   * children there: the block's `reject` becomes `nc` (and the global one
   * for its count of free slots drops to it), it uses up a trial, and it
   * moves from Open to Closed when that was its last.
   */
  function Reject(s: State, idx: int, nc: int): Result<State>
  {
    if !In(idx, s.blocks.reject) || !In(idx, s.blocks.num) || !In(idx, s.blocks.trial) then Err(OutOfBounds)
    else
      var s1 := s.(blocks := s.blocks.(reject := s.blocks.reject[idx := nc]));
      var num := s1.blocks.num[idx];
      if !In(num, s1.reject) then Err(OutOfBounds)
      else
        var s2 := if nc < s1.reject[num] then s1.(reject := s1.reject[num := nc]) else s1;
        var s3 := s2.(blocks := s2.blocks.(trial := s2.blocks.trial[idx := s2.blocks.trial[idx] + 1]));
        if s3.blocks.trial[idx] == s3.maxTrial then TransferBlock(s3, idx, Open, Closed, s3.heads.closed == 0)
        else Ok(s3)
  }

  /**
   * find_places' visit of Open block `idx`: when the block has enough free
   * slots and has not rejected as many children before, its free ring is
   * searched, and a slot found becomes the block's first free slot;
   * otherwise the block records the rejection.
   */
  function Visit(s: State, idx: int, child: seq<Byte>): Result<(State, Option<int>)>
    requires child != [] && In(idx, s.blocks.num) && In(idx, s.blocks.reject) && In(idx, s.blocks.head)
  {
    var nc := |child|;
    var found :-
      if s.blocks.num[idx] >= nc && nc < s.blocks.reject[idx] then ScanRing(s, idx, s.blocks.head[idx], child, MAX_RING)
      else Ok(None);
    if found.Some? then
      Ok((s.(blocks := s.blocks.(head := s.blocks.head[idx := found.value])), found))
    else
      var s1 :- Reject(s, idx, nc);
      Ok((s1, None))
  }

  /**
   * find_places' walk along the Open list from block `idx` to `bz`, the
   * block that was last when the walk began: the state and, when some block
   * fits the children, the slot chosen.  A walk that has not reached `bz`
   * after visiting as many blocks as there are is caught in a cycle, where
   * the source loops for ever.
   */
  function ScanOpen(s: State, idx: int, bz: int, child: seq<Byte>, fuel: nat): Result<(State, Option<int>)>
    requires child != []
    decreases fuel
  {
    if fuel == 0 then Err(Diverges)
    else if !In(idx, s.blocks.num) || !In(idx, s.blocks.reject) || !In(idx, s.blocks.head) || !In(idx, s.blocks.next) then
      Err(OutOfBounds)
    else
      var next := s.blocks.next[idx];
      var (s1, found) :- Visit(s, idx, child);
      if found.Some? || idx == bz then Ok((s1, found))
      else ScanOpen(s1, next, bz, child, fuel - 1)
  }

  /**
   * find_places(child): a slot `e` such that the base `e ^ child[0]` places
   * every child on a free slot, from the Open blocks, else the first slot of
   * a newly added block.
   */
  function FindPlaces(s: State, child: seq<Byte>): Result<(State, int)>
  {
    var idx := s.heads.open;
    var (s1, found) :-
      if idx == 0 then Ok((s, None))
      else if child == [] || !In(idx, s.blocks.prev) then Err(OutOfBounds)
      else ScanOpen(s, idx, s.blocks.prev[idx], child, |s.blocks.num|);
    if found.Some? then Ok((s1, found.value))
    else
      var (s2, b) :- AddBlock(s1);
      Ok((s2, b * 256))
  }

  /** Every child after the first lands on a slot whose `check` is negative, under the base `e ^ child[0]`. */
  ghost predicate Placed(check: seq<int>, e: int, child: seq<Byte>)
  {
    child != [] &&
    forall i :: 1 <= i < |child| ==> In(SlotOf(e, child, i), check) && check[SlotOf(e, child, i)] < 0
  }

  /** The innermost loop answers whether every child from `i` on has a slot with a negative `check`. */
  lemma {:induction false} ChildrenFitMeans(check: seq<int>, base: int, child: seq<Byte>, i: nat)
    requires ChildrenFit(check, base, child, i).Ok?
    ensures ChildrenFit(check, base, child, i).value <==>
      forall j :: i <= j < |child| ==> In(XorLabel(base, child[j]), check) && check[XorLabel(base, child[j])] < 0
    decreases |child| - i
  {
    var x := XorLabel(base, child[i]);
    if check[x] < 0 && i < |child| - 1 {
      ChildrenFitMeans(check, base, child, i + 1);
    }
  }

  /** A slot the ring walk returns fits the children. */
  lemma {:induction false} ScanRingFits(s: State, idx: int, e: int, child: seq<Byte>, fuel: nat)
    requires child != [] && In(idx, s.blocks.head)
    requires ScanRing(s, idx, e, child, fuel).Ok? && ScanRing(s, idx, e, child, fuel).value.Some?
    ensures Placed(s.check, ScanRing(s, idx, e, child, fuel).value.value, child)
    decreases fuel
  {
    var fits := ChildrenFit(s.check, XorLabel(e, child[0]), child, 1);
    if fits.value {
      ChildrenFitMeans(s.check, XorLabel(e, child[0]), child, 1);
    } else {
      ScanRingFits(s, idx, -s.check[e], child, fuel - 1);
    }
  }

  /** What find_places records about a block that fails touches neither the node columns nor `size`. */
  lemma RejectKeepsNodes(s: State, idx: int, nc: int)
    requires Reject(s, idx, nc).Ok?
    ensures var s' := Reject(s, idx, nc).value;
      s'.check == s.check && s'.base == s.base && s'.size == s.size && s'.capacity == s.capacity &&
      |s'.blocks.head| == |s.blocks.head|
  {
  }

  /** One visit touches neither the node columns nor `size`, and a slot it returns fits the children. */
  lemma VisitFits(s: State, idx: int, child: seq<Byte>, s1: State, found: Option<int>)
    requires child != [] && In(idx, s.blocks.num) && In(idx, s.blocks.reject) && In(idx, s.blocks.head)
    requires Visit(s, idx, child) == Ok((s1, found))
    ensures s1.check == s.check && s1.base == s.base && s1.size == s.size && s1.capacity == s.capacity
    ensures found.Some? ==> Placed(s.check, found.value, child)
  {
    var nc := |child|;
    if s.blocks.num[idx] >= nc && nc < s.blocks.reject[idx] && ScanRing(s, idx, s.blocks.head[idx], child, MAX_RING).value.Some? {
      ScanRingFits(s, idx, s.blocks.head[idx], child, MAX_RING);
    } else {
      RejectKeepsNodes(s, idx, nc);
    }
  }

  /**
   * The walk along the Open list touches neither the node columns nor
   * `size`, and a slot it returns fits the children.
   */
  lemma {:induction false} ScanOpenFits(s: State, idx: int, bz: int, child: seq<Byte>, fuel: nat, s': State, found: Option<int>)
    requires child != [] && ScanOpen(s, idx, bz, child, fuel) == Ok((s', found))
    ensures s'.check == s.check && s'.base == s.base && s'.size == s.size && s'.capacity == s.capacity
    ensures found.Some? ==> Placed(s.check, found.value, child)
    decreases fuel
  {
    var (s1, f1) := Visit(s, idx, child).value;
    VisitFits(s, idx, child, s1, f1);
    if f1.None? && idx != bz {
      ScanOpenFits(s1, s.blocks.next[idx], bz, child, fuel - 1, s', found);
    }
  }

  /** A new block's slots all have a negative `check`, so every child fits under the base of its first slot. */
  lemma AddBlockPlaces(s: State, child: seq<Byte>)
    requires child != [] && 256 <= s.size && s.size % 256 == 0 && AddBlock(s).Ok?
    ensures var (s', b) := AddBlock(s).value;
      Placed(s'.check, b * 256, child)
  {
    var (s', b) := AddBlock(s).value;
    var start := s.size;
    assert b * 256 == start;
    forall i | 1 <= i < |child|
      ensures In(SlotOf(start, child, i), s'.check) && s'.check[SlotOf(start, child, i)] < 0
    {
      var x := SlotOf(start, child, i);
      assert x / 256 == start / 256;
      assert start <= x < start + 256;
    }
  }

  /**
   * find_places hands out a slot whose base places every child after the
   * first on a slot with a negative `check`: one found in an Open block, or
   * the first slot of a new block.
   */
  lemma FindPlacesFits(s: State, child: seq<Byte>)
    requires s.Shape() && child != [] && FindPlaces(s, child).Ok?
    ensures var (s', e) := FindPlaces(s, child).value;
      Placed(s'.check, e, child)
  {
    var idx := s.heads.open;
    if idx == 0 {
      AddBlockPlaces(s, child);
    } else {
      var (s1, found) := ScanOpen(s, idx, s.blocks.prev[idx], child, |s.blocks.num|).value;
      ScanOpenFits(s, idx, s.blocks.prev[idx], child, |s.blocks.num|, s1, found);
      if found.None? {
        AddBlockPlaces(s1, child);
      }
    }
  }
}
