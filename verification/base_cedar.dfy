/**
 * The state both tries share and the steps that update it in place: the
 * block lists, the free rings and the sibling chains.  `Trie` holds the
 * fields of `BaseCedar` (the record buffers as sequence columns, the three
 * list heads and the scalars); each method performs the source's writes and
 * is proved to end in the state the matching function of `AllocSpec` or
 * `Siblings` computes from the state before it.  `Valid` is the allocator's
 * invariant over ghost witnesses (the lists' members and the free rings),
 * which the allocation methods keep.
 */
module BaseCedar {
  import opened Bits
  import opened Outcomes
  import opened Rings
  import opened CedarState
  import opened AllocSpec
  import opened BlockLists
  import opened FreeRings
  import opened AllocProofs
  import opened AddBlockProofs
  import Siblings
  import Placement
  import Nodes


  /** The free ring of block 0 before anything is stored: slots 1 to 255 in order (slot 0 is the root). */
  ghost function RootRing(): (r: seq<int>)
    ensures |r| == 255
  {
    seq(255, i => i + 1)
  }

  /**
   * The trie a constructor makes: one block of 256 slots, the root at slot 0
   * with base `rootBase` and check -1, the other 255 slots in one free ring in
   * index order, block 0 in no list and no list with a member.
   */
  function Initial(ordered: bool, rootBase: int): State
  {
    State(seq(256, i => if i == 0 then rootBase else if i == 1 then -255 else -(i - 1)),
          seq(256, i => if i == 0 || i == 255 then -1 else -(i + 1)),
          seq(256, _ => 0), seq(256, _ => 0),
          Blocks([0], [0], [255], [BLANK_REJECT], [0], [1]),
          seq(257, i => i + 1),
          PerType(0, 0, 0), 1, 256, 256, ordered)
  }

  /** A new trie satisfies the allocator's invariant, with empty lists and block 0's ring of 255 slots. */
  lemma InitialValid(ordered: bool, rootBase: int)
    ensures AllocWF(Initial(ordered, rootBase), PerType([], [], []), [RootRing()])
  {
    var s, f := Initial(ordered, rootBase), RootRing();
    var lists: PerType<seq<int>> := PerType([], [], []);
    forall t
      ensures ListWF(t, lists.Get(t), s.heads.Get(t), s.blocks.next, s.blocks.prev)
    {
      if t == Full {
        assert RingOf(Full, []) == [0];
      }
    }
    forall b
      ensures CountAll(lists, b) == (if 1 <= b < s.size / 256 then 1 else 0)
    {
    }
    forall k | 0 <= k < 255
      ensures s.check[f[k]] == Link(f[Succ(k, 255)], true) && s.base[f[k]] == Link(f[Pred(k, 255)], true)
    {
    }
    assert FreeRingOK(s, f, 0);
  }

  class Trie {
    var base: seq<int>
    var check: seq<int>
    var sibling: seq<Byte>
    var child: seq<Byte>
    var blocks: Blocks
    var reject: seq<int>
    var headFull: int
    var headClosed: int
    var headOpen: int
    var maxTrial: int
    var capacity: int
    var size: int
    const ordered: bool

    /** The fields as one value. */
    function Snapshot(): State
      reads this
    {
      State(base, check, sibling, child, blocks, reject, PerType(headOpen, headClosed, headFull), maxTrial, capacity, size, ordered)
    }

    ghost predicate Valid()
      reads this
    {
      exists lists, free :: AllocWF(Snapshot(), lists, free)
    }

    /** The standard trie's constructor passes root base 0, the reduced one's -1. */
    constructor (ordered: bool, rootBase: int)
      ensures Snapshot() == Initial(ordered, rootBase) && Valid()
    {
      var s := Initial(ordered, rootBase);
      base, check, sibling, child := s.base, s.check, s.sibling, s.child;
      blocks, reject := s.blocks, s.reject;
      headFull, headClosed, headOpen := 0, 0, 0;
      maxTrial, capacity, size := 1, 256, 256;
      this.ordered := ordered;
      new;
      InitialValid(ordered, rootBase);
      assert AllocWF(Snapshot(), PerType([], [], []), [RootRing()]);
    }

    /** get_head */
    function Head(t: BlockType): (h: int)
      reads this
      ensures h == Snapshot().heads.Get(t)
    {
      match t
      case Open => headOpen
      case Closed => headClosed
      case Full => headFull
    }

    /** set_head */
    method SetHead(t: BlockType, h: int)
      modifies this
      ensures Snapshot() == old(Snapshot()).(heads := old(Snapshot()).heads.With(t, h))
    {
      match t
      case Open => headOpen := h;
      case Closed => headClosed := h;
      case Full => headFull := h;
    }

    /** push_block */
    method PushBlock(idx: int, to: BlockType, empty: bool) returns (r: Result<()>)
      modifies this
      ensures var sp := AllocSpec.PushBlock(old(Snapshot()), idx, to, empty);
        r.Ok? == sp.Ok? && (r.Ok? ==> Snapshot() == sp.value)
    {
      var head := Head(to);
      if !In(idx, blocks.next) || !In(idx, blocks.prev) {
        return Err(OutOfBounds);
      }
      if empty {
        blocks := blocks.(next := blocks.next[idx := idx]);
        blocks := blocks.(prev := blocks.prev[idx := idx]);
      } else {
        if !In(head, blocks.prev) || !In(head, blocks.next) || !In(blocks.prev[head], blocks.next) {
          return Err(OutOfBounds);
        }
        blocks := blocks.(prev := blocks.prev[idx := blocks.prev[head]]);
        blocks := blocks.(next := blocks.next[idx := head]);
        var t := blocks.prev[head];
        blocks := blocks.(next := blocks.next[t := idx]);
        blocks := blocks.(prev := blocks.prev[head := idx]);
      }
      SetHead(to, idx);
      return Ok(());
    }

    /** pop_block */
    method PopBlock(idx: int, from: BlockType, last: bool) returns (r: Result<()>)
      modifies this
      ensures var sp := AllocSpec.PopBlock(old(Snapshot()), idx, from, last);
        r.Ok? == sp.Ok? && (r.Ok? ==> Snapshot() == sp.value)
    {
      var head := 0;
      if !last {
        head := Head(from);
        if !In(idx, blocks.next) || !In(idx, blocks.prev) || !In(blocks.prev[idx], blocks.next) || !In(blocks.next[idx], blocks.prev) {
          return Err(OutOfBounds);
        }
        var next := blocks.next[idx];
        var prev := blocks.prev[idx];
        blocks := blocks.(next := blocks.next[prev := next]);
        blocks := blocks.(prev := blocks.prev[next := prev]);
        if idx == head {
          head := next;
        }
      }
      SetHead(from, head);
      return Ok(());
    }

    /** transfer_block */
    method TransferBlock(idx: int, from: BlockType, to: BlockType, toEmpty: bool) returns (r: Result<()>)
      modifies this
      ensures var sp := AllocSpec.TransferBlock(old(Snapshot()), idx, from, to, toEmpty);
        r.Ok? == sp.Ok? && (r.Ok? ==> Snapshot() == sp.value)
    {
      if !In(idx, blocks.next) || !In(idx, blocks.num) {
        return Err(OutOfBounds);
      }
      var isLast := idx == blocks.next[idx];
      var isEmpty := toEmpty && blocks.num[idx] != 0;
      r := PopBlock(idx, from, isLast);
      if r.Err? {
        return;
      }
      r := PushBlock(idx, to, isEmpty);
    }

    /** The resizes add_block makes when every slot is handed out: each buffer doubles, keeping its records. */
    method Resize()
      requires capacity >= 0
      modifies this
      ensures Snapshot() == Grow(old(Snapshot()))
    {
      var c: nat := capacity;
      var nb: nat := c / 256;
      // array.resize, infos.resize and blocks.resize
      capacity, base, check, sibling, child, blocks :=
        c + c, base + Fill(c, BLANK_BASE), check + Fill(c, BLANK_CHECK), sibling + Fill(c, 0), child + Fill(c, 0),
        Blocks(blocks.prev + Fill(nb, 0), blocks.next + Fill(nb, 0),
               blocks.num + Fill(nb, BLANK_NUM), blocks.reject + Fill(nb, BLANK_REJECT),
               blocks.trial + Fill(nb, 0), blocks.head + Fill(nb, 0));
    }

    /** add_block's loop: the 256 slots from `start` on become one free ring, in index order. */
    method LinkSlots(start: int)
      requires 0 <= start && start + 256 <= |base| && start + 256 <= |check|
      modifies this
      ensures Snapshot() == old(Snapshot()).(base := LinkedBase(old(base), start), check := LinkedCheck(old(check), start))
    {
      var b, c := base, check;
      b, c := b[start := -(start + 255)], c[start := -(start + 1)];
      var i := start + 1;
      while i < start + 255
        invariant start + 1 <= i <= start + 255
        invariant |b| == |base| && |c| == |check|
        invariant forall j :: 0 <= j < |b| ==> b[j] == if start <= j < i then -FreePrev(j, start) else base[j]
        invariant forall j :: 0 <= j < |c| ==> c[j] == if start <= j < i then -FreeNext(j, start) else check[j]
      {
        b, c := b[i := -(i - 1)], c[i := -(i + 1)];
        i := i + 1;
      }
      b, c := b[start + 255 := -(start + 254)], c[start + 255 := -start];
      assert b == LinkedBase(base, start);
      assert c == LinkedCheck(check, start);
      base, check := b, c;
    }

    /**
     * add_block: hand out block `size / 256`, doubling the tables first when
     * they are full; `AddBlockKeeps` shows what it keeps.
     */
    method AddBlock() returns (r: Result<int>)
      modifies this
      ensures var sp := AllocSpec.AddBlock(old(Snapshot()));
        r.Ok? == sp.Ok? && (r.Ok? ==> (Snapshot(), r.value) == sp.value)
    {
      ghost var s0 := Snapshot();
      if size == capacity && capacity >= 0 {
        Resize();
      }
      ghost var s1 := Snapshot();
      assert s1 == Room(s0);
      var start := size;
      var idx := start / 256;
      if !In(idx, blocks.head) || !(0 <= start && start + 256 <= |base| && start + 256 <= |check|) {
        return Err(OutOfBounds);
      }
      blocks := blocks.(head := blocks.head[idx := start]);
      LinkSlots(start);
      ghost var s2 := Snapshot();
      assert s2 == LinkBlock(s1, start);
      var isEmpty := headOpen == 0;
      var pushed := PushBlock(idx, Open, isEmpty);
      if pushed.Err? {
        return Err(pushed.fault);
      }
      ghost var s3 := Snapshot();
      assert AllocSpec.PushBlock(s2, idx, Open, s1.heads.open == 0) == Ok(s3);
      size := size + 256;
      r := Ok(size / 256 - 1);
      assert AllocSpec.AddBlock(s0) == Ok((Snapshot(), r.value));
    }

    /** push_e_node's free-list writes: the block's count rises and `e` joins its free ring. */
    method InsertFree(e: int) returns (r: Result<()>)
      modifies this
      ensures var sp := AllocSpec.InsertFree(old(Snapshot()), e);
        r.Ok? == sp.Ok? && (r.Ok? ==> Snapshot() == sp.value)
    {
      var idx := e / 256;
      if !In(e, base) || !In(e, check) || !In(idx, blocks.num) || !In(idx, blocks.head) {
        return Err(OutOfBounds);
      }
      blocks := blocks.(num := blocks.num[idx := blocks.num[idx] + 1]);
      if blocks.num[idx] == 1 {
        blocks := blocks.(head := blocks.head[idx := e]);
        base, check := base[e := -e], check[e := -e];
      } else {
        var prev := blocks.head[idx];
        if !In(prev, check) {
          return Err(OutOfBounds);
        }
        var next := -check[prev];
        if !In(next, base) {
          return Err(OutOfBounds);
        }
        // the slot's links, then its neighbours' links to it
        base, check := base[e := -prev][next := -e], check[e := -next][prev := -e];
      }
      return Ok(());
    }

    /** push_e_node's list moves for block `idx`, which has just gained a free slot. */
    method PushRelink(idx: int) returns (r: Result<()>)
      modifies this
      ensures var sp := AllocSpec.PushRelink(old(Snapshot()), idx);
        r.Ok? == sp.Ok? && (r.Ok? ==> Snapshot() == sp.value)
    {
      if !In(idx, blocks.num) || !In(idx, blocks.trial) {
        return Err(OutOfBounds);
      }
      if blocks.num[idx] == 1 {
        if idx != 0 {
          // one free slot now: from Full to Closed
          r := TransferBlock(idx, Full, Closed, headClosed == 0);
          return;
        }
      } else {
        if (blocks.num[idx] == 2 || blocks.trial[idx] == maxTrial) && idx != 0 {
          // more than one free slot now: from Closed to Open
          r := TransferBlock(idx, Closed, Open, headOpen == 0);
          if r.Err? {
            return;
          }
        }
        blocks := blocks.(trial := blocks.trial[idx := 0]);
      }
      return Ok(());
    }

    /** push_e_node's last writes: the block's rejection bound and the slot's links. */
    method Settle(e: int) returns (r: Result<()>)
      modifies this
      ensures var sp := AllocSpec.Settle(old(Snapshot()), e);
        r.Ok? == sp.Ok? && (r.Ok? ==> Snapshot() == sp.value)
    {
      var idx := e / 256;
      if !In(idx, blocks.num) || !In(blocks.num[idx], reject) || !In(idx, blocks.reject) || !In(e, sibling) || !In(e, child) {
        return Err(OutOfBounds);
      }
      var rej := reject[blocks.num[idx]];
      if blocks.reject[idx] < rej {
        blocks := blocks.(reject := blocks.reject[idx := rej]);
      }
      sibling, child := sibling[e := 0], child[e := 0];
      return Ok(());
    }

    /** push_e_node: slot `e` becomes free again; `PushENodeKeeps` shows what it keeps. */
    method PushENode(e: int) returns (r: Result<()>)
      modifies this
      ensures var sp := AllocSpec.PushENode(old(Snapshot()), e);
        r.Ok? == sp.Ok? && (r.Ok? ==> Snapshot() == sp.value)
    {
      r := InsertFree(e);
      if r.Err? {
        return;
      }
      r := PushRelink(e / 256);
      if r.Err? {
        return;
      }
      r := Settle(e);
    }

    /**
     * find_place: a free slot, from the head of Closed, else of Open, else of
     * a new block; `FindPlaceKeeps` shows it is free.
     */
    method FindPlace() returns (r: Result<int>)
      modifies this
      ensures var sp := AllocSpec.FindPlace(old(Snapshot()));
        r.Ok? == sp.Ok? && (r.Ok? ==> (Snapshot(), r.value) == sp.value)
    {
      if headClosed != 0 {
        if !In(headClosed, blocks.head) {
          return Err(OutOfBounds);
        }
        return Ok(blocks.head[headClosed]);
      }
      if headOpen != 0 {
        if !In(headOpen, blocks.head) {
          return Err(OutOfBounds);
        }
        return Ok(blocks.head[headOpen]);
      }
      var added := AddBlock();
      if added.Err? {
        return Err(added.fault);
      }
      r := Ok(added.value * 256);
    }

    /** pop_sibling: `lab` leaves the chain of `from`; `Siblings.PopSiblingRemoves` shows what the chain becomes. */
    method PopSibling(from: int, base: int, lab: Byte) returns (r: Result<()>)
      modifies this
      ensures var sp := Siblings.PopSibling(old(Snapshot()), from, base, lab);
        r.Ok? == sp.Ok? && (r.Ok? ==> Snapshot() == sp.value)
    {
      if !In(from, child) {
        return Err(OutOfBounds);
      }
      var sib := sibling;
      var c := child[from];
      var isSibling := c != lab;
      var ix := from;
      if isSibling {
        ghost var first := c;
        var fuel: nat := Siblings.MAX_CHAIN;
        // to the slot whose sibling byte is `lab`
        while true
          invariant Siblings.PredSlot(sib, base, c, lab, fuel) == Siblings.PredSlot(sib, base, first, lab, Siblings.MAX_CHAIN)
          decreases fuel
        {
          if fuel == 0 {
            return Err(Diverges);
          }
          ix := XorLabel(base, c);
          if !In(ix, sib) {
            return Err(OutOfBounds);
          }
          ghost var at := c;
          c := sib[ix];
          if c == lab {
            assert Siblings.PredSlot(sib, base, at, lab, fuel) == Ok(ix);
            break;
          }
          fuel := fuel - 1;
        }
      }
      var l := XorLabel(base, lab);
      if !In(l, sib) {
        return Err(OutOfBounds);
      }
      c := sib[l];
      if isSibling {
        sibling := sibling[ix := c];
      } else {
        child := child[from := c];
      }
      return Ok(());
    }

    /**
     * push_sibling, comparing labels as unsigned bytes (see
     * `Siblings.PushSiblingAsWritten` for the source's signed comparison):
     * `lab` joins the chain of `from`; `Siblings.PushSiblingInserts` shows where.
     */
    method PushSibling(from: int, base: int, lab: Byte, hasChild: bool) returns (r: Result<()>)
      modifies this
      ensures var sp := Siblings.PushSibling(old(Snapshot()), from, base, lab, hasChild);
        r.Ok? == sp.Ok? && (r.Ok? ==> Snapshot() == sp.value)
    {
      if !In(from, child) {
        return Err(OutOfBounds);
      }
      var keepOrder := if ordered then child[from] < lab else child[from] == 0;
      var sib := sibling;
      var cIx := from;
      var c: Byte := child[cIx];
      var isSibling := hasChild && keepOrder;
      if isSibling {
        ghost var first := c;
        var fuel: nat := Siblings.MAX_CHAIN + 1;
        // past the labels below `lab` in an ordered trie, else one step
        while true
          invariant Siblings.InsertSlot(sib, base, c, lab, ordered, false, fuel) ==
                    Siblings.InsertSlot(sib, base, first, lab, ordered, false, Siblings.MAX_CHAIN + 1)
          decreases fuel
        {
          if fuel == 0 {
            return Err(Diverges);
          }
          cIx := XorLabel(base, c);
          if !In(cIx, sib) {
            return Err(OutOfBounds);
          }
          ghost var at := c;
          c := sib[cIx];
          if !(ordered && c != 0 && c < lab) {
            assert Siblings.InsertSlot(sib, base, at, lab, ordered, false, fuel) == Ok(cIx);
            break;
          }
          fuel := fuel - 1;
        }
      }
      var next := c;
      if isSibling {
        sibling := sibling[cIx := lab];
      } else {
        child := child[cIx := lab];
      }
      var l := XorLabel(base, lab);
      if !In(l, sibling) {
        return Err(OutOfBounds);
      }
      sibling := sibling[l := next];
      return Ok(());
    }

    /** consult: whether the chain from `cP` outlasts the chain from `cN`; `Siblings.ConsultCompares` shows it compares their lengths. */
    method Consult(baseN: int, baseP: int, cN: Byte, cP: Byte) returns (r: Result<bool>)
      ensures r == Siblings.Consult(Snapshot(), baseN, baseP, cN, cP)
    {
      var sib := sibling;
      var n, p := cN, cP;
      var fuel: nat := Siblings.MAX_CHAIN + 1;
      while true
        invariant Siblings.ConsultFrom(sib, baseN, baseP, n, p, fuel) == Siblings.Consult(Snapshot(), baseN, baseP, cN, cP)
        decreases fuel
      {
        if fuel == 0 {
          return Err(Diverges);
        }
        var iN, iP := XorLabel(baseN, n), XorLabel(baseP, p);
        if !In(iN, sib) || !In(iP, sib) {
          return Err(OutOfBounds);
        }
        n, p := sib[iN], sib[iP];
        if n == 0 || p == 0 {
          return Ok(p != 0);
        }
        fuel := fuel - 1;
      }
    }

    /**
     * One of set_child's walks: the labels read along the chain from `c`, up
     * to its end or, when `bounded`, up to the first label above `lab`; and the
     * label and fuel where it stopped.
     */
    method ReadLabels(base: int, c: Byte, fuel: nat, bounded: bool, lab: Byte) returns (r: Result<(seq<Byte>, Byte, nat)>)
      ensures r.Err? ==> Siblings.Walk(sibling, base, c, fuel) == Err(r.fault)
      ensures r.Ok? ==> var (read, stop, left) := r.value;
        Siblings.Walk(sibling, base, c, fuel) == Siblings.Then(read, Siblings.Walk(sibling, base, stop, left)) &&
        (forall i :: 0 <= i < |read| ==> read[i] != 0 && (bounded ==> read[i] <= lab)) &&
        (stop == 0 || (bounded && stop > lab)) &&
        (if read == [] then stop == c else read[0] == c)
    {
      var sib := sibling;
      var read: seq<Byte> := [];
      var at: Byte, left: nat := c, fuel;
      Siblings.ThenEmpty(Siblings.Walk(sib, base, c, fuel));
      while at != 0 && (!bounded || at <= lab)
        invariant Siblings.Walk(sib, base, c, fuel) == Siblings.Then(read, Siblings.Walk(sib, base, at, left))
        invariant forall i :: 0 <= i < |read| ==> read[i] != 0 && (bounded ==> read[i] <= lab)
        invariant if read == [] then at == c else read[0] == c
        decreases left
      {
        if left == 0 {
          return Err(Diverges);
        }
        var ix := XorLabel(base, at);
        if !In(ix, sib) {
          return Err(OutOfBounds);
        }
        Siblings.ThenThen(read, [at], Siblings.Walk(sib, base, sib[ix], left - 1));
        read, at, left := read + [at], sib[ix], left - 1;
      }
      return Ok((read, at, left));
    }

    /**
     * set_child: the labels to relocate from the chain starting at `c0`, with
     * `lab` put in when `notTerminal`; `Siblings.ArrangeLists` and
     * `Siblings.ArrangeAscending` show what the list holds.
     */
    method SetChild(base: int, c0: Byte, lab: Byte, notTerminal: bool) returns (r: Result<seq<Byte>>)
      ensures r == Siblings.SetChild(sibling, base, c0, lab, notTerminal, ordered)
    {
      var out: seq<Byte> := [];
      var c: Byte := c0;
      if c == 0 {
        out := [c];
        var ix := XorLabel(base, c);
        if !In(ix, sibling) {
          return Err(OutOfBounds);
        }
        c := sibling[ix];
      }
      Siblings.ChainAtThen(sibling, base, c0);
      ghost var pre, up := out, [];
      var fuel: nat := Siblings.MAX_CHAIN;
      if ordered {
        // the labels up to `lab`
        var upTo := ReadLabels(base, c, fuel, true, lab);
        if upTo.Err? {
          return Err(upTo.fault);
        }
        var (got, stop, left) := upTo.value;
        Siblings.ThenThen(out, got, Siblings.Walk(sibling, base, stop, left));
        out, c, fuel := out + got, stop, left;
        up := got;
      }
      assert pre + up == out;
      assert Siblings.ChainAt(sibling, base, c0) == Siblings.Then(pre + up, Siblings.Walk(sibling, base, c, fuel));
      if notTerminal {
        out := out + [lab];
      }
      // the rest of the chain
      var rest := ReadLabels(base, c, fuel, false, lab);
      if rest.Err? {
        return Err(rest.fault);
      }
      var (got, stop, left) := rest.value;
      Siblings.ThenThen(pre + up, got, Siblings.Walk(sibling, base, stop, left));
      assert pre + up + got + [] == pre + up + got;
      Siblings.ArrangeParts(pre, up, got, lab, notTerminal, ordered);
      out := out + got;
      return Ok(out);
    }

    /** find_places' innermost loop: whether every child after the first lands on a slot with a negative `check` under `base`. */
    method ChildrenFit(base: int, child: seq<Byte>) returns (r: Result<bool>)
      ensures r == Placement.ChildrenFit(check, base, child, 1)
    {
      var i := 1;
      while true
        invariant 1 <= i
        invariant Placement.ChildrenFit(check, base, child, i) == Placement.ChildrenFit(check, base, child, 1)
        decreases |child| - i
      {
        if i >= |child| {
          return Err(OutOfBounds);
        }
        var x := XorLabel(base, child[i]);
        if !In(x, check) {
          return Err(OutOfBounds);
        }
        if check[x] >= 0 {
          return Ok(false);
        }
        if i == |child| - 1 {
          return Ok(true);
        }
        i := i + 1;
      }
    }

    /** find_places' walk along the free ring of block `idx`, from its first free slot. */
    method ScanRing(idx: int, child: seq<Byte>) returns (r: Result<Option<int>>)
      requires child != [] && In(idx, blocks.head)
      ensures r == Placement.ScanRing(Snapshot(), idx, blocks.head[idx], child, Placement.MAX_RING)
    {
      var e := blocks.head[idx];
      var fuel: nat := Placement.MAX_RING;
      while true
        invariant Placement.ScanRing(Snapshot(), idx, e, child, fuel) ==
                  Placement.ScanRing(Snapshot(), idx, blocks.head[idx], child, Placement.MAX_RING)
        decreases fuel
      {
        if fuel == 0 {
          return Err(Diverges);
        }
        var fits := ChildrenFit(XorLabel(e, child[0]), child);
        if fits.Err? {
          return Err(fits.fault);
        }
        if fits.value {
          return Ok(Some(e));
        }
        if !In(e, check) {
          return Err(OutOfBounds);
        }
        // the next free slot is stored negated in `check`
        e := -check[e];
        if e == blocks.head[idx] {
          return Ok(None);
        }
        fuel := fuel - 1;
      }
    }

    /** find_places' bookkeeping for block `idx`, which could not take `nc` children. */
    method Reject(idx: int, nc: int) returns (r: Result<()>)
      modifies this
      ensures var sp := Placement.Reject(old(Snapshot()), idx, nc);
        r.Ok? == sp.Ok? && (r.Ok? ==> Snapshot() == sp.value)
    {
      if !In(idx, blocks.reject) || !In(idx, blocks.num) || !In(idx, blocks.trial) {
        return Err(OutOfBounds);
      }
      blocks := blocks.(reject := blocks.reject[idx := nc]);
      var num := blocks.num[idx];
      if !In(num, reject) {
        return Err(OutOfBounds);
      }
      if blocks.reject[idx] < reject[num] {
        reject := reject[num := blocks.reject[idx]];
      }
      blocks := blocks.(trial := blocks.trial[idx := blocks.trial[idx] + 1]);
      if blocks.trial[idx] == maxTrial {
        r := TransferBlock(idx, Open, Closed, headClosed == 0);
        return;
      }
      return Ok(());
    }

    /** find_places' visit of Open block `idx`: search its free ring, or record the rejection. */
    method Visit(idx: int, child: seq<Byte>) returns (r: Result<Option<int>>)
      requires child != [] && In(idx, blocks.num) && In(idx, blocks.reject) && In(idx, blocks.head)
      modifies this
      ensures var sp := Placement.Visit(old(Snapshot()), idx, child);
        r.Ok? == sp.Ok? && (r.Ok? ==> Snapshot() == sp.value.0 && r.value == sp.value.1)
    {
      var nc := |child|;
      if blocks.num[idx] >= nc && nc < blocks.reject[idx] {
        r := ScanRing(idx, child);
        if r.Err? {
          return;
        }
        if r.value.Some? {
          // the slot found becomes the block's first free slot
          blocks := blocks.(head := blocks.head[idx := r.value.value]);
          return;
        }
      }
      var rejected := Reject(idx, nc);
      if rejected.Err? {
        return Err(rejected.fault);
      }
      return Ok(None);
    }

    /** find_places' walk along the Open list from block `idx` to block `bz`. */
    method ScanOpen(idx: int, bz: int, child: seq<Byte>) returns (r: Result<Option<int>>)
      requires child != []
      modifies this
      ensures var sp := Placement.ScanOpen(old(Snapshot()), idx, bz, child, |old(blocks.num)|);
        r.Ok? == sp.Ok? && (r.Ok? ==> Snapshot() == sp.value.0 && r.value == sp.value.1)
    {
      var at := idx;
      var fuel: nat := |blocks.num|;
      ghost var goal := Placement.ScanOpen(Snapshot(), idx, bz, child, fuel);
      while true
        invariant Placement.ScanOpen(Snapshot(), at, bz, child, fuel) == goal
        decreases fuel
      {
        if fuel == 0 {
          return Err(Diverges);
        }
        if !In(at, blocks.num) || !In(at, blocks.reject) || !In(at, blocks.head) || !In(at, blocks.next) {
          return Err(OutOfBounds);
        }
        var next := blocks.next[at];
        r := Visit(at, child);
        if r.Err? || r.value.Some? || at == bz {
          return;
        }
        at, fuel := next, fuel - 1;
      }
    }

    /**
     * find_places: a slot whose base places all of `child`, from the Open
     * blocks or a new one; `Placement.FindPlacesFits` shows the children fit.
     */
    method FindPlaces(child: seq<Byte>) returns (r: Result<int>)
      modifies this
      ensures var sp := Placement.FindPlaces(old(Snapshot()), child);
        r.Ok? == sp.Ok? && (r.Ok? ==> (Snapshot(), r.value) == sp.value)
    {
      var idx := headOpen;
      if idx != 0 {
        if child == [] || !In(idx, blocks.prev) {
          return Err(OutOfBounds);
        }
        var found := ScanOpen(idx, blocks.prev[idx], child);
        if found.Err? {
          return Err(found.fault);
        }
        if found.value.Some? {
          return Ok(found.value.value);
        }
      }
      var added := AddBlock();
      if added.Err? {
        return Err(added.fault);
      }
      return Ok(added.value * 256);
    }

    /** pop_e_node's free-list writes: the block's count drops and `e` leaves its free ring. */
    method RemoveFree(e: int) returns (r: Result<()>)
      modifies this
      ensures var sp := AllocSpec.RemoveFree(old(Snapshot()), e);
        r.Ok? == sp.Ok? && (r.Ok? ==> Snapshot() == sp.value)
    {
      ghost var s0 := Snapshot();
      var idx := e / 256;
      if !In(e, base) || !In(e, check) || !In(idx, blocks.num) || !In(idx, blocks.head) {
        assert AllocSpec.RemoveFree(s0, e).Err?;
        return Err(OutOfBounds);
      }
      var nbase, ncheck := base[e], check[e];
      blocks := blocks.(num := blocks.num[idx := blocks.num[idx] - 1]);
      ghost var s1 := Snapshot();
      assert s1 == s0.(blocks := s0.blocks.(num := s0.blocks.num[idx := s0.blocks.num[idx] - 1]));
      if blocks.num[idx] != 0 {
        if !In(-nbase, check) || !In(-ncheck, base) {
          assert AllocSpec.RemoveFree(s0, e).Err?;
          return Err(OutOfBounds);
        }
        // the neighbours' links close over the gap
        base, check := base[-ncheck := nbase], check[-nbase := ncheck];
        ghost var s3 := Snapshot();
        assert s3 == s1.(check := s1.check[-nbase := ncheck]).(base := s1.base[-ncheck := nbase]);
        if e == blocks.head[idx] {
          blocks := blocks.(head := blocks.head[idx := -ncheck]);
          assert AllocSpec.RemoveFree(s0, e) == Ok(Snapshot());
        } else {
          assert AllocSpec.RemoveFree(s0, e) == Ok(Snapshot());
        }
      } else {
        assert AllocSpec.RemoveFree(s0, e) == Ok(Snapshot());
      }
      return Ok(());
    }

    /** pop_e_node's list moves for block `idx`, which has just lost a free slot. */
    method PopRelink(idx: int) returns (r: Result<()>)
      modifies this
      ensures var sp := AllocSpec.PopRelink(old(Snapshot()), idx);
        r.Ok? == sp.Ok? && (r.Ok? ==> Snapshot() == sp.value)
    {
      if !In(idx, blocks.num) || !In(idx, blocks.trial) {
        return Err(OutOfBounds);
      }
      if blocks.num[idx] == 0 {
        if idx != 0 {
          r := TransferBlock(idx, Closed, Full, headFull == 0);
          return;
        }
      } else if idx != 0 && blocks.num[idx] == 1 && blocks.trial[idx] != maxTrial {
        r := TransferBlock(idx, Open, Closed, headClosed == 0);
        return;
      }
      return Ok(());
    }

    /** pop_e_node's allocator part: slot `e` stops being free; `AllocProofs.TakeSlotKeeps` shows what it keeps. */
    method TakeSlot(e: int) returns (r: Result<()>)
      modifies this
      ensures var sp := AllocSpec.TakeSlot(old(Snapshot()), e);
        r.Ok? == sp.Ok? && (r.Ok? ==> Snapshot() == sp.value)
    {
      r := RemoveFree(e);
      if r.Err? {
        return;
      }
      r := PopRelink(e / 256);
    }

    /**
     * pop_e_node(base, label, from): a new node owned by `from`, at `base ^
     * label` or on the slot find_place offers; `Nodes.PopENodeLinks` and
     * `Nodes.PopENodeKeeps` show what it writes and keeps.
     */
    method PopENode(enc: Encoding, base: int, lab: Byte, from: int) returns (r: Result<int>)
      modifies this
      ensures var sp := Nodes.PopENode(old(Snapshot()), enc, base, lab, from);
        r.Ok? == sp.Ok? && (r.Ok? ==> (Snapshot(), r.value) == sp.value)
    {
      var e: int;
      if base < 0 {
        var placed := FindPlace();
        if placed.Err? {
          return Err(placed.fault);
        }
        e := placed.value;
      } else {
        e := XorLabel(base, lab);
      }
      ghost var s1 := Snapshot();
      assert Nodes.Target(old(Snapshot()), base, lab) == Ok((s1, e));
      var taken := TakeSlot(e);
      if taken.Err? {
        return Err(taken.fault);
      }
      ghost var s2 := Snapshot();
      if !In(e, this.base) || !In(e, check) || (base < 0 && !In(from, this.base)) {
        return Err(OutOfBounds);
      }
      this.base, check := this.base[e := Nodes.FreshBase(enc, lab)], check[e := from];
      if base < 0 {
        this.base := this.base[from := Nodes.LinkBase(enc, e, lab)];
      }
      assert Nodes.Claim(s2, enc, base, lab, from, e, Nodes.LinkBase(enc, e, lab)) == Ok(Snapshot());
      return Ok(e);
    }
  }
}
