/**
 * The three block lists.  Every handed-out block except block 0 (the root's
 * block) is in exactly one of Open, Closed and Full; each list is a circular
 * doubly-linked list through the blocks' `prev`/`next` columns whose head is
 * kept in `blocks_head_open/closed/full` (0 when the list is empty).
 *
 * Block 0 closes the Full ring: its links start pointing at itself, and
 * transfer_block never treats Full as empty (a block moves to Full only with
 * no free slot), so every block pushed into Full is spliced in before block
 * 0's successor chain and block 0 stays in that ring for good.
 */
module BlockLists {
  import opened Outcomes
  import opened Rings
  import opened CedarState
  import opened AllocSpec

  /** The pointer ring of list `t` with members `m`: Full's ring also runs through block 0. */
  ghost function RingOf(t: BlockType, m: seq<int>): seq<int>
  {
    if t == Full then m + [0] else m
  }

  ghost function HeadOf(r: seq<int>): int
  {
    if r == [] then 0 else r[0]
  }

  /** List `t` with members `m` (from its head on) is a well-linked ring of real blocks headed by `head`. */
  ghost predicate ListWF(t: BlockType, m: seq<int>, head: int, nx: seq<int>, pv: seq<int>)
  {
    var r := RingOf(t, m);
    IsRing(r, nx, pv, false) && Distinct(r) && head == HeadOf(r) && (forall b :: b in m ==> 1 <= b)
  }

  /** 1 when `x` occurs in `s`, else 0. */
  ghost function Count(x: int, s: seq<int>): int
  {
    if x in s then 1 else 0
  }

  ghost function CountAll(lists: PerType<seq<int>>, b: int): int
  {
    Count(b, lists.open) + Count(b, lists.closed) + Count(b, lists.full)
  }

  /** Blocks 1 to `n - 1` are each in exactly one list, and no other block is in any. */
  ghost predicate Partitioned(lists: PerType<seq<int>>, n: int)
  {
    forall b :: CountAll(lists, b) == (if 1 <= b < n then 1 else 0)
  }

  /** The block lists of `s`, with members `lists`, are well formed. */
  ghost predicate ListsWF(s: State, lists: PerType<seq<int>>)
  {
    var nx, pv := s.blocks.next, s.blocks.prev;
    s.Shape() &&
    (forall t {:trigger ListWF(t, lists.Get(t), s.heads.Get(t), nx, pv)} :: ListWF(t, lists.Get(t), s.heads.Get(t), nx, pv)) &&
    Partitioned(lists, s.size / 256)
  }

  /** `s'` differs from `s` at most in the block links and in the head of list `t`. */
  ghost predicate LinksOnly(s: State, s': State, t: BlockType)
  {
    s' == s.(blocks := s.blocks.(next := s'.blocks.next, prev := s'.blocks.prev), heads := s'.heads) &&
    |s'.blocks.next| == |s.blocks.next| && |s'.blocks.prev| == |s.blocks.prev| &&
    forall u :: u != t ==> s'.heads.Get(u) == s.heads.Get(u)
  }

  /** Every block outside `r` keeps its links from `s` to `s'`. */
  ghost predicate LinksKept(s: State, s': State, r: seq<int>)
    requires |s'.blocks.next| == |s.blocks.next| && |s'.blocks.prev| == |s.blocks.prev| == |s.blocks.next|
  {
    forall b :: 0 <= b < |s.blocks.next| && b !in r ==> s'.blocks.next[b] == s.blocks.next[b] && s'.blocks.prev[b] == s.blocks.prev[b]
  }

  /** `s'` is `s` after block `idx` left list `t`, whose members were `m`. */
  ghost predicate Popped(s: State, s': State, idx: int, t: BlockType, m: seq<int>)
  {
    ListWF(t, Remove(m, idx), s'.heads.Get(t), s'.blocks.next, s'.blocks.prev) &&
    LinksOnly(s, s', t) && |s.blocks.prev| == |s.blocks.next| && LinksKept(s, s', RingOf(t, m))
  }

  /** `s'` is `s` after block `idx` became the head of list `t`, whose members were `m`. */
  ghost predicate Pushed(s: State, s': State, idx: int, t: BlockType, m: seq<int>)
  {
    ListWF(t, [idx] + m, s'.heads.Get(t), s'.blocks.next, s'.blocks.prev) && s'.heads.Get(t) == idx &&
    LinksOnly(s, s', t) && |s.blocks.prev| == |s.blocks.next| && LinksKept(s, s', [idx] + RingOf(t, m))
  }

  /** The block lists after block `idx` moves from list `from` to the front of list `to`. */
  ghost function Moved(lists: PerType<seq<int>>, idx: int, from: BlockType, to: BlockType): PerType<seq<int>>
  {
    lists.With(from, Remove(lists.Get(from), idx)).With(to, [idx] + lists.Get(to))
  }

  /** Moving `x` from `a` to the front of `b` keeps every element's total count. */
  lemma MoveCount(a: seq<int>, b: seq<int>, x: int, y: int)
    requires Distinct(a) && x in a && x !in b
    ensures Count(y, Remove(a, x)) + Count(y, [x] + b) == Count(y, a) + Count(y, b)
  {
    var k := IndexOf(a, x);
    RemoveAt(a, k);
    DistinctRemove(a, k);
  }

  lemma {:induction false} RemoveAppend(a: seq<int>, b: seq<int>, x: int)
    requires x in a
    ensures Remove(a + b, x) == Remove(a, x) + b
  {
    assert (a + b)[1..] == a[1..] + b;
    if a[0] != x {
      RemoveAppend(a[1..], b, x);
    }
  }

  /** The links push_block writes put `x` at the front of ring `r` (or make it a ring of its own). */
  lemma PushRing(r: seq<int>, x: int, nx: seq<int>, pv: seq<int>, nx': seq<int>, pv': seq<int>)
    requires IsRing(r, nx, pv, false) && Distinct(r) && x !in r
    requires 0 <= x < |nx| && |pv| == |nx|
    requires r == [] ==> nx' == nx[x := x] && pv' == pv[x := x]
    requires r != [] ==> nx' == nx[x := r[0]][pv[r[0]] := x] && pv' == pv[x := pv[r[0]]][r[0] := x]
    ensures IsRing([x] + r, nx', pv', false) && Distinct([x] + r)
    ensures forall b :: 0 <= b < |nx| && b != x && b !in r ==> nx'[b] == nx[b] && pv'[b] == pv[b]
  {
    if r == [] {
      RingSingle(x, nx', pv', false);
      assert [x] + r == [x];
    } else {
      var n := |r|;
      assert pv[r[0]] == r[n - 1];
      RingInsert(r, 0, x, nx, pv, nx', pv', false);
      assert r[..0] + [x] + r[0..] == [x] + r;
    }
  }

  /** The links pop_block writes take `r[k]` out of ring `r`, which has another member. */
  lemma PopRing(r: seq<int>, k: int, nx: seq<int>, pv: seq<int>, nx': seq<int>, pv': seq<int>)
    requires IsRing(r, nx, pv, false) && Distinct(r) && 0 <= k < |r| && |r| >= 2 && |pv| == |nx|
    requires nx' == nx[pv[r[k]] := nx[r[k]]] && pv' == pv[nx[r[k]] := pv[r[k]]]
    ensures IsRing(r[..k] + r[k + 1..], nx', pv', false) && Distinct(r[..k] + r[k + 1..])
    ensures forall b :: 0 <= b < |nx| && b !in r ==> nx'[b] == nx[b] && pv'[b] == pv[b]
    ensures k == 0 ==> (r[..k] + r[k + 1..])[0] == nx[r[k]]
  {
    var n := |r|;
    assert nx[r[k]] == r[Succ(k, n)] && pv[r[k]] == r[Pred(k, n)];
    RingUnlink(r, k, nx, pv, nx', pv', false);
  }

  /**
   * push_block on a well-formed list: block `idx` becomes the list's first
   * member and its head, and only `idx` and the list's own blocks change links.
   */
  lemma PushBlockKeepsList(s: State, t: BlockType, m: seq<int>, idx: int, empty: bool)
    requires ListWF(t, m, s.heads.Get(t), s.blocks.next, s.blocks.prev) && |s.blocks.prev| == |s.blocks.next|
    requires 1 <= idx < |s.blocks.next| && idx !in m && empty == (RingOf(t, m) == [])
    ensures PushBlock(s, idx, t, empty).Ok?
    ensures Pushed(s, PushBlock(s, idx, t, empty).value, idx, t, m)
  {
    var r := RingOf(t, m);
    var s' := PushBlock(s, idx, t, empty).value;
    assert idx !in r;
    PushRing(r, idx, s.blocks.next, s.blocks.prev, s'.blocks.next, s'.blocks.prev);
    assert RingOf(t, [idx] + m) == [idx] + r;
  }

  /**
   * pop_block on a well-formed list holding `idx`, told whether `idx` is its
   * only member: `idx` leaves the ring, the head moves on when it was `idx`,
   * and only the ring's blocks change links.
   */
  lemma PopBlockKeepsList(s: State, t: BlockType, m: seq<int>, idx: int, last: bool)
    requires ListWF(t, m, s.heads.Get(t), s.blocks.next, s.blocks.prev) && |s.blocks.prev| == |s.blocks.next|
    requires idx in m && last == (|RingOf(t, m)| == 1)
    ensures PopBlock(s, idx, t, last).Ok?
    ensures Popped(s, PopBlock(s, idx, t, last).value, idx, t, m)
  {
    var r := RingOf(t, m);
    assert idx in r;
    var k := IndexOf(r, idx);
    RemoveAt(r, k);
    if t == Full {
      RemoveAppend(m, [0], idx);
    }
    assert RingOf(t, Remove(m, idx)) == r[..k] + r[k + 1..];
    if last {
      assert r == [idx] && r[..k] + r[k + 1..] == [];
    } else {
      PopInner(s, t, r, k);
    }
  }

  /** pop_block of the `k`-th member of a ring with at least two members, headed by the list's head. */
  lemma PopInner(s: State, t: BlockType, r: seq<int>, k: int)
    requires IsRing(r, s.blocks.next, s.blocks.prev, false) && Distinct(r) && |s.blocks.prev| == |s.blocks.next|
    requires |r| >= 2 && 0 <= k < |r| && s.heads.Get(t) == r[0]
    ensures PopBlock(s, r[k], t, false).Ok?
    ensures var s' := PopBlock(s, r[k], t, false).value; var r' := r[..k] + r[k + 1..];
      IsRing(r', s'.blocks.next, s'.blocks.prev, false) && Distinct(r') && s'.heads.Get(t) == HeadOf(r') &&
      LinksOnly(s, s', t) &&
      forall b :: 0 <= b < |s.blocks.next| && b !in r ==>
        s'.blocks.next[b] == s.blocks.next[b] && s'.blocks.prev[b] == s.blocks.prev[b]
  {
    var nx, pv := s.blocks.next, s.blocks.prev;
    assert nx[r[k]] == r[Succ(k, |r|)] && pv[r[k]] == r[Pred(k, |r|)];
    var s' := PopBlock(s, r[k], t, false).value;
    PopRing(r, k, nx, pv, s'.blocks.next, s'.blocks.prev);
    assert (r[k] == r[0]) == (k == 0);
  }

  /** A list whose ring avoids every block whose links changed keeps its ring. */
  lemma ListFrame(t: BlockType, m: seq<int>, head: int, nx: seq<int>, pv: seq<int>, nx': seq<int>, pv': seq<int>)
    requires ListWF(t, m, head, nx, pv)
    requires |nx'| == |nx| && |pv'| == |pv|
    requires forall b :: b in RingOf(t, m) ==> nx'[b] == nx[b] && pv'[b] == pv[b]
    ensures ListWF(t, m, head, nx', pv')
  {
    RingFrame(RingOf(t, m), nx, pv, nx', pv', false);
  }

  /** Different lists share no block, and every ring's blocks index the link columns. */
  lemma Disjoint(s: State, lists: PerType<seq<int>>, t: BlockType, u: BlockType)
    requires ListsWF(s, lists) && t != u
    ensures forall b :: b in RingOf(t, lists.Get(t)) ==> b !in RingOf(u, lists.Get(u))
  {
    forall b | b in RingOf(t, lists.Get(t))
      ensures b !in RingOf(u, lists.Get(u))
    {
      assert CountAll(lists, b) == (if 1 <= b < s.size / 256 then 1 else 0);
    }
  }

  /** In a well-linked list, a block is its own successor exactly when it is the only one in the ring. */
  lemma LastIffSingle(t: BlockType, m: seq<int>, head: int, nx: seq<int>, pv: seq<int>, idx: int)
    requires ListWF(t, m, head, nx, pv) && idx in m
    ensures 0 <= idx < |nx|
    ensures (idx == nx[idx]) == (|RingOf(t, m)| == 1)
  {
    var r := RingOf(t, m);
    assert idx in r;
    var k := IndexOf(r, idx);
    assert nx[r[k]] == r[Succ(k, |r|)];
  }

  /** A list's head is 0 exactly when it has no member; Full's ring is never empty. */
  lemma EmptyIffNoHead(t: BlockType, m: seq<int>, head: int, nx: seq<int>, pv: seq<int>)
    requires ListWF(t, m, head, nx, pv)
    ensures (head == 0) == (m == [])
    ensures (RingOf(t, m) == []) == (t != Full && m == [])
  {
    if m != [] {
      assert m[0] in m;
    }
  }

  /** `s'` is `s` with block `idx` moved from list `from` to the head of list `to`, and nothing else changed. */
  ghost predicate Transferred(s: State, s': State, lists: PerType<seq<int>>, idx: int, from: BlockType, to: BlockType)
  {
    ListsWF(s', Moved(lists, idx, from, to)) &&
    s' == s.(blocks := s.blocks.(next := s'.blocks.next, prev := s'.blocks.prev), heads := s'.heads)
  }

  /**
   * transfer_block on well-formed lists, for a block of list `from` that the
   * caller sends to another list, telling it whether that list's head is 0:
   * the block leaves `from` and heads `to`, the third list is untouched, and
   * the lists stay well formed.  The block must have no free slot exactly
   * when it goes to Full (so Full is never taken to be empty).
   */
  lemma TransferKeepsLists(s: State, lists: PerType<seq<int>>, idx: int, from: BlockType, to: BlockType, toEmpty: bool)
    requires ListsWF(s, lists) && idx in lists.Get(from) && from != to
    requires toEmpty == (s.heads.Get(to) == 0)
    requires 0 <= idx < |s.blocks.num| && (to == Full) == (s.blocks.num[idx] == 0)
    ensures TransferBlock(s, idx, from, to, toEmpty).Ok?
    ensures Transferred(s, TransferBlock(s, idx, from, to, toEmpty).value, lists, idx, from, to)
  {
    TransferFlags(s, lists, idx, from, to, toEmpty);
    TransferSteps(s, lists, idx, from, to, idx == s.blocks.next[idx], toEmpty && s.blocks.num[idx] != 0);
  }

  /** What transfer_block reads off the links and the count says whether `from` ends empty and `to` starts empty. */
  lemma TransferFlags(s: State, lists: PerType<seq<int>>, idx: int, from: BlockType, to: BlockType, toEmpty: bool)
    requires ListsWF(s, lists) && idx in lists.Get(from) && from != to
    requires toEmpty == (s.heads.Get(to) == 0)
    requires 0 <= idx < |s.blocks.num| && (to == Full) == (s.blocks.num[idx] == 0)
    ensures 0 <= idx < |s.blocks.next|
    ensures (idx == s.blocks.next[idx]) == (|RingOf(from, lists.Get(from))| == 1)
    ensures (toEmpty && s.blocks.num[idx] != 0) == (RingOf(to, lists.Get(to)) == [])
  {
    var nx, pv := s.blocks.next, s.blocks.prev;
    var mf, mt := lists.Get(from), lists.Get(to);
    assert ListWF(from, mf, s.heads.Get(from), nx, pv);
    assert ListWF(to, mt, s.heads.Get(to), nx, pv);
    LastIffSingle(from, mf, s.heads.Get(from), nx, pv, idx);
    EmptyIffNoHead(to, mt, s.heads.Get(to), nx, pv);
  }

  /** pop_block then push_block, told correctly whether `from` ends empty and whether `to` starts empty. */
  lemma TransferSteps(s: State, lists: PerType<seq<int>>, idx: int, from: BlockType, to: BlockType, isLast: bool, isEmpty: bool)
    requires ListsWF(s, lists) && idx in lists.Get(from) && from != to
    requires isLast == (|RingOf(from, lists.Get(from))| == 1) && isEmpty == (RingOf(to, lists.Get(to)) == [])
    ensures PopBlock(s, idx, from, isLast).Ok?
    ensures var s1 := PopBlock(s, idx, from, isLast).value;
      PushBlock(s1, idx, to, isEmpty).Ok? &&
      Transferred(s, PushBlock(s1, idx, to, isEmpty).value, lists, idx, from, to)
  {
    var nx, pv := s.blocks.next, s.blocks.prev;
    var mf, mt := lists.Get(from), lists.Get(to);
    assert ListWF(from, mf, s.heads.Get(from), nx, pv);
    assert ListWF(to, mt, s.heads.Get(to), nx, pv);
    Disjoint(s, lists, from, to);
    PopBlockKeepsList(s, from, mf, idx, isLast);
    var s1 := PopBlock(s, idx, from, isLast).value;
    ListFrame(to, mt, s.heads.Get(to), nx, pv, s1.blocks.next, s1.blocks.prev);
    assert idx in RingOf(from, mf);
    PushBlockKeepsList(s1, to, mt, idx, isEmpty);
    TransferEnd(s, s1, PushBlock(s1, idx, to, isEmpty).value, idx, from, to, lists);
  }

  /** After pop_block and push_block, all three lists hold with the block moved, and so does the partition. */
  lemma TransferEnd(s: State, s1: State, s2: State, idx: int, from: BlockType, to: BlockType, lists: PerType<seq<int>>)
    requires ListsWF(s, lists) && from != to
    requires idx in lists.Get(from) && idx !in RingOf(to, lists.Get(to))
    requires Popped(s, s1, idx, from, lists.Get(from)) && Pushed(s1, s2, idx, to, lists.Get(to))
    ensures ListsWF(s2, Moved(lists, idx, from, to))
    ensures s2 == s.(blocks := s.blocks.(next := s2.blocks.next, prev := s2.blocks.prev), heads := s2.heads)
  {
    var l2 := Moved(lists, idx, from, to);
    forall t
      ensures ListWF(t, l2.Get(t), s2.heads.Get(t), s2.blocks.next, s2.blocks.prev)
    {
      if t == from {
        FromAfterPush(s, s1, s2, idx, from, to, lists);
      } else if t != to {
        OtherAfterTransfer(s, s1, s2, idx, from, to, t, lists);
      }
    }
    assert ListWF(from, lists.Get(from), s.heads.Get(from), s.blocks.next, s.blocks.prev);
    TransferCounts(lists, idx, from, to, s.size / 256);
  }

  /** The list the block left is untouched by push_block. */
  lemma FromAfterPush(s: State, s1: State, s2: State, idx: int, from: BlockType, to: BlockType, lists: PerType<seq<int>>)
    requires ListsWF(s, lists) && from != to && idx in lists.Get(from)
    requires ListWF(from, Remove(lists.Get(from), idx), s1.heads.Get(from), s1.blocks.next, s1.blocks.prev)
    requires Pushed(s1, s2, idx, to, lists.Get(to))
    ensures ListWF(from, Moved(lists, idx, from, to).Get(from), s2.heads.Get(from), s2.blocks.next, s2.blocks.prev)
  {
    var mf := lists.Get(from);
    assert ListWF(from, mf, s.heads.Get(from), s.blocks.next, s.blocks.prev);
    Disjoint(s, lists, from, to);
    RemovedRing(from, mf, idx);
    ListFrame(from, Remove(mf, idx), s1.heads.Get(from), s1.blocks.next, s1.blocks.prev, s2.blocks.next, s2.blocks.prev);
  }

  /** The third list is untouched by both steps. */
  lemma OtherAfterTransfer(s: State, s1: State, s2: State, idx: int, from: BlockType, to: BlockType, t: BlockType, lists: PerType<seq<int>>)
    requires ListsWF(s, lists) && from != to && t != from && t != to && idx in lists.Get(from)
    requires Popped(s, s1, idx, from, lists.Get(from)) && Pushed(s1, s2, idx, to, lists.Get(to))
    ensures ListWF(t, Moved(lists, idx, from, to).Get(t), s2.heads.Get(t), s2.blocks.next, s2.blocks.prev)
  {
    var m := lists.Get(t);
    assert ListWF(t, m, s.heads.Get(t), s.blocks.next, s.blocks.prev);
    Disjoint(s, lists, t, from);
    Disjoint(s, lists, t, to);
    assert idx in RingOf(from, lists.Get(from));
    ListFrame(t, m, s.heads.Get(t), s.blocks.next, s.blocks.prev, s1.blocks.next, s1.blocks.prev);
    ListFrame(t, m, s.heads.Get(t), s1.blocks.next, s1.blocks.prev, s2.blocks.next, s2.blocks.prev);
  }

  /** Moving a block between lists keeps the partition. */
  lemma TransferCounts(lists: PerType<seq<int>>, idx: int, from: BlockType, to: BlockType, n: int)
    requires Partitioned(lists, n) && from != to && idx in lists.Get(from) && idx !in lists.Get(to)
    requires Distinct(RingOf(from, lists.Get(from)))
    ensures Partitioned(Moved(lists, idx, from, to), n)
  {
    var r := RingOf(from, lists.Get(from));
    assert forall i :: 0 <= i < |lists.Get(from)| ==> r[i] == lists.Get(from)[i];
    var l2 := Moved(lists, idx, from, to);
    forall b
      ensures CountAll(l2, b) == CountAll(lists, b)
    {
      MoveCount(lists.Get(from), lists.Get(to), idx, b);
    }
  }

  /** Taking a member out of a list leaves a ring made of the other members of the old one. */
  lemma RemovedRing(t: BlockType, m: seq<int>, idx: int)
    requires Distinct(RingOf(t, m)) && idx in m
    ensures forall b :: b in RingOf(t, Remove(m, idx)) ==> b in RingOf(t, m) && b != idx
  {
    var r := RingOf(t, m);
    assert idx in r;
    var k := IndexOf(r, idx);
    RemoveAt(r, k);
    DistinctRemove(r, k);
    if t == Full {
      RemoveAppend(m, [0], idx);
    }
  }
}
