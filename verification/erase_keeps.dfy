/**
 * What the standard trie's erase leaves alone: every other key keeps its
 * value.  erase's climb (Cedar.java:452-471) gives a node back only after a
 * round at that node found its chain of children holding a single label, so
 * it ends at the deepest node the erased key shares with any other key, and
 * it frees nothing on that other key's path.
 */
module EraseKeeps {
  import opened Bits
  import opened Outcomes
  import opened CedarState
  import opened AllocSpec
  import opened FreeRings
  import opened AllocProofs
  import opened Keys
  import opened Queries
  import opened EraseProofs

  /**
   * The trie shape erase's `has_sibling` test reads: a node that owns a slot
   * starts its chain of children at the slot of its first child, which is
   * the node itself (the root's fake label 0) or a slot it owns; and when
   * that first child links on to no sibling, it is the only slot the node
   * owns.
   */
  ghost predicate ChainsHeld(s: State)
  {
    forall x | In(x, s.check) && In(s.check[x], s.base) && In(s.check[x], s.child) ::
      var p := s.check[x];
      var f := XorLabel(s.base[p], s.child[p]);
      In(f, s.sibling) && In(f, s.check) && (f == p || s.check[f] == p) && (s.sibling[f] == 0 ==> x == f)
  }

  /** The length of the longest common prefix of `a` and `b`. */
  function Common(a: seq<Byte>, b: seq<Byte>): (n: nat)
    ensures n <= |a| && n <= |b| && a[..n] == b[..n]
    ensures n < |a| && n < |b| ==> a[n] != b[n]
  {
    if a == [] || b == [] || a[0] != b[0] then 0
    else
      var m := Common(a[1..], b[1..]);
      assert a[..m + 1] == [a[0]] + a[1..][..m];
      assert b[..m + 1] == [b[0]] + b[1..][..m];
      m + 1
  }

  /**
   * Two different keys without a zero byte part before either ends with its
   * terminal label 0: neither `key + [0]` nor `k + [0]` is a prefix of the
   * other.
   */
  lemma ForkBeforeEnds(key: seq<Byte>, k: seq<Byte>)
    requires 0 !in key && 0 !in k && key != k
    ensures Common(key + [0], k + [0]) < |key| + 1 && Common(key + [0], k + [0]) < |k| + 1
  {
    var ks, os := key + [0], k + [0];
    if |key| < |k| {
      assert k[|key|] in k;
      CommonBound(ks, os, |key|);
    } else if |k| < |key| {
      assert key[|k|] in key;
      CommonBound(ks, os, |k|);
    } else {
      var j :| 0 <= j < |key| && key[j] != k[j];
      CommonBound(ks, os, j);
    }
  }

  /** Sequences that differ at `j` share no prefix longer than `j`. */
  lemma {:induction false} CommonBound(a: seq<Byte>, b: seq<Byte>, j: nat)
    requires j < |a| && j < |b| && a[j] != b[j]
    ensures Common(a, b) <= j
    decreases j
  {
    if j > 0 && a[0] == b[0] {
      CommonBound(a[1..], b[1..], j - 1);
    }
  }

  /**
   * Below a root that reads as free, different label sequences lead to
   * different nodes: a node's owner and its label from that owner's base
   * are fixed by its slot.
   */
  lemma {:induction false} ReachInjective(s: State, a: seq<Byte>, b: seq<Byte>)
    requires In(0, s.check) && s.check[0] < 0
    requires Reach(s, Standard, 0, a).Some? && Reach(s, Standard, 0, a) == Reach(s, Standard, 0, b)
    ensures a == b
    decreases |a|
  {
    if a != [] && b != [] {
      var a0, b0 := a[..|a| - 1], b[..|b| - 1];
      var to := Reach(s, Standard, 0, a).value;
      var u := Reach(s, Standard, 0, a0).value;
      var w := Reach(s, Standard, 0, b0).value;
      assert u == s.check[to] == w;
      XorLabelInjective(s.base[u], a[|a| - 1], b[|b| - 1]);
      ReachInjective(s, a0, b0);
      assert a == a0 + [a[|a| - 1]] && b == b0 + [b[|b| - 1]];
    }
  }

  /** A node labels lead to from the root is the root or reads as in use. */
  lemma ReachInUse(s: State, a: seq<Byte>)
    requires s.Shape() && Reach(s, Standard, 0, a).Some?
    ensures var x := Reach(s, Standard, 0, a).value;
      In(x, s.base) && In(x, s.check) && (a == [] ==> x == 0) && (a != [] ==> s.check[x] >= 0)
  {
  }

  /** The terminal a node owns is what its labels and a last label 0 lead to. */
  lemma ReachTerminal(s: State, key: seq<Byte>, c: int)
    requires Reach(s, Standard, 0, key) == Some(c) && In(c, s.base)
    requires In(s.base[c], s.check) && s.check[s.base[c]] == c
    ensures Reach(s, Standard, 0, key + [0]) == Some(s.base[c])
  {
    assert (key + [0])[..|key|] == key;
    XorLabelZero(s.base[c]);
  }

  /** The first child's slot, when its node owns it, is what the node's labels and the first label lead to. */
  lemma FirstChildReach(s: State, a: seq<Byte>, p: int)
    requires Reach(s, Standard, 0, a) == Some(p) && In(p, s.base) && In(p, s.child)
    requires In(XorLabel(s.base[p], s.child[p]), s.check) && s.check[XorLabel(s.base[p], s.child[p])] == p
    ensures Reach(s, Standard, 0, a + [s.child[p]]) == Some(XorLabel(s.base[p], s.child[p]))
  {
    assert (a + [s.child[p]])[..|a|] == a;
  }

  /**
   * Where the paths of two keys part, their common node owns two slots, so
   * in a trie whose chains hold its children the first of them links on to
   * a sibling.
   */
  lemma ForkAt(s: State, ks: seq<Byte>, os: seq<Byte>, n: nat) returns (p: int, f: int)
    requires s.Shape() && ChainsHeld(s)
    requires n < |ks| && n < |os| && ks[..n] == os[..n] && ks[n] != os[n]
    requires Reach(s, Standard, 0, ks[..n + 1]).Some? && Reach(s, Standard, 0, os[..n + 1]).Some?
    ensures Reach(s, Standard, 0, ks[..n]) == Some(p) && In(p, s.base) && In(p, s.child)
    ensures f == XorLabel(s.base[p], s.child[p]) && In(f, s.sibling) && In(f, s.check)
    ensures (f == p || s.check[f] == p) && s.sibling[f] != 0
  {
    assert ks[..n + 1][..n] == ks[..n] && os[..n + 1][..n] == os[..n];
    var x := Reach(s, Standard, 0, ks[..n + 1]).value;
    var y := Reach(s, Standard, 0, os[..n + 1]).value;
    p := Reach(s, Standard, 0, ks[..n]).value;
    assert s.check[x] == p && s.check[y] == p;
    if x == y {
      XorLabelInjective(s.base[p], ks[n], os[n]);
    }
    f := XorLabel(s.base[p], s.child[p]);
  }

  /** The slot `o` names, if any, has the same base and check in `s'` as in `s`. */
  ghost predicate KeptAt(s: State, s': State, o: Option<int>)
  {
    o.Some? && In(o.value, s.base) && In(o.value, s.check) ==>
      In(o.value, s'.base) && In(o.value, s'.check) &&
      s'.base[o.value] == s.base[o.value] && s'.check[o.value] == s.check[o.value]
  }

  /** From `s` to `s'`, no slot but `e` that is the root or reads as in use changes its base or check. */
  ghost predicate Spared(s: State, s': State, e: int)
  {
    |s'.base| == |s.base| && |s'.check| == |s.check| &&
    forall x | In(x, s.base) && In(x, s.check) && x != e && (x == 0 || s.check[x] >= 0) ::
      s'.base[x] == s.base[x] && s'.check[x] == s.check[x]
  }

  /** Node `p`'s first label and the sibling byte at slot `f` are those of `s`. */
  ghost predicate LabelsKept(s: State, s': State, p: int, f: int)
  {
    In(p, s.child) && In(p, s'.child) && s'.child[p] == s.child[p] &&
    In(f, s.sibling) && In(f, s'.sibling) && s'.sibling[f] == s.sibling[f]
  }

  /** A slot on a ring after one more slot joined it was on it before, or is that slot. */
  lemma InsertedHolds(f: seq<int>, e: int, x: int)
    requires x in Inserted(f, e)
    ensures x in f || x == e
  {
  }

  /**
   * One round of erase on a well-formed allocator, giving back a slot in
   * use: apart from that slot, every slot that is the root or reads as in
   * use keeps its base and check.
   */
  lemma RoundSpares(s: State, lists: PerType<seq<int>>, free: seq<seq<int>>, enc: Encoding, from: int, e: int, s2: State, done: bool)
    returns (lists1: PerType<seq<int>>, free1: seq<seq<int>>)
    requires AllocWF(s, lists, free) && In(e, s.check) && s.check[e] >= 0 && s.check[0] < 0
    requires EraseStep(s, enc, from, e) == Ok((s2, done))
    ensures AllocWF(s2, lists1, free1) && Spared(s, s2, e) && In(0, s2.check) && s2.check[0] < 0
  {
    lists1, free1 := EraseStepJoinsRing(s, lists, free, enc, from, e, s2, done);
    forall x | In(x, s.base) && In(x, s.check) && x != e && (x == 0 || s.check[x] >= 0)
      ensures s2.base[x] == s.base[x] && s2.check[x] == s.check[x]
    {
      if s2.base[x] != s.base[x] || s2.check[x] != s.check[x] {
        assert x in free1[BlockOf(x)];
        if BlockOf(x) == BlockOf(e) {
          InsertedHolds(free[BlockOf(e)], e, x);
        }
        FreeSlotReads(s, lists, free, x);
      }
    }
  }

  /** A round of erase that is not the last only clears the labels of the slot it gives back. */
  lemma StepLabels(s: State, enc: Encoding, from: int, e: int, s2: State)
    requires EraseStep(s, enc, from, e) == Ok((s2, false))
    ensures In(e, s.child) && In(e, s.sibling) && s2.child == s.child[e := 0] && s2.sibling == s.sibling[e := 0]
  {
    InsertFreeFrame(s, e);
    var s1 := InsertFree(s, e).value;
    PushRelinkFrame(s1, BlockOf(e));
  }

  /** erase's climb, one round, with what the round leaves alone. */
  lemma KeepRound(s: State, lists: PerType<seq<int>>, free: seq<seq<int>>, at: int, e: int, fuel: nat, s': State)
    returns (s2: State, lists1: PerType<seq<int>>, free1: seq<seq<int>>, done: bool, up: int, fuel': nat)
    requires AllocWF(s, lists, free) && In(e, s.check) && s.check[e] >= 0 && s.check[0] < 0
    requires EraseUp(s, Standard, at, e, fuel) == Ok(s')
    ensures AllocWF(s2, lists1, free1) && In(0, s2.check) && s2.check[0] < 0 && Spared(s, s2, e)
    ensures EraseStep(s, Standard, at, e) == Ok((s2, done))
    ensures done ==> s2 == s'
    ensures !done ==> fuel' < fuel && In(at, s2.check) && up == s2.check[at] && EraseUp(s2, Standard, up, at, fuel') == Ok(s')
  {
    s2, done, up, fuel' := EraseUpStep(s, Standard, at, e, fuel, s');
    lists1, free1 := RoundSpares(s, lists, free, Standard, at, e, s2, done);
  }

  /** The nodes along `a`'s first `m` labels keep their base and check through a round that frees none of them. */
  lemma PrefixesSpared(s: State, cur: State, s2: State, e: int, a: seq<Byte>, m: nat)
    requires s.Shape() && m <= |a| && Spared(cur, s2, e)
    requires forall i | 0 <= i <= m :: KeptAt(s, cur, Reach(s, Standard, 0, a[..i]))
    requires forall i | 0 <= i <= m :: Reach(s, Standard, 0, a[..i]) != Some(e)
    ensures forall i | 0 <= i <= m :: KeptAt(s, s2, Reach(s, Standard, 0, a[..i]))
  {
    forall i | 0 <= i <= m
      ensures KeptAt(s, s2, Reach(s, Standard, 0, a[..i]))
    {
      if Reach(s, Standard, 0, a[..i]).Some? {
        ReachInUse(s, a[..i]);
      }
    }
  }

  /** A slot the erased key reaches past the fork is on no prefix of the other key's path. */
  lemma OffOtherPath(s: State, ks: seq<Byte>, os: seq<Byte>, n: nat, d: nat, slot: int)
    requires In(0, s.check) && s.check[0] < 0
    requires n <= d < |ks| && n < |os| && ks[n] != os[n]
    requires Reach(s, Standard, 0, ks[..d + 1]) == Some(slot)
    ensures forall i | 0 <= i <= |os| :: Reach(s, Standard, 0, os[..i]) != Some(slot)
  {
    forall i | 0 <= i <= |os|
      ensures Reach(s, Standard, 0, os[..i]) != Some(slot)
    {
      if Reach(s, Standard, 0, os[..i]) == Some(slot) {
        PartedPrefixes(ks, os, n, d, i);
        ReachInjective(s, ks[..d + 1], os[..i]);
      }
    }
  }

  /** Prefixes that run past the place two sequences differ differ. */
  lemma PartedPrefixes(ks: seq<Byte>, os: seq<Byte>, n: nat, d: nat, i: nat)
    requires n <= d < |ks| && n < |os| && ks[n] != os[n] && i <= |os|
    ensures ks[..d + 1] != os[..i]
  {
    if i == d + 1 {
      assert ks[..d + 1][n] != os[..i][n];
    }
  }

  /** A slot the erased key reaches at depth `d + 1` is on no shorter prefix of its own path. */
  lemma OffOwnPath(s: State, ks: seq<Byte>, d: nat, slot: int)
    requires In(0, s.check) && s.check[0] < 0
    requires d < |ks| && Reach(s, Standard, 0, ks[..d + 1]) == Some(slot)
    ensures forall i | 0 <= i <= d :: Reach(s, Standard, 0, ks[..i]) != Some(slot)
  {
    forall i | 0 <= i <= d
      ensures Reach(s, Standard, 0, ks[..i]) != Some(slot)
    {
      if Reach(s, Standard, 0, ks[..i]) == Some(slot) {
        ReachInjective(s, ks[..d + 1], ks[..i]);
      }
    }
  }

  /**
   * erase's climb at depth `d` of the erased key's path `ks` (its labels and
   * the terminal label 0), with the other key's path `os` parting from it
   * after `n` labels: the nodes above, the slot being given back and every
   * node of `os` still have the base and check they had in `s`.
   */
  ghost predicate Climbing(s: State, ks: seq<Byte>, os: seq<Byte>, n: nat, cur: State, at: int, slot: int, d: nat)
  {
    n <= d < |ks| && n < |os| &&
    Reach(s, Standard, 0, ks[..d]) == Some(at) && Reach(s, Standard, 0, ks[..d + 1]) == Some(slot) &&
    (forall i | 0 <= i <= d + 1 :: KeptAt(s, cur, Reach(s, Standard, 0, ks[..i]))) &&
    (forall i | 0 <= i <= |os| :: KeptAt(s, cur, Reach(s, Standard, 0, os[..i])))
  }

  /** The fork node's first child slot is not one the climb gives back below the fork. */
  lemma FirstChildOff(s: State, ks: seq<Byte>, n: nat, p: int, f: int, d: nat, slot: int)
    requires In(0, s.check) && s.check[0] < 0
    requires n < d < |ks| && Reach(s, Standard, 0, ks[..d + 1]) == Some(slot)
    requires Reach(s, Standard, 0, ks[..n]) == Some(p) && In(p, s.base) && In(p, s.child)
    requires f == XorLabel(s.base[p], s.child[p]) && In(f, s.check) && (f == p || s.check[f] == p)
    requires f == slot
    ensures f == p
  {
    if f != p {
      FirstChildReach(s, ks[..n], p);
      ReachInjective(s, ks[..d + 1], ks[..n] + [s.child[p]]);
    }
  }

  /**
   * One round of the climb: it keeps every node of the other key, and it is
   * the last round when it runs at the fork node, whose first child links
   * on to a sibling.
   */
  lemma ClimbStep(s: State, ks: seq<Byte>, os: seq<Byte>, n: nat, p: int, f: int,
                  cur: State, lists: PerType<seq<int>>, free: seq<seq<int>>, at: int, slot: int, d: nat, left: nat, s': State)
    returns (cur': State, lists': PerType<seq<int>>, free': seq<seq<int>>, done: bool, at': int, slot': int, d': nat, left': nat)
    requires s.Shape() && In(0, s.check) && s.check[0] < 0
    requires AllocWF(cur, lists, free) && In(0, cur.check) && cur.check[0] < 0
    requires Climbing(s, ks, os, n, cur, at, slot, d) && ks[n] != os[n]
    requires Fork(s, ks, n, p, f) && LabelsKept(s, cur, p, f) && EraseUp(cur, Standard, at, slot, left) == Ok(s')
    ensures AllocWF(cur', lists', free') && In(0, cur'.check) && cur'.check[0] < 0
    ensures forall i | 0 <= i <= |os| :: KeptAt(s, cur', Reach(s, Standard, 0, os[..i]))
    ensures done ==> cur' == s'
    ensures !done ==> left' < left && Climbing(s, ks, os, n, cur', at', slot', d') && LabelsKept(s, cur', p, f)
    ensures !done ==> EraseUp(cur', Standard, at', slot', left') == Ok(s')
  {
    SlotInUse(s, ks, os, n, cur, at, slot, d);
    var up, fuel';
    cur', lists', free', done, up, fuel' := KeepRound(cur, lists, free, at, slot, left, s');
    ClimbKeeps(s, ks, os, n, p, f, cur, cur', at, slot, d, done);
    at', slot', d', left' := at, slot, d, left;
    if !done {
      at', slot', d' := ClimbUp(s, ks, os, n, cur', at, d, up);
      left' := fuel';
      SameClimb(cur', Standard, up, at, fuel', at', left', s');
    }
  }

  /** The node the climb is at, where the erased key's path forks from the other key's, with its first child slot `f`. */
  ghost predicate Fork(s: State, ks: seq<Byte>, n: nat, p: int, f: int)
  {
    n <= |ks| && Reach(s, Standard, 0, ks[..n]) == Some(p) && In(p, s.base) && In(p, s.child) &&
    f == XorLabel(s.base[p], s.child[p]) && In(f, s.sibling) && In(f, s.check) &&
    (f == p || s.check[f] == p) && s.sibling[f] != 0
  }

  /** The slot the climb gives back reads, before the round, as owned by the node the climb is at. */
  lemma SlotInUse(s: State, ks: seq<Byte>, os: seq<Byte>, n: nat, cur: State, at: int, slot: int, d: nat)
    requires s.Shape() && Climbing(s, ks, os, n, cur, at, slot, d)
    ensures In(slot, cur.check) && cur.check[slot] == at && In(at, s.base) && at >= 0
  {
    ReachInUse(s, ks[..d + 1]);
    assert KeptAt(s, cur, Reach(s, Standard, 0, ks[..d + 1]));
    assert ks[..d + 1][..d] == ks[..d];
  }

  /**
   * What a round of the climb leaves: every node of the other key and of
   * the erased key above the slot given back keeps its base and check; the
   * round at the fork node is the last; any other round leaves the fork
   * node's first label and first child's sibling byte alone.
   */
  lemma ClimbKeeps(s: State, ks: seq<Byte>, os: seq<Byte>, n: nat, p: int, f: int, cur: State, cur': State, at: int, slot: int, d: nat, done: bool)
    requires s.Shape() && In(0, s.check) && s.check[0] < 0
    requires Climbing(s, ks, os, n, cur, at, slot, d) && ks[n] != os[n]
    requires Fork(s, ks, n, p, f) && LabelsKept(s, cur, p, f)
    requires Spared(cur, cur', slot) && EraseStep(cur, Standard, at, slot) == Ok((cur', done))
    ensures forall i | 0 <= i <= |os| :: KeptAt(s, cur', Reach(s, Standard, 0, os[..i]))
    ensures forall i | 0 <= i <= d :: KeptAt(s, cur', Reach(s, Standard, 0, ks[..i]))
    ensures d == n ==> done
    ensures !done ==> LabelsKept(s, cur', p, f)
  {
    OffOtherPath(s, ks, os, n, d, slot);
    OffOwnPath(s, ks, d, slot);
    PrefixesSpared(s, cur, cur', slot, os, |os|);
    PrefixesSpared(s, cur, cur', slot, ks, d);
    if d == n {
      ForkRoundLast(s, ks, os, n, p, f, cur, cur', at, slot, d, done);
    } else if !done {
      StepLabels(cur, Standard, at, slot, cur');
      if f == slot {
        FirstChildOff(s, ks, n, p, f, d, slot);
      }
    }
  }

  /** At the fork node the round reads the fork's first child, which links on to a sibling: the round is the last. */
  lemma ForkRoundLast(s: State, ks: seq<Byte>, os: seq<Byte>, n: nat, p: int, f: int, cur: State, cur': State, at: int, slot: int, d: nat, done: bool)
    requires s.Shape() && Climbing(s, ks, os, n, cur, at, slot, d) && d == n
    requires Fork(s, ks, n, p, f) && LabelsKept(s, cur, p, f)
    requires EraseStep(cur, Standard, at, slot) == Ok((cur', done))
    ensures done
  {
    EraseStepFrees(cur, Standard, at, slot);
    ReachInUse(s, ks[..n]);
    assert KeptAt(s, cur, Reach(s, Standard, 0, ks[..n]));
  }

  /** After a round that is not the last, the climb is one level up the erased key's path. */
  lemma ClimbUp(s: State, ks: seq<Byte>, os: seq<Byte>, n: nat, cur': State, at: int, d: nat, up: int)
    returns (at': int, slot': int, d': nat)
    requires s.Shape() && n < d < |ks| && n < |os|
    requires Reach(s, Standard, 0, ks[..d]) == Some(at) && In(at, cur'.check) && up == cur'.check[at]
    requires forall i | 0 <= i <= d :: KeptAt(s, cur', Reach(s, Standard, 0, ks[..i]))
    requires forall i | 0 <= i <= |os| :: KeptAt(s, cur', Reach(s, Standard, 0, os[..i]))
    ensures at' == up && slot' == at && d' == d - 1 && Climbing(s, ks, os, n, cur', at', slot', d')
  {
    at', slot', d' := up, at, d - 1;
    ReachInUse(s, ks[..d]);
    assert KeptAt(s, cur', Reach(s, Standard, 0, ks[..d]));
    assert ks[..d][..d - 1] == ks[..d - 1];
    assert ks[..d - 1 + 1] == ks[..d];
  }

  /** Labels whose every prefix leads to a node that kept its base and check lead to the same node afterwards. */
  lemma {:induction false} ReachAlongKept(s: State, s': State, a: seq<Byte>)
    requires s.Shape() && Reach(s, Standard, 0, a).Some?
    requires forall i | 0 <= i <= |a| :: KeptAt(s, s', Reach(s, Standard, 0, a[..i]))
    ensures Reach(s', Standard, 0, a) == Reach(s, Standard, 0, a)
    decreases |a|
  {
    assert a[..|a|] == a;
    if a != [] {
      var a0 := a[..|a| - 1];
      assert forall i | 0 <= i <= |a0| :: a0[..i] == a[..i];
      ReachAlongKept(s, s', a0);
      ReachInUse(s, a0);
      ReachInUse(s, a);
      assert KeptAt(s, s', Reach(s, Standard, 0, a[..|a| - 1]));
    }
  }

  /** A key whose path and terminal kept their base and check holds the value it held. */
  lemma StoredFromKept(s: State, s': State, k: seq<Byte>)
    requires s.Shape() && Stored(s, k).Some?
    requires forall i | 0 <= i <= |k| + 1 :: KeptAt(s, s', Reach(s, Standard, 0, (k + [0])[..i]))
    ensures Stored(s', k) == Stored(s, k)
  {
    var os := k + [0];
    assert forall i | 0 <= i <= |k| :: os[..i] == k[..i];
    ReachAlongKept(s, s', k);
    var c := Reach(s, Standard, 0, k).value;
    ReachInUse(s, k);
    assert k == os[..|k|];
    assert KeptAt(s, s', Reach(s, Standard, 0, os[..|k|]));
    ReachTerminal(s, k, c);
    assert os == os[..|k| + 1];
    assert KeptAt(s, s', Reach(s, Standard, 0, os[..|k| + 1]));
  }

  /**
   * erase's climb from the erased key's terminal, run to its end: every node
   * of the other key's path keeps its base and check.
   */
  lemma ClimbSparesOther(s: State, lists: PerType<seq<int>>, free: seq<seq<int>>, ks: seq<Byte>, os: seq<Byte>, n: nat, p: int, f: int,
                         from: int, t: int, s': State)
    requires s.Shape() && AllocWF(s, lists, free) && In(0, s.check) && s.check[0] < 0
    requires 0 < |ks| && Climbing(s, ks, os, n, s, from, t, |ks| - 1) && ks[n] != os[n] && Fork(s, ks, n, p, f)
    requires EraseUp(s, Standard, from, t, |s.check|) == Ok(s')
    ensures forall i | 0 <= i <= |os| :: KeptAt(s, s', Reach(s, Standard, 0, os[..i]))
  {
    var cur, lists', free', done := s, lists, free, false;
    var at, slot, d, left := ClimbFrom(s, ks, os, n, p, f, from, t, s');
    while !done
      invariant AllocWF(cur, lists', free') && In(0, cur.check) && cur.check[0] < 0
      invariant forall i | 0 <= i <= |os| :: KeptAt(s, cur, Reach(s, Standard, 0, os[..i]))
      invariant done ==> cur == s'
      invariant !done ==> Climbing(s, ks, os, n, cur, at, slot, d) && LabelsKept(s, cur, p, f)
      invariant !done ==> EraseUp(cur, Standard, at, slot, left) == Ok(s')
      decreases !done, left
    {
      cur, lists', free', done, at, slot, d, left := ClimbStep(s, ks, os, n, p, f, cur, lists', free', at, slot, d, left, s');
    }
  }

  /** The climb's first round, at the erased key's node and its terminal, as the loop in `ClimbSparesOther` states it. */
  lemma ClimbFrom(s: State, ks: seq<Byte>, os: seq<Byte>, n: nat, p: int, f: int, from: int, t: int, s': State)
    returns (at: int, slot: int, d: nat, left: nat)
    requires 0 < |ks| && Climbing(s, ks, os, n, s, from, t, |ks| - 1) && Fork(s, ks, n, p, f)
    requires EraseUp(s, Standard, from, t, |s.check|) == Ok(s')
    ensures Climbing(s, ks, os, n, s, at, slot, d) && LabelsKept(s, s, p, f)
    ensures EraseUp(s, Standard, at, slot, left) == Ok(s')
  {
    at, slot, d, left := from, t, |ks| - 1, |s.check|;
  }

  /**
   * Where erase of a found key starts its climb, and where that key's path
   * parts from the path of another key that holds a value.
   */
  lemma ClimbStart(s: State, key: seq<Byte>, k: seq<Byte>, from: int) returns (n: nat, p: int, f: int)
    requires s.Shape() && In(0, s.check) && s.check[0] < 0 && ChainsHeld(s)
    requires 0 !in key && 0 !in k && k != key && Stored(s, k).Some?
    requires Reach(s, Standard, 0, key) == Some(from) && In(from, s.base)
    requires In(s.base[from], s.check) && s.check[s.base[from]] == from
    ensures Climbing(s, key + [0], k + [0], n, s, from, s.base[from], |key|)
    ensures (key + [0])[n] != (k + [0])[n] && Fork(s, key + [0], n, p, f)
  {
    n, p, f := ForkOf(s, key, k, from);
    ClimbingStarts(s, key, k + [0], n, from);
  }

  /** Where the paths of the erased key and of another key holding a value part, with terminals. */
  lemma ForkOf(s: State, key: seq<Byte>, k: seq<Byte>, from: int) returns (n: nat, p: int, f: int)
    requires s.Shape() && In(0, s.check) && s.check[0] < 0 && ChainsHeld(s)
    requires 0 !in key && 0 !in k && k != key && Stored(s, k).Some?
    requires Reach(s, Standard, 0, key) == Some(from) && In(from, s.base)
    requires In(s.base[from], s.check) && s.check[s.base[from]] == from
    ensures n < |key| + 1 && n < |k| + 1 && (key + [0])[n] != (k + [0])[n] && Fork(s, key + [0], n, p, f)
  {
    var ks, os := key + [0], k + [0];
    ReachTerminal(s, key, from);
    var c := Reach(s, Standard, 0, k).value;
    ReachTerminal(s, k, c);
    n := Common(ks, os);
    ForkBeforeEnds(key, k);
    ReachPrefix(s, Standard, 0, ks, n + 1);
    ReachPrefix(s, Standard, 0, os, n + 1);
    p, f := ForkAt(s, ks, os, n);
  }

  /** Before the first round nothing has changed, so every node of both paths is kept. */
  lemma ClimbingStarts(s: State, key: seq<Byte>, os: seq<Byte>, n: nat, from: int)
    requires n <= |key| && n < |os|
    requires Reach(s, Standard, 0, key) == Some(from) && In(from, s.base)
    requires In(s.base[from], s.check) && s.check[s.base[from]] == from
    ensures Climbing(s, key + [0], os, n, s, from, s.base[from], |key|)
  {
    var ks := key + [0];
    ReachTerminal(s, key, from);
    assert ks[..|key|] == key && ks[..|key| + 1] == ks;
  }

  /**
   * The standard trie's erase(key), on a well-formed allocator whose root
   * reads as free and whose chains hold every node's children: a key `k`
   * other than `key` keeps the value it held.  Neither key may hold the
   * byte 0, the standard trie's terminal label.
   */
  lemma EraseKeepsKey(s: State, lists: PerType<seq<int>>, free: seq<seq<int>>, key: seq<Byte>, k: seq<Byte>)
    requires AllocWF(s, lists, free) && In(0, s.check) && s.check[0] < 0 && ChainsHeld(s)
    requires Erase(s, Standard, key).Ok?
    requires 0 !in key && 0 !in k && k != key && Stored(s, k).Some?
    ensures Stored(Erase(s, Standard, key).value.0, k) == Stored(s, k)
  {
    var s', r, from := EraseSteps(s, key);
    FindMeans(s, key);
    if r.Found? {
      var n, p, f := ClimbStart(s, key, k, from);
      ClimbSparesOther(s, lists, free, key + [0], k + [0], n, p, f, from, s.base[from], s');
      StoredFromKept(s, s', k);
    }
  }

  /**
   * erase(key) in the standard trie takes only `key`: every other key
   * without a zero byte holds, afterwards, the value it held before.
   */
  lemma EraseKeepsOthers(s: State, lists: PerType<seq<int>>, free: seq<seq<int>>, key: seq<Byte>)
    requires AllocWF(s, lists, free) && In(0, s.check) && s.check[0] < 0 && ChainsHeld(s)
    requires Erase(s, Standard, key).Ok? && 0 !in key
    ensures forall k :: k != key && 0 !in k && Stored(s, k).Some? ==> Stored(Erase(s, Standard, key).value.0, k) == Stored(s, k)
  {
    forall k | k != key && 0 !in k && Stored(s, k).Some?
      ensures Stored(Erase(s, Standard, key).value.0, k) == Stored(s, k)
    {
      EraseKeepsKey(s, lists, free, key, k);
    }
  }
}
