/**
 * The sibling chains of the trie.  A node's children are listed by label: the
 * node's `child` byte holds the first label, and the `sibling` byte of each
 * child's slot (`base ^ label`) holds the next one, 0 ending the list.  A
 * terminal child (label 0, the slot holding the node's value) can only come
 * first.  Every walk along a chain here is bounded by `MAX_CHAIN` steps, the
 * most a chain of distinct labels needs; a chain that does not end by then is
 * `Err(Diverges)`, where the source would loop for ever.
 */
module Siblings {
  import opened Bits
  import opened Outcomes
  import opened Rings
  import opened CedarState

  const MAX_CHAIN: nat := 256

  /** The labels from `c` on, following `sibling[base ^ c]` until a 0. */
  function Walk(sib: seq<Byte>, base: int, c: Byte, fuel: nat): Result<seq<Byte>>
    decreases fuel
  {
    if c == 0 then Ok([])
    else if fuel == 0 then Err(Diverges)
    else
      var ix := XorLabel(base, c);
      if !In(ix, sib) then Err(OutOfBounds)
      else
        var rest :- Walk(sib, base, sib[ix], fuel - 1);
        Ok([c] + rest)
  }

  /** The chain whose first label is `c`: a terminal 0 is followed by the labels its slot links to. */
  function ChainAt(sib: seq<Byte>, base: int, c: Byte): Result<seq<Byte>>
  {
    if c == 0 then
      var ix := XorLabel(base, 0);
      if !In(ix, sib) then Err(OutOfBounds)
      else
        var rest :- Walk(sib, base, sib[ix], MAX_CHAIN);
        Ok([0] + rest)
    else Walk(sib, base, c, MAX_CHAIN)
  }

  /** The labels of the children of node `from`, whose base is `base`, in chain order. */
  function Chain(s: State, from: int, base: int): Result<seq<Byte>>
  {
    if !In(from, s.child) then Err(OutOfBounds) else ChainAt(s.sibling, base, s.child[from])
  }

  /** Labels strictly ascending as unsigned bytes: the order an ordered trie keeps. */
  predicate Ascending(cs: seq<Byte>)
  {
    forall i, j :: 0 <= i < j < |cs| ==> cs[i] < cs[j]
  }

  /** A walk that ends within its fuel ends the same way with any fuel that covers its length. */
  lemma {:induction false} WalkFuel(sib: seq<Byte>, base: int, c: Byte, f: nat, g: nat)
    requires Walk(sib, base, c, f).Ok? && g >= |Walk(sib, base, c, f).value|
    ensures Walk(sib, base, c, g) == Walk(sib, base, c, f)
    decreases f
  {
    if c != 0 {
      var ix := XorLabel(base, c);
      WalkFuel(sib, base, sib[ix], f - 1, g - 1);
    }
  }

  /** Every label of a walk is non-zero, and the walk from any of them is the rest of it. */
  lemma {:induction false} WalkSuffix(sib: seq<Byte>, base: int, c: Byte, f: nat, j: int)
    requires Walk(sib, base, c, f).Ok? && 0 <= j < |Walk(sib, base, c, f).value|
    ensures var w := Walk(sib, base, c, f).value;
      w[j] != 0 && Walk(sib, base, w[j], MAX_CHAIN + |w|) == Ok(w[j..])
    decreases f
  {
    var w := Walk(sib, base, c, f).value;
    var ix := XorLabel(base, c);
    var rest := Walk(sib, base, sib[ix], f - 1).value;
    if j == 0 {
      WalkFuel(sib, base, c, f, MAX_CHAIN + |w|);
    } else {
      WalkSuffix(sib, base, sib[ix], f - 1, j - 1);
      assert w[j..] == rest[j - 1..];
      WalkFuel(sib, base, rest[j - 1], MAX_CHAIN + |rest|, MAX_CHAIN + |w|);
    }
  }

  /** A walk that ends never repeats a label: the next label is a function of the current one. */
  lemma WalkUnique(sib: seq<Byte>, base: int, c: Byte, f: nat)
    requires Walk(sib, base, c, f).Ok?
    ensures Distinct(Walk(sib, base, c, f).value)
    ensures forall i :: 0 <= i < |Walk(sib, base, c, f).value| ==> Walk(sib, base, c, f).value[i] != 0
  {
    var w := Walk(sib, base, c, f).value;
    forall i, j | 0 <= i < |w| && 0 <= j < |w| && i != j
      ensures w[i] != w[j]
    {
      WalkSuffix(sib, base, c, f, i);
      WalkSuffix(sib, base, c, f, j);
      assert |w[i..]| != |w[j..]|;
    }
    forall i | 0 <= i < |w|
      ensures w[i] != 0
    {
      WalkSuffix(sib, base, c, f, i);
    }
  }

  /** The label after position `i` of a chain, 0 after the last. */
  function Next(cs: seq<Byte>, i: int): Byte
    requires 0 <= i < |cs|
  {
    if i + 1 < |cs| then cs[i + 1] else 0
  }

  /**
   * `cs` is linked through `sib` under `base`: every label's slot is in the
   * column and holds the next label (0 for the last), and only the first
   * label may be the terminal 0.
   */
  ghost predicate Linked(sib: seq<Byte>, base: int, cs: seq<Byte>)
  {
    (forall i :: 0 < i < |cs| ==> cs[i] != 0) &&
    (forall i {:trigger XorLabel(base, cs[i])} :: 0 <= i < |cs| ==>
      In(XorLabel(base, cs[i]), sib) && sib[XorLabel(base, cs[i])] == Next(cs, i))
  }

  /** The link of position `i` of a linked chain. */
  lemma LinkedAt(sib: seq<Byte>, base: int, cs: seq<Byte>, i: int)
    requires Linked(sib, base, cs) && 0 <= i < |cs|
    ensures In(XorLabel(base, cs[i]), sib) && sib[XorLabel(base, cs[i])] == Next(cs, i) && (i > 0 ==> cs[i] != 0)
  {
  }

  /** Two positions of a chain of distinct labels hold different labels. */
  lemma DistinctAt(cs: seq<Byte>, i: int, j: int)
    requires Distinct(cs) && 0 <= i < |cs| && 0 <= j < |cs| && i != j
    ensures cs[i] != cs[j]
  {
  }

  /** A walk that ends is a linked list of non-zero labels starting at `c`, no longer than its fuel. */
  lemma {:induction false} WalkLinked(sib: seq<Byte>, base: int, c: Byte, f: nat)
    requires Walk(sib, base, c, f).Ok?
    ensures var w := Walk(sib, base, c, f).value;
      Linked(sib, base, w) && |w| <= f && (w == [] <==> c == 0) && (w != [] ==> w[0] == c && c != 0)
    decreases f
  {
    if c != 0 {
      var ix := XorLabel(base, c);
      WalkLinked(sib, base, sib[ix], f - 1);
      var w := Walk(sib, base, c, f).value;
      var rest := Walk(sib, base, sib[ix], f - 1).value;
      assert w == [c] + rest;
      forall i | 0 <= i < |w|
        ensures (i > 0 ==> w[i] != 0) && In(XorLabel(base, w[i]), sib) && sib[XorLabel(base, w[i])] == Next(w, i)
      {
        if i > 0 {
          assert w[i] == rest[i - 1];
          assert Next(w, i) == Next(rest, i - 1);
        }
      }
    }
  }

  /** A linked list of non-zero labels within the fuel is what the walk from its first label yields. */
  lemma {:induction false} LinkedWalk(sib: seq<Byte>, base: int, cs: seq<Byte>, f: nat)
    requires Linked(sib, base, cs) && |cs| <= f && (cs != [] ==> cs[0] != 0)
    ensures Walk(sib, base, if cs == [] then 0 else cs[0], f) == Ok(cs)
    decreases |cs|
  {
    if cs != [] {
      var rest := cs[1..];
      LinkedTail(sib, base, cs);
      LinkedWalk(sib, base, rest, f - 1);
      assert sib[XorLabel(base, cs[0])] == Next(cs, 0);
      assert cs == [cs[0]] + rest;
    }
  }

  /** The longest chain a walk with `MAX_CHAIN` fuel reads from a first label `c`. */
  function ChainBound(c: Byte): nat
  {
    if c == 0 then MAX_CHAIN + 1 else MAX_CHAIN
  }

  /** Putting the terminal in front of a linked list of distinct non-zero labels whose head its slot holds. */
  lemma PrependTerminal(sib: seq<Byte>, base: int, w: seq<Byte>)
    requires Linked(sib, base, w) && Distinct(w) && 0 !in w
    requires In(XorLabel(base, 0), sib) && sib[XorLabel(base, 0)] == (if w == [] then 0 else w[0])
    ensures Linked(sib, base, [0] + w) && Distinct([0] + w)
  {
    var cs := [0] + w;
    forall i | 0 < i < |cs|
      ensures cs[i] != 0
    {
      assert cs[i] == w[i - 1];
    }
    forall i | 0 <= i < |cs|
      ensures In(XorLabel(base, cs[i]), sib) && sib[XorLabel(base, cs[i])] == Next(cs, i)
    {
      if i > 0 {
        assert cs[i] == w[i - 1] && Next(cs, i) == Next(w, i - 1);
        LinkedAt(sib, base, w, i - 1);
      }
    }
    assert cs == Insert(w, 0, 0);
    InsertDistinct(w, 0, 0);
  }

  /** What `ChainAt` yields: a non-empty linked chain of distinct labels from `c` within the bound. */
  lemma ChainLinked(sib: seq<Byte>, base: int, c: Byte)
    requires ChainAt(sib, base, c).Ok?
    ensures var cs := ChainAt(sib, base, c).value;
      cs != [] && cs[0] == c && Linked(sib, base, cs) && |cs| <= ChainBound(c) && Distinct(cs)
  {
    if c == 0 {
      var ix := XorLabel(base, 0);
      WalkLinked(sib, base, sib[ix], MAX_CHAIN);
      WalkUnique(sib, base, sib[ix], MAX_CHAIN);
      var w := Walk(sib, base, sib[ix], MAX_CHAIN).value;
      PrependTerminal(sib, base, w);
    } else {
      WalkLinked(sib, base, c, MAX_CHAIN);
      WalkUnique(sib, base, c, MAX_CHAIN);
    }
  }

  /** A non-empty linked chain within the bound is what `ChainAt` reads from its first label. */
  lemma LinkedChain(sib: seq<Byte>, base: int, cs: seq<Byte>)
    requires cs != [] && Linked(sib, base, cs) && |cs| <= ChainBound(cs[0])
    ensures ChainAt(sib, base, cs[0]) == Ok(cs)
  {
    if cs[0] == 0 {
      var w := cs[1..];
      LinkedTail(sib, base, cs);
      if w != [] {
        LinkedAt(sib, base, cs, 1);
      }
      LinkedWalk(sib, base, w, MAX_CHAIN);
      LinkedAt(sib, base, cs, 0);
      assert cs == [0] + w;
    } else {
      LinkedWalk(sib, base, cs, MAX_CHAIN);
    }
  }

  /** A linked chain stays linked without its first label. */
  lemma LinkedTail(sib: seq<Byte>, base: int, cs: seq<Byte>)
    requires Linked(sib, base, cs) && cs != []
    ensures Linked(sib, base, cs[1..])
  {
    var w := cs[1..];
    forall i | 0 <= i < |w|
      ensures (i > 0 ==> w[i] != 0) && In(XorLabel(base, w[i]), sib) && sib[XorLabel(base, w[i])] == Next(w, i)
    {
      assert w[i] == cs[i + 1] && Next(w, i) == Next(cs, i + 1);
    }
  }

  /**
   * Only the sibling and child columns differ between `s` and `s2`, the child
   * byte only at `from` and sibling bytes only in the slots of the labels `cs`.
   */
  ghost predicate OnlyChain(s: State, s2: State, from: int, base: int, cs: seq<Byte>)
  {
    s2 == s.(child := s2.child, sibling := s2.sibling) &&
    |s2.child| == |s.child| && |s2.sibling| == |s.sibling| &&
    (forall i :: 0 <= i < |s.child| && i != from ==> s2.child[i] == s.child[i]) &&
    (forall i :: 0 <= i < |s.sibling| && s2.sibling[i] != s.sibling[i] ==> exists l :: l in cs && i == XorLabel(base, l))
  }

  /**
   * pop_sibling's walk: starting at label `c`, the first slot along the chain
   * whose sibling byte is `lab`.  A walk that has not met `lab` after
   * `MAX_CHAIN` steps is caught in a cycle, where the source loops for ever.
   */
  function PredSlot(sib: seq<Byte>, base: int, c: Byte, lab: Byte, fuel: nat): (r: Result<int>)
    ensures r.Ok? ==> In(r.value, sib) && sib[r.value] == lab
    decreases fuel
  {
    if fuel == 0 then Err(Diverges)
    else
      var ix := XorLabel(base, c);
      if !In(ix, sib) then Err(OutOfBounds)
      else if sib[ix] == lab then Ok(ix)
      else PredSlot(sib, base, sib[ix], lab, fuel - 1)
  }

  /**
   * pop_sibling(from, base, label): unlink `lab` from the chain of `from`,
   * by pointing its predecessor (the child byte of `from` when `lab` comes
   * first) at the label after it.
   */
  function PopSibling(s: State, from: int, base: int, lab: Byte): Result<State>
  {
    if !In(from, s.child) then Err(OutOfBounds)
    else
      var first := s.child[from];
      var l := XorLabel(base, lab);
      if first == lab then
        if !In(l, s.sibling) then Err(OutOfBounds)
        else Ok(s.(child := s.child[from := s.sibling[l]]))
      else
        var ix :- PredSlot(s.sibling, base, first, lab, MAX_CHAIN);
        if !In(l, s.sibling) then Err(OutOfBounds)
        else Ok(s.(sibling := s.sibling[ix := s.sibling[l]]))
  }

  /** One step of pop_sibling's walk. */
  lemma PredStep(sib: seq<Byte>, base: int, c: Byte, lab: Byte, fuel: nat)
    requires fuel > 0 && In(XorLabel(base, c), sib)
    ensures PredSlot(sib, base, c, lab, fuel) ==
      if sib[XorLabel(base, c)] == lab then Ok(XorLabel(base, c)) else PredSlot(sib, base, sib[XorLabel(base, c)], lab, fuel - 1)
  {
  }

  /** Along a linked chain of distinct labels, the slot whose sibling byte is `cs[k]` is that of `cs[k - 1]`. */
  lemma {:induction false} PredFinds(sib: seq<Byte>, base: int, cs: seq<Byte>, i: int, k: int, fuel: nat)
    requires Linked(sib, base, cs) && Distinct(cs) && 0 <= i < k < |cs| && fuel >= k - i
    ensures PredSlot(sib, base, cs[i], cs[k], fuel) == Ok(XorLabel(base, cs[k - 1]))
    decreases k - i
  {
    LinkedAt(sib, base, cs, i);
    PredStep(sib, base, cs[i], cs[k], fuel);
    if i + 1 < k {
      DistinctAt(cs, i + 1, k);
      PredFinds(sib, base, cs, i + 1, k, fuel - 1);
    }
  }

  /** Pointing the slot of `cs[k - 1]` past `cs[k]` links the chain without `cs[k]`. */
  lemma Unlink(sib: seq<Byte>, base: int, cs: seq<Byte>, k: int)
    requires Linked(sib, base, cs) && Distinct(cs) && 1 <= k < |cs|
    ensures Linked(sib[XorLabel(base, cs[k - 1]) := Next(cs, k)], base, cs[..k] + cs[k + 1..])
    ensures Distinct(cs[..k] + cs[k + 1..])
  {
    var p := XorLabel(base, cs[k - 1]);
    var sib2 := sib[p := Next(cs, k)];
    var w := cs[..k] + cs[k + 1..];
    forall i | 0 <= i < |w|
      ensures (i > 0 ==> w[i] != 0) && In(XorLabel(base, w[i]), sib2) && sib2[XorLabel(base, w[i])] == Next(w, i)
    {
      var j := if i < k then i else i + 1;
      assert w[i] == cs[j];
      if j != k - 1 {
        SlotsDiffer(base, cs[j], cs[k - 1]);
        assert Next(w, i) == Next(cs, j);
      }
    }
    DistinctRemove(cs, k);
  }

  /** pop_sibling of the first label of a linked chain: the child byte moves on to the second. */
  lemma PopFirst(s: State, from: int, base: int, cs: seq<Byte>)
    requires In(from, s.child) && |cs| >= 2 && cs[0] == s.child[from]
    requires Linked(s.sibling, base, cs) && Distinct(cs) && |cs| <= ChainBound(cs[0])
    ensures PopSibling(s, from, base, cs[0]).Ok?
    ensures var s2 := PopSibling(s, from, base, cs[0]).value;
      Chain(s2, from, base) == Ok(cs[1..]) && OnlyChain(s, s2, from, base, cs)
  {
    LinkedTail(s.sibling, base, cs);
    LinkedChain(s.sibling, base, cs[1..]);
  }

  /** pop_sibling of a later label of a linked chain: its predecessor's sibling byte moves past it. */
  lemma PopLater(s: State, from: int, base: int, cs: seq<Byte>, k: int)
    requires In(from, s.child) && 1 <= k < |cs| && cs[0] == s.child[from]
    requires Linked(s.sibling, base, cs) && Distinct(cs) && |cs| <= ChainBound(cs[0])
    ensures PopSibling(s, from, base, cs[k]).Ok?
    ensures var s2 := PopSibling(s, from, base, cs[k]).value;
      Chain(s2, from, base) == Ok(cs[..k] + cs[k + 1..]) && OnlyChain(s, s2, from, base, cs)
  {
    assert cs[0] != cs[k];
    PredFinds(s.sibling, base, cs, 0, k, MAX_CHAIN);
    var p := XorLabel(base, cs[k - 1]);
    var s2 := PopSibling(s, from, base, cs[k]).value;
    assert s2 == s.(sibling := s.sibling[p := Next(cs, k)]);
    Unlink(s.sibling, base, cs, k);
    LinkedChain(s2.sibling, base, cs[..k] + cs[k + 1..]);
    assert cs[k - 1] in cs;
  }

  /** Removing one label of a chain of two or more by pop_sibling leaves the chain without it, and touches nothing else. */
  lemma PopSiblingRemoves(s: State, from: int, base: int, cs: seq<Byte>, k: int)
    requires Chain(s, from, base) == Ok(cs) && 0 <= k < |cs| && |cs| >= 2
    ensures PopSibling(s, from, base, cs[k]).Ok?
    ensures var s2 := PopSibling(s, from, base, cs[k]).value;
      Chain(s2, from, base) == Ok(cs[..k] + cs[k + 1..]) && OnlyChain(s, s2, from, base, cs)
  {
    ChainLinked(s.sibling, base, s.child[from]);
    if k == 0 {
      PopFirst(s, from, base, cs);
      assert cs[1..] == cs[..0] + cs[1..];
    } else {
      PopLater(s, from, base, cs, k);
    }
  }

  /** How push_sibling compares two labels: as Java `byte`s (`signed`) or as unsigned bytes. */
  predicate Below(a: Byte, b: Byte, signed: bool)
  {
    if signed then Signed(a) < Signed(b) else a < b
  }

  /**
   * push_sibling's walk: from the slot of label `c`, move on while the trie is
   * ordered and the next label is non-zero and below `lab`; the slot where it
   * stops.  A walk that runs out of fuel revisits a label, where the source
   * loops for ever.
   */
  function InsertSlot(sib: seq<Byte>, base: int, c: Byte, lab: Byte, ordered: bool, signed: bool, fuel: nat): (r: Result<int>)
    ensures r.Ok? ==> In(r.value, sib)
    decreases fuel
  {
    if fuel == 0 then Err(Diverges)
    else
      var ix := XorLabel(base, c);
      if !In(ix, sib) then Err(OutOfBounds)
      else if ordered && sib[ix] != 0 && Below(sib[ix], lab, signed) then
        InsertSlot(sib, base, sib[ix], lab, ordered, signed, fuel - 1)
      else Ok(ix)
  }

  /**
   * push_sibling(from, base, lab, hasChild), comparing labels as `signed` says.
   * When `from` has children and `lab` may follow the first of them (it is
   * above it in an ordered trie, or the first is the terminal in an unordered
   * one), `lab` is linked in after the slot where the walk stops; otherwise it
   * becomes the first child, linked to the old first.
   */
  function PushSiblingBy(s: State, from: int, base: int, lab: Byte, hasChild: bool, signed: bool): Result<State>
  {
    if !In(from, s.child) then Err(OutOfBounds)
    else
      var first := s.child[from];
      var keepOrder := if s.ordered then Below(first, lab, signed) else first == 0;
      var l := XorLabel(base, lab);
      if hasChild && keepOrder then
        var ix :- InsertSlot(s.sibling, base, first, lab, s.ordered, signed, MAX_CHAIN + 1);
        var next := s.sibling[ix];
        var sib := s.sibling[ix := lab];
        if !In(l, sib) then Err(OutOfBounds)
        else Ok(s.(sibling := sib[l := next]))
      else if !In(l, s.sibling) then Err(OutOfBounds)
      else Ok(s.(child := s.child[from := lab], sibling := s.sibling[l := first]))
  }

  /** push_sibling as the source writes it: Java compares the `byte` labels signed. */
  function PushSiblingAsWritten(s: State, from: int, base: int, lab: Byte, hasChild: bool): Result<State>
  {
    PushSiblingBy(s, from, base, lab, hasChild, true)
  }

  /** push_sibling with labels compared unsigned, the order every other part of the trie uses. */
  function PushSibling(s: State, from: int, base: int, lab: Byte, hasChild: bool): Result<State>
  {
    PushSiblingBy(s, from, base, lab, hasChild, false)
  }

  /** The last position, from `i` on, that push_sibling's walk along `cs` reaches. */
  function LastBelow(cs: seq<Byte>, i: nat, lab: Byte, ordered: bool, signed: bool): (j: nat)
    requires i < |cs|
    ensures i <= j < |cs|
    decreases |cs| - i
  {
    if ordered && i + 1 < |cs| && cs[i + 1] != 0 && Below(cs[i + 1], lab, signed) then LastBelow(cs, i + 1, lab, ordered, signed)
    else i
  }

  /**
   * Where `lab` goes into the chain `cs`: in an ordered trie before the first
   * label after the first one that is not below it (first of all when the
   * first one is not below it); in an unordered one right after the terminal,
   * or first when there is no terminal.
   */
  function InsertAt(cs: seq<Byte>, lab: Byte, ordered: bool, signed: bool): (k: nat)
    requires cs != []
    ensures k <= |cs|
  {
    var keepOrder := if ordered then Below(cs[0], lab, signed) else cs[0] == 0;
    if keepOrder then LastBelow(cs, 0, lab, ordered, signed) + 1 else 0
  }

  /** The chain `cs` with `lab` put in at position `k`. */
  function Insert(cs: seq<Byte>, k: int, lab: Byte): (r: seq<Byte>)
    requires 0 <= k <= |cs|
    ensures |r| == |cs| + 1 && r[k] == lab
    ensures forall x :: x in r <==> x in cs || x == lab
  {
    cs[..k] + [lab] + cs[k..]
  }

  /** The walk of push_sibling from position `i` of a linked chain stops at the slot of the label `LastBelow` names. */
  lemma {:induction false} InsertFinds(sib: seq<Byte>, base: int, cs: seq<Byte>, i: nat, lab: Byte, ordered: bool, signed: bool, fuel: nat)
    requires Linked(sib, base, cs) && i < |cs| && fuel >= LastBelow(cs, i, lab, ordered, signed) - i + 1
    ensures InsertSlot(sib, base, cs[i], lab, ordered, signed, fuel) == Ok(XorLabel(base, cs[LastBelow(cs, i, lab, ordered, signed)]))
    decreases |cs| - i
  {
    assert sib[XorLabel(base, cs[i])] == Next(cs, i);
    if ordered && i + 1 < |cs| && cs[i + 1] != 0 && Below(cs[i + 1], lab, signed) {
      InsertFinds(sib, base, cs, i + 1, lab, ordered, signed, fuel - 1);
    }
  }

  /** Distinct labels have distinct slots under one base. */
  lemma SlotsDiffer(base: int, a: Byte, b: Byte)
    requires a != b
    ensures XorLabel(base, a) != XorLabel(base, b)
  {
    ByteXorCancel(base % 256, a);
    ByteXorCancel(base % 256, b);
  }

  /** The entries of `Insert(cs, k, lab)` by position. */
  lemma InsertIndex(cs: seq<Byte>, k: int, lab: Byte, i: int)
    requires 1 <= k <= |cs| && 0 <= i < |cs| + 1
    ensures Insert(cs, k, lab)[i] == (if i < k then cs[i] else if i == k then lab else cs[i - 1])
    ensures Next(Insert(cs, k, lab), i) == (if i < k - 1 then Next(cs, i) else if i == k - 1 then lab else if i == k then Next(cs, k - 1) else Next(cs, i - 1))
  {
  }

  /** Linking `lab` in after `cs[k - 1]` gives the linked chain with `lab` at `k`. */
  lemma Splice(sib: seq<Byte>, base: int, cs: seq<Byte>, k: int, lab: Byte)
    requires Linked(sib, base, cs) && Distinct(cs) && 1 <= k <= |cs|
    requires lab !in cs && lab != 0 && In(XorLabel(base, lab), sib)
    ensures Linked(sib[XorLabel(base, cs[k - 1]) := lab][XorLabel(base, lab) := Next(cs, k - 1)], base, Insert(cs, k, lab))
    ensures Distinct(Insert(cs, k, lab))
  {
    var p, q := XorLabel(base, cs[k - 1]), XorLabel(base, lab);
    var sib2 := sib[p := lab][q := Next(cs, k - 1)];
    var w := Insert(cs, k, lab);
    SlotsDiffer(base, cs[k - 1], lab);
    forall i | 0 <= i < |w|
      ensures (i > 0 ==> w[i] != 0) && In(XorLabel(base, w[i]), sib2) && sib2[XorLabel(base, w[i])] == Next(w, i)
    {
      InsertIndex(cs, k, lab, i);
      if i < k - 1 || i > k {
        var j := if i < k then i else i - 1;
        SlotsDiffer(base, cs[j], cs[k - 1]);
        SlotsDiffer(base, cs[j], lab);
      }
    }
    InsertDistinct(cs, k, lab);
  }

  /** Putting a new label into a chain of distinct labels keeps them distinct. */
  lemma InsertDistinct(cs: seq<Byte>, k: int, lab: Byte)
    requires Distinct(cs) && 0 <= k <= |cs| && lab !in cs
    ensures Distinct(Insert(cs, k, lab))
  {
    var w := Insert(cs, k, lab);
    forall i, j | 0 <= i < |w| && 0 <= j < |w| && i != j
      ensures w[i] != w[j]
    {
      if i != k && j != k {
        var i', j' := if i < k then i else i - 1, if j < k then j else j - 1;
        assert w[i] == cs[i'] && w[j] == cs[j'];
      } else if i != k {
        assert w[i] == cs[if i < k then i else i - 1];
      } else {
        assert w[j] == cs[if j < k then j else j - 1];
      }
    }
  }

  /** Linking `lab` in front of a chain that does not start with the terminal. */
  lemma Prepend(sib: seq<Byte>, base: int, cs: seq<Byte>, lab: Byte)
    requires Linked(sib, base, cs) && Distinct(cs) && cs != [] && cs[0] != 0
    requires lab !in cs && In(XorLabel(base, lab), sib)
    ensures Linked(sib[XorLabel(base, lab) := cs[0]], base, Insert(cs, 0, lab))
    ensures Distinct(Insert(cs, 0, lab))
  {
    var q := XorLabel(base, lab);
    var sib2 := sib[q := cs[0]];
    var w := Insert(cs, 0, lab);
    forall i | 0 <= i < |w|
      ensures (i > 0 ==> w[i] != 0) && In(XorLabel(base, w[i]), sib2) && sib2[XorLabel(base, w[i])] == Next(w, i)
    {
      if i > 0 {
        assert w[i] == cs[i - 1] && Next(w, i) == Next(cs, i - 1);
        SlotsDiffer(base, cs[i - 1], lab);
      }
    }
    InsertDistinct(cs, 0, lab);
  }

  /** A linked chain of distinct labels fits the bound a chain walk can read. */
  lemma LinkedFits(cs: seq<Byte>)
    requires Distinct(cs) && cs != []
    ensures |cs| <= ChainBound(cs[0])
  {
    DistinctBound(cs, 0, 256);
  }

  /** Linking `lab` in after position `k - 1` writes only the sibling bytes of the two labels' slots. */
  lemma SpliceOnly(s: State, from: int, base: int, cs: seq<Byte>, k: int, lab: Byte)
    requires 1 <= k <= |cs| && In(XorLabel(base, cs[k - 1]), s.sibling) && In(XorLabel(base, lab), s.sibling)
    ensures OnlyChain(s, s.(sibling := s.sibling[XorLabel(base, cs[k - 1]) := lab][XorLabel(base, lab) := Next(cs, k - 1)]), from, base, cs + [lab])
  {
    var s2 := s.(sibling := s.sibling[XorLabel(base, cs[k - 1]) := lab][XorLabel(base, lab) := Next(cs, k - 1)]);
    forall i | 0 <= i < |s.sibling| && s2.sibling[i] != s.sibling[i]
      ensures exists l :: l in cs + [lab] && i == XorLabel(base, l)
    {
      if i == XorLabel(base, lab) {
        assert lab in cs + [lab];
      } else {
        assert cs[k - 1] in cs + [lab];
      }
    }
  }

  /** Linking `lab` in after position `k - 1` of the chain of `from` yields the chain with `lab` at `k`. */
  lemma SpliceChain(s: State, from: int, base: int, cs: seq<Byte>, k: int, lab: Byte)
    requires In(from, s.child) && cs != [] && cs[0] == s.child[from]
    requires Linked(s.sibling, base, cs) && Distinct(cs) && 1 <= k <= |cs|
    requires lab !in cs && lab != 0 && In(XorLabel(base, lab), s.sibling)
    ensures Chain(s.(sibling := s.sibling[XorLabel(base, cs[k - 1]) := lab][XorLabel(base, lab) := Next(cs, k - 1)]), from, base) == Ok(Insert(cs, k, lab))
  {
    var w := Insert(cs, k, lab);
    Splice(s.sibling, base, cs, k, lab);
    LinkedFits(w);
    LinkedChain(s.sibling[XorLabel(base, cs[k - 1]) := lab][XorLabel(base, lab) := Next(cs, k - 1)], base, w);
  }

  /** push_sibling's writes when `lab` may follow the first child: the slot where the walk stops links to `lab`, and `lab` to what followed. */
  lemma PushAfterWrites(s: State, from: int, base: int, cs: seq<Byte>, lab: Byte)
    requires In(from, s.child) && cs != [] && cs[0] == s.child[from]
    requires Linked(s.sibling, base, cs) && |cs| <= ChainBound(cs[0])
    requires In(XorLabel(base, lab), s.sibling)
    requires if s.ordered then cs[0] < lab else cs[0] == 0
    ensures var k := InsertAt(cs, lab, s.ordered, false);
      1 <= k <= |cs| &&
      PushSibling(s, from, base, lab, true) ==
        Ok(s.(sibling := s.sibling[XorLabel(base, cs[k - 1]) := lab][XorLabel(base, lab) := Next(cs, k - 1)]))
  {
    InsertFinds(s.sibling, base, cs, 0, lab, s.ordered, false, MAX_CHAIN + 1);
  }

  /** push_sibling when `lab` may follow the first child: it is linked in after the slot where the walk stops. */
  lemma PushAfter(s: State, from: int, base: int, cs: seq<Byte>, lab: Byte)
    requires In(from, s.child) && cs != [] && cs[0] == s.child[from]
    requires Linked(s.sibling, base, cs) && Distinct(cs) && |cs| <= ChainBound(cs[0])
    requires lab !in cs && In(XorLabel(base, lab), s.sibling)
    requires if s.ordered then cs[0] < lab else cs[0] == 0
    ensures PushSibling(s, from, base, lab, true).Ok?
    ensures var s2 := PushSibling(s, from, base, lab, true).value;
      Chain(s2, from, base) == Ok(Insert(cs, InsertAt(cs, lab, s.ordered, false), lab)) &&
      OnlyChain(s, s2, from, base, cs + [lab])
  {
    var k := InsertAt(cs, lab, s.ordered, false);
    PushAfterWrites(s, from, base, cs, lab);
    SpliceChain(s, from, base, cs, k, lab);
    SpliceOnly(s, from, base, cs, k, lab);
  }

  /** push_sibling when `lab` may not follow the first child: it becomes the first, linked to the old first. */
  lemma PushFront(s: State, from: int, base: int, cs: seq<Byte>, lab: Byte)
    requires In(from, s.child) && cs != [] && cs[0] == s.child[from]
    requires Linked(s.sibling, base, cs) && Distinct(cs) && |cs| <= ChainBound(cs[0])
    requires lab !in cs && In(XorLabel(base, lab), s.sibling)
    requires !(if s.ordered then cs[0] < lab else cs[0] == 0)
    ensures PushSibling(s, from, base, lab, true).Ok?
    ensures var s2 := PushSibling(s, from, base, lab, true).value;
      Chain(s2, from, base) == Ok(Insert(cs, InsertAt(cs, lab, s.ordered, false), lab)) &&
      OnlyChain(s, s2, from, base, cs + [lab])
  {
    var w := Insert(cs, 0, lab);
    var s2 := PushSibling(s, from, base, lab, true).value;
    assert s2 == s.(child := s.child[from := lab], sibling := s.sibling[XorLabel(base, lab) := cs[0]]);
    Prepend(s.sibling, base, cs, lab);
    LinkedFits(w);
    LinkedChain(s2.sibling, base, w);
    assert lab in cs + [lab];
  }

  /**
   * push_sibling with unsigned comparisons puts a new label into the chain of
   * `from` at `InsertAt`, keeping every other label, and touches nothing but
   * the child byte of `from` and the sibling bytes of the chain's slots.
   */
  lemma PushSiblingInserts(s: State, from: int, base: int, cs: seq<Byte>, lab: Byte)
    requires Chain(s, from, base) == Ok(cs) && lab !in cs && In(XorLabel(base, lab), s.sibling)
    ensures PushSibling(s, from, base, lab, true).Ok?
    ensures var s2 := PushSibling(s, from, base, lab, true).value;
      Chain(s2, from, base) == Ok(Insert(cs, InsertAt(cs, lab, s.ordered, false), lab)) &&
      OnlyChain(s, s2, from, base, cs + [lab])
  {
    ChainLinked(s.sibling, base, s.child[from]);
    if if s.ordered then cs[0] < lab else cs[0] == 0 {
      PushAfter(s, from, base, cs, lab);
    } else {
      PushFront(s, from, base, cs, lab);
    }
  }

  /** A node without children gets the pushed label as its only child. */
  lemma PushSiblingFirst(s: State, from: int, base: int, lab: Byte)
    requires In(from, s.child) && s.child[from] == 0 && In(XorLabel(base, lab), s.sibling)
    ensures PushSibling(s, from, base, lab, false).Ok?
    ensures Chain(PushSibling(s, from, base, lab, false).value, from, base) == Ok([lab])
  {
    var s2 := PushSibling(s, from, base, lab, false).value;
    assert s2.child[from] == lab && s2.sibling[XorLabel(base, lab)] == 0;
    LinkedChain(s2.sibling, base, [lab]);
  }

  /**
   * push_sibling as written, in an ordered trie whose node `from` has its
   * terminal first: a label of 0x80 or more is below 0 as a Java `byte`, so it
   * is put in front and linked to the terminal's 0, and the chain of `from`
   * loses every label it had.
   */
  lemma PushSiblingAsWrittenDropsChildren(s: State, from: int, base: int, cs: seq<Byte>, lab: Byte)
    requires Chain(s, from, base) == Ok(cs) && s.ordered && cs[0] == 0 && lab >= 128
    requires In(XorLabel(base, lab), s.sibling)
    ensures PushSiblingAsWritten(s, from, base, lab, true).Ok?
    ensures Chain(PushSiblingAsWritten(s, from, base, lab, true).value, from, base) == Ok([lab])
    ensures Insert(cs, InsertAt(cs, lab, true, false), lab) != [lab]
  {
    var s2 := PushSiblingAsWritten(s, from, base, lab, true).value;
    assert !Below(0, lab, true);
    assert s2.child[from] == lab && s2.sibling[XorLabel(base, lab)] == 0;
    LinkedChain(s2.sibling, base, [lab]);
    assert InsertAt(cs, lab, true, false) >= 1;
  }

  /** The index where push_sibling's walk stops splits an ascending chain into the labels below `lab` and the rest. */
  lemma {:induction false} LastBelowSplits(cs: seq<Byte>, i: nat, lab: Byte)
    requires Ascending(cs) && i < |cs| && cs[i] < lab
    ensures var j := LastBelow(cs, i, lab, true, false);
      cs[j] < lab && (j + 1 < |cs| ==> cs[j + 1] >= lab)
    decreases |cs| - i
  {
    if i + 1 < |cs| && cs[i + 1] != 0 && cs[i + 1] < lab {
      LastBelowSplits(cs, i + 1, lab);
    }
  }

  /** In an ordered trie the corrected push_sibling keeps a chain ascending. */
  lemma PushSiblingKeepsOrder(cs: seq<Byte>, lab: Byte)
    requires cs != [] && Ascending(cs) && lab !in cs
    ensures Ascending(Insert(cs, InsertAt(cs, lab, true, false), lab))
  {
    var k := InsertAt(cs, lab, true, false);
    if k > 0 {
      LastBelowSplits(cs, 0, lab);
    }
    InsertAscending(cs, k, lab);
  }

  /**
   * consult's walk: step along both chains at once until either ends; true
   * when the second one had not ended.
   */
  function ConsultFrom(sib: seq<Byte>, baseN: int, baseP: int, cN: Byte, cP: Byte, fuel: nat): Result<bool>
    decreases fuel
  {
    if fuel == 0 then Err(Diverges)
    else
      var iN, iP := XorLabel(baseN, cN), XorLabel(baseP, cP);
      if !In(iN, sib) || !In(iP, sib) then Err(OutOfBounds)
      else if sib[iN] != 0 && sib[iP] != 0 then ConsultFrom(sib, baseN, baseP, sib[iN], sib[iP], fuel - 1)
      else Ok(sib[iP] != 0)
  }

  /** consult(base_n, base_p, c_n, c_p): whether the chain from `cP` is the longer one. */
  function Consult(s: State, baseN: int, baseP: int, cN: Byte, cP: Byte): Result<bool>
  {
    ConsultFrom(s.sibling, baseN, baseP, cN, cP, MAX_CHAIN + 1)
  }

  lemma {:induction false} ConsultSteps(sib: seq<Byte>, baseN: int, baseP: int, ns: seq<Byte>, ps: seq<Byte>, j: nat, fuel: nat)
    requires Linked(sib, baseN, ns) && Linked(sib, baseP, ps) && j < |ns| && j < |ps|
    requires fuel + j >= |ns| || fuel + j >= |ps|
    ensures ConsultFrom(sib, baseN, baseP, ns[j], ps[j], fuel) == Ok(|ps| > |ns|)
    decreases fuel
  {
    assert sib[XorLabel(baseN, ns[j])] == Next(ns, j);
    assert sib[XorLabel(baseP, ps[j])] == Next(ps, j);
    if j + 1 < |ns| && j + 1 < |ps| {
      ConsultSteps(sib, baseN, baseP, ns, ps, j + 1, fuel - 1);
    }
  }

  /** consult compares the lengths of the two chains: true exactly when the second is longer. */
  lemma ConsultCompares(s: State, baseN: int, baseP: int, cN: Byte, cP: Byte)
    requires ChainAt(s.sibling, baseN, cN).Ok? && ChainAt(s.sibling, baseP, cP).Ok?
    ensures Consult(s, baseN, baseP, cN, cP) == Ok(|ChainAt(s.sibling, baseP, cP).value| > |ChainAt(s.sibling, baseN, cN).value|)
  {
    ChainLinked(s.sibling, baseN, cN);
    ChainLinked(s.sibling, baseP, cP);
    ConsultSteps(s.sibling, baseN, baseP, ChainAt(s.sibling, baseN, cN).value, ChainAt(s.sibling, baseP, cP).value, 0, MAX_CHAIN + 1);
  }

  /** How many labels at the front of `cs` are at most `lab`. */
  function UpTo(cs: seq<Byte>, lab: Byte): (n: nat)
    ensures n <= |cs|
  {
    if cs == [] || cs[0] > lab then 0 else 1 + UpTo(cs[1..], lab)
  }

  /** Where set_child puts a new child `lab` among the chain `cs`: after the terminal and, in an ordered trie, after the labels up to `lab`. */
  function SplitAt(cs: seq<Byte>, lab: Byte, ordered: bool): (k: nat)
    ensures k <= |cs|
  {
    var t := if cs != [] && cs[0] == 0 then 1 else 0;
    t + (if ordered then UpTo(cs[t..], lab) else 0)
  }

  /** The children set_child lists for relocation from the chain `cs`, with `lab` added when it is a new child. */
  function Arrange(cs: seq<Byte>, lab: Byte, notTerminal: bool, ordered: bool): seq<Byte>
  {
    if notTerminal then Insert(cs, SplitAt(cs, lab, ordered), lab) else cs
  }

  /** The labels `read` so far followed by those of a walk still to come. */
  function Then(read: seq<Byte>, w: Result<seq<Byte>>): Result<seq<Byte>>
  {
    if w.Ok? then Ok(read + w.value) else w
  }

  /** A chain is the walk from its first label, with the terminal read off first when there is one. */
  lemma ChainAtThen(sib: seq<Byte>, base: int, c: Byte)
    ensures c == 0 && In(XorLabel(base, 0), sib) ==>
      ChainAt(sib, base, c) == Then([0], Walk(sib, base, sib[XorLabel(base, 0)], MAX_CHAIN))
    ensures c != 0 ==> ChainAt(sib, base, c) == Then([], Walk(sib, base, c, MAX_CHAIN))
  {
    var w := Walk(sib, base, c, MAX_CHAIN);
    if c != 0 && w.Ok? {
      assert [] + w.value == w.value;
    }
  }

  /** Nothing read yet. */
  lemma ThenEmpty(w: Result<seq<Byte>>)
    ensures Then([], w) == w
  {
    if w.Ok? {
      assert [] + w.value == w.value;
    }
  }

  /** Labels read in two runs are the labels of both runs, read in one. */
  lemma ThenThen(a: seq<Byte>, b: seq<Byte>, w: Result<seq<Byte>>)
    ensures Then(a, Then(b, w)) == Then(a + b, w)
  {
    if w.Ok? {
      assert a + (b + w.value) == a + b + w.value;
    }
  }

  /** Labels at most `lab` in front of a list that starts above `lab` are exactly what `UpTo` counts. */
  lemma {:induction false} UpToPrefix(p: seq<Byte>, w: seq<Byte>, lab: Byte)
    requires forall i :: 0 <= i < |p| ==> p[i] <= lab
    requires w == [] || w[0] > lab
    ensures UpTo(p + w, lab) == |p|
  {
    if p != [] {
      assert (p + w)[1..] == p[1..] + w;
      UpToPrefix(p[1..], w, lab);
    }
  }

  /**
   * set_child's list, read as the source builds it: the terminal (when the
   * chain has one), then in an ordered trie the labels up to `lab`, then
   * `lab` when it is a new child, then the rest of the chain.
   */
  lemma ArrangeSplit(read: seq<Byte>, t: nat, k: nat, lab: Byte, notTerminal: bool, ordered: bool)
    requires t <= 1 && t <= k <= |read|
    requires (t == 1 ==> read[0] == 0) && (forall i :: t <= i < |read| ==> read[i] != 0)
    requires if ordered then (forall i :: t <= i < k ==> read[i] <= lab) && (k < |read| ==> read[k] > lab) else k == t
    ensures Arrange(read, lab, notTerminal, ordered) == if notTerminal then read[..k] + [lab] + read[k..] else read
  {
    assert SplitAt(read, lab, false) == t;
    if ordered {
      assert read[t..] == read[t..k] + read[k..];
      UpToPrefix(read[t..k], read[k..], lab);
    }
  }

  /** set_child's list from its three runs: the terminal if any, the labels up to `lab` (ordered tries only), the rest. */
  lemma ArrangeParts(pre: seq<Byte>, up: seq<Byte>, rest: seq<Byte>, lab: Byte, notTerminal: bool, ordered: bool)
    requires pre == [] || pre == [0]
    requires forall i :: 0 <= i < |up| ==> up[i] != 0 && up[i] <= lab
    requires forall i :: 0 <= i < |rest| ==> rest[i] != 0
    requires if ordered then rest != [] ==> rest[0] > lab else up == []
    ensures Arrange(pre + up + rest, lab, notTerminal, ordered) ==
      if notTerminal then pre + up + [lab] + rest else pre + up + rest
  {
    var read := pre + up + rest;
    var k := |pre + up|;
    assert read[..k] == pre + up && read[k..] == rest;
    ArrangeSplit(read, |pre|, k, lab, notTerminal, ordered);
  }

  /** set_child(base, c, lab, not_terminal) over the chain from `c`. */
  function SetChild(sib: seq<Byte>, base: int, c: Byte, lab: Byte, notTerminal: bool, ordered: bool): Result<seq<Byte>>
  {
    var cs :- ChainAt(sib, base, c);
    Ok(Arrange(cs, lab, notTerminal, ordered))
  }

  /** In an ascending chain the labels counted by `UpTo` are those at most `lab`. */
  lemma {:induction false} UpToSplits(cs: seq<Byte>, lab: Byte)
    requires Ascending(cs)
    ensures forall t :: 0 <= t < UpTo(cs, lab) ==> cs[t] <= lab
    ensures forall t :: UpTo(cs, lab) <= t < |cs| ==> cs[t] > lab
  {
    if cs != [] && cs[0] <= lab {
      UpToSplits(cs[1..], lab);
      forall t | 1 <= t < |cs|
        ensures cs[t] == cs[1..][t - 1]
      {
      }
    }
  }

  /**
   * What set_child lists for a new child: the chain's labels and `lab`, each
   * once, and only the first of them may be the terminal, which stays first.
   */
  lemma ArrangeLists(cs: seq<Byte>, lab: Byte, ordered: bool)
    requires cs != [] && Distinct(cs) && (forall i :: 0 < i < |cs| ==> cs[i] != 0) && lab !in cs
    ensures var r := Arrange(cs, lab, true, ordered);
      Distinct(r) && (forall x :: x in r <==> x in cs || x == lab) &&
      (cs[0] == 0 ==> r[0] == 0) && (forall i :: 0 < i < |r| ==> r[i] != 0)
  {
    var k := SplitAt(cs, lab, ordered);
    var r := Arrange(cs, lab, true, ordered);
    InsertDistinct(cs, k, lab);
    if lab == 0 {
      assert cs[0] != 0;
      if ordered {
        assert cs[0..][0] > lab;
      }
      assert k == 0;
    }
    forall i | 0 < i < |r|
      ensures r[i] != 0
    {
      assert r[i] == (if i < k then cs[i] else if i == k then lab else cs[i - 1]);
    }
  }

  /** Putting `lab` between the labels below it and those above it keeps a chain ascending. */
  lemma InsertAscending(cs: seq<Byte>, k: int, lab: Byte)
    requires Ascending(cs) && 0 <= k <= |cs|
    requires forall j :: 0 <= j < k ==> cs[j] < lab
    requires forall j :: k <= j < |cs| ==> cs[j] > lab
    ensures Ascending(Insert(cs, k, lab))
  {
    var r := Insert(cs, k, lab);
    forall i, j | 0 <= i < j < |r|
      ensures r[i] < r[j]
    {
      assert r[i] == (if i < k then cs[i] else if i == k then lab else cs[i - 1]);
      assert r[j] == (if j < k then cs[j] else if j == k then lab else cs[j - 1]);
    }
  }

  /** In an ascending chain, set_child's split point separates the labels below a new `lab` from those above it. */
  lemma SplitAtSplits(cs: seq<Byte>, lab: Byte)
    requires cs != [] && Ascending(cs) && lab !in cs
    ensures forall j :: 0 <= j < SplitAt(cs, lab, true) ==> cs[j] < lab
    ensures forall j :: SplitAt(cs, lab, true) <= j < |cs| ==> cs[j] > lab
  {
    var t := if cs[0] == 0 then 1 else 0;
    var u := cs[t..];
    assert Ascending(u);
    UpToSplits(u, lab);
    assert forall j :: t <= j < |cs| ==> cs[j] == u[j - t];
  }

  /** In an ordered trie, set_child lists the children of an ascending chain in ascending order. */
  lemma ArrangeAscending(cs: seq<Byte>, lab: Byte)
    requires cs != [] && Ascending(cs) && lab !in cs
    ensures Ascending(Arrange(cs, lab, true, true))
  {
    SplitAtSplits(cs, lab);
    InsertAscending(cs, SplitAt(cs, lab, true), lab);
  }
}
