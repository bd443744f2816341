/**
 * The read-only queries both tries offer over the shared state: get, the
 * depth-first traversal behind predict (begin and next), the key rebuilt
 * from a node (suffixBytes), and the one-byte-at-a-time extension of a
 * match that the common-prefix and scan iterators run.  The iterators
 * themselves, which keep their cursors in fields, are in `Iterators`.
 */
module Queries {
  import opened Bits
  import opened Outcomes
  import opened CedarState
  import opened Keys

  /** A match: the value, a length and the node reached (the cursor for suffix). */
  datatype Match = Match(value: int, length: int, from: int)

  /** get(key): the key's value, its length and its node, or nothing unless find gives a value `get` accepts. */
  function Get(s: State, enc: Encoding, key: seq<Byte>): Result<Option<Match>>
  {
    var (r, c) :- Find(s, enc, key, 0, 0, |key|);
    Ok(if IsValue(r) then Some(Match(r.value, |key|, c)) else None)
  }

  /** get answers exactly for the keys find reports a non-negative value for, with that value. */
  lemma GetMeans(s: State, enc: Encoding, key: seq<Byte>)
    requires Get(s, enc, key).Ok?
    ensures LookupKey(s, enc, key).Ok?
    ensures var g := Get(s, enc, key).value;
      (g.Some? <==> IsValue(LookupKey(s, enc, key).value)) &&
      (g.Some? ==> g.value.value == LookupKey(s, enc, key).value.value && g.value.length == |key|)
  {
  }

  // ---------------------------------------------------------------------
  // suffixBytes

  /**
   * suffixBytes(to, len): the `len` labels on the way up from `to`, the
   * last label first found: each step reads the parent `check(to)` and the
   * label `base(parent) ^ to`, truncated to a byte.
   */
  function Suffix(s: State, enc: Encoding, to: int, len: nat): Result<seq<Byte>>
    decreases len
  {
    if len == 0 then Ok([])
    else if !In(to, s.check) || !In(s.check[to], s.base) then Err(OutOfBounds)
    else
      var from := s.check[to];
      var rest :- Suffix(s, enc, from, len - 1);
      Ok(rest + [LabelBetween(BaseOf(enc, s.base[from]), to)])
  }

  /**
   * suffixBytes inverts the descent: when labels `ls` lead from `v` to
   * `to`, suffixBytes(to, |ls|) gives `ls` back.
   */
  lemma {:induction false} SuffixRebuilds(s: State, enc: Encoding, v: int, ls: seq<Byte>, to: int)
    requires Reach(s, enc, v, ls) == Some(to)
    ensures Suffix(s, enc, to, |ls|) == Ok(ls)
    decreases |ls|
  {
    if ls != [] {
      var init := ls[..|ls| - 1];
      var u := Reach(s, enc, v, init).value;
      SuffixRebuilds(s, enc, v, init, u);
      LabelBetweenXor(BaseOf(enc, s.base[u]), ls[|ls| - 1]);
      assert init + [ls[|ls| - 1]] == ls;
    }
  }

  /** Labels that lead from `v` to `u`, followed by labels that lead from `u` to `w`, lead from `v` to `w`. */
  lemma {:induction false} ReachAppend(s: State, enc: Encoding, v: int, ls: seq<Byte>, u: int, ms: seq<Byte>)
    requires Reach(s, enc, v, ls) == Some(u)
    ensures Reach(s, enc, v, ls + ms) == Reach(s, enc, u, ms)
    decreases |ms|
  {
    if ms == [] {
      assert ls + ms == ls;
    } else {
      var init := ms[..|ms| - 1];
      ReachAppend(s, enc, v, ls, u, init);
      assert (ls + ms)[..|ls + ms| - 1] == ls + init;
    }
  }

  // ---------------------------------------------------------------------
  // begin and next: the depth-first walk behind predict

  /** What begin and next leave in the iterator: the node, the depth and the value, `None` for ABSENT. */
  datatype Scratch = Scratch(from: int, p: int, value: Option<int>)

  /** The value begin reads at the leaf it stops at: the base of the terminal, or a reduced leaf's own base. */
  function LeafValue(s: State, enc: Encoding, from: int, p: int): Result<Scratch>
  {
    if !In(from, s.base) then Err(OutOfBounds)
    else if enc == Reduced && s.base[from] >= 0 then Ok(Scratch(from, p, Some(s.base[from])))
    else
      var b := BaseOf(enc, s.base[from]);
      if !In(b, s.base) then Err(OutOfBounds)
      else Ok(Scratch(from, p, Some(s.base[b])))
  }

  /** begin's loop: down the first child `c` until a node whose first child is the terminal label 0. */
  function Leftmost(s: State, enc: Encoding, from: int, c: Byte, p: int, fuel: nat): Result<Scratch>
    decreases fuel
  {
    if c == 0 then LeafValue(s, enc, from, p)
    else if fuel == 0 then Err(Diverges)
    else if !In(from, s.base) then Err(OutOfBounds)
    else
      var to := XorLabel(BaseOf(enc, s.base[from]), c);
      if !In(to, s.child) then Err(OutOfBounds)
      else Leftmost(s, enc, to, s.child[to], p + 1, fuel - 1)
  }

  /**
   * begin(from, p): the first leaf under `from`, `p` counting the levels.
   * At the root the walk starts from the second label of the root's chain:
   * the first, label 0, is the root's own slot.
   */
  function Begin(s: State, enc: Encoding, from: int, p: int): Result<Scratch>
  {
    if !In(from, s.base) || !In(from, s.child) then Err(OutOfBounds)
    else if from == 0 then
      var x := XorLabel(BaseOf(enc, s.base[from]), s.child[from]);
      if !In(x, s.sibling) then Err(OutOfBounds)
      else if s.sibling[x] == 0 then Ok(Scratch(from, p, None))
      else Leftmost(s, enc, from, s.sibling[x], p, |s.base|)
    else Leftmost(s, enc, from, s.child[from], p, |s.base|)
  }

  /** next's loop: up the tree until a node with a next sibling `c`, or `root`. */
  function Climb(s: State, enc: Encoding, from: int, p: int, root: int, c: Byte, fuel: nat): Result<Scratch>
    decreases fuel
  {
    if c == 0 && from != root then
      if fuel == 0 then Err(Diverges)
      else if !In(from, s.sibling) || !In(from, s.check) then Err(OutOfBounds)
      else Climb(s, enc, s.check[from], p - 1, root, s.sibling[from], fuel - 1)
    else if c != 0 then
      if !In(from, s.base) then Err(OutOfBounds)
      else Begin(s, enc, XorLabel(BaseOf(enc, s.base[from]), c), p + 1)
    else Ok(Scratch(from, p, None))
  }

  /**
   * next(from, p, root): the leaf after `from` in the walk under `root`.
   * The walk leaves `from` through the sibling of its terminal; a reduced
   * leaf has none.
   */
  function Next(s: State, enc: Encoding, from: int, p: int, root: int): Result<Scratch>
  {
    if !In(from, s.base) then Err(OutOfBounds)
    else if enc == Reduced && s.base[from] >= 0 then Climb(s, enc, from, p, root, 0, |s.base|)
    else
      var b := BaseOf(enc, s.base[from]);
      if !In(b, s.sibling) then Err(OutOfBounds)
      else Climb(s, enc, from, p, root, s.sibling[b], |s.base|)
  }

  /** Every node's first child, when it has one, is owned by it. */
  ghost predicate ChildOwned(s: State, enc: Encoding)
  {
    forall v | In(v, s.base) && In(v, s.child) && s.child[v] != 0 ::
      In(XorLabel(BaseOf(enc, s.base[v]), s.child[v]), s.check) &&
      s.check[XorLabel(BaseOf(enc, s.base[v]), s.child[v])] == v
  }

  /**
   * begin's loop goes down owned edges: when each node's first child is
   * owned, the leaf it stops at lies `q - p` levels under `from`, on labels
   * the lemma names.
   */
  lemma {:induction false} LeftmostReaches(s: State, enc: Encoding, from: int, c: Byte, p: int, fuel: nat) returns (ls: seq<Byte>)
    requires ChildOwned(s, enc)
    requires c != 0 ==> (In(from, s.base) && In(XorLabel(BaseOf(enc, s.base[from]), c), s.check) &&
      s.check[XorLabel(BaseOf(enc, s.base[from]), c)] == from)
    requires Leftmost(s, enc, from, c, p, fuel).Ok?
    ensures var r := Leftmost(s, enc, from, c, p, fuel).value;
      r.p == p + |ls| && Reach(s, enc, from, ls) == Some(r.from) && r.value.Some?
    decreases fuel
  {
    if c == 0 {
      ls := [];
    } else {
      var to := XorLabel(BaseOf(enc, s.base[from]), c);
      var rest := LeftmostReaches(s, enc, to, s.child[to], p + 1, fuel - 1);
      assert Reach(s, enc, from, [c]) == Some(to) by {
        assert [c][..0] == [];
      }
      ReachAppend(s, enc, from, [c], to, rest);
      ls := [c] + rest;
    }
  }

  /**
   * The first match predict reports under a node: when the node's first
   * edge and every first child below it are owned, begin stops at a leaf
   * with a value, and the labels suffixBytes rebuilds from that leaf lead
   * back down to it from the node.
   */
  lemma BeginRebuilds(s: State, enc: Encoding, from: int, p: int)
    requires ChildOwned(s, enc) && from != 0
    requires Begin(s, enc, from, p).Ok?
    ensures var r := Begin(s, enc, from, p).value;
      r.value.Some? && r.p >= p && Suffix(s, enc, r.from, r.p - p).Ok? &&
      Reach(s, enc, from, Suffix(s, enc, r.from, r.p - p).value) == Some(r.from)
  {
    var ls := LeftmostReaches(s, enc, from, s.child[from], p, |s.base|);
    var r := Begin(s, enc, from, p).value;
    SuffixRebuilds(s, enc, from, ls, r.from);
  }

  /** Byte order on keys: `a` is a proper prefix of `b`, or has the smaller byte where they first differ. */
  predicate Before(a: seq<Byte>, b: seq<Byte>)
  {
    (|a| < |b| && a == b[..|a|]) ||
    (exists i :: 0 <= i < |a| && i < |b| && a[..i] == b[..i] && a[i] < b[i])
  }

  /**
   * The sibling chains of an ordered trie: the next sibling of a node is
   * owned by the same parent and has a larger label.
   */
  ghost predicate ChainsAscend(s: State, enc: Encoding)
  {
    forall x | In(x, s.check) && In(x, s.sibling) && s.sibling[x] != 0 && In(s.check[x], s.base) ::
      In(XorLabel(BaseOf(enc, s.base[s.check[x]]), s.sibling[x]), s.check) &&
      s.check[XorLabel(BaseOf(enc, s.base[s.check[x]]), s.sibling[x])] == s.check[x] &&
      s.sibling[x] > LabelBetween(BaseOf(enc, s.base[s.check[x]]), x)
  }

  /**
   * next's climb: from node `u`, which the labels `pre` (a prefix of `key`)
   * lead to from `root`, with `c` the next label to try there (larger than
   * the label `key` takes from `u`, if any), the leaf it finds lies under
   * labels that come after `key` in byte order.
   */
  lemma {:induction false} ClimbAfter(s: State, enc: Encoding, root: int, key: seq<Byte>, pre: seq<Byte>, u: int, p: int, c: Byte, fuel: nat)
    returns (next: seq<Byte>)
    requires ChildOwned(s, enc) && ChainsAscend(s, enc) && In(0, s.check) && s.check[0] < 0
    requires Reach(s, enc, root, pre) == Some(u)
    requires |pre| <= |key| && pre == key[..|pre|]
    requires c != 0 ==>
      (In(u, s.base) && In(XorLabel(BaseOf(enc, s.base[u]), c), s.check) && s.check[XorLabel(BaseOf(enc, s.base[u]), c)] == u)
    requires |pre| < |key| && c != 0 ==> c > key[|pre|]
    requires Climb(s, enc, u, p, root, c, fuel).Ok? && Climb(s, enc, u, p, root, c, fuel).value.value.Some?
    ensures var r := Climb(s, enc, u, p, root, c, fuel).value;
      Reach(s, enc, root, next) == Some(r.from) && r.p == p - |pre| + |next| && Before(key, next)
    decreases fuel
  {
    if c == 0 {
      assert u != root && pre != [];
      var up := pre[..|pre| - 1];
      var w := s.check[u];
      assert Reach(s, enc, root, up) == Some(w);
      LabelBetweenXor(BaseOf(enc, s.base[w]), pre[|pre| - 1]);
      assert up == key[..|up|];
      next := ClimbAfter(s, enc, root, key, up, w, p - 1, s.sibling[u], fuel - 1);
    } else {
      var y := XorLabel(BaseOf(enc, s.base[u]), c);
      assert y != 0;
      var ls := LeftmostReaches(s, enc, y, s.child[y], p + 1, |s.base|);
      var pc := pre + [c];
      assert Reach(s, enc, root, pc) == Some(y) by {
        assert pc[..|pc| - 1] == pre;
      }
      ReachAppend(s, enc, root, pc, y, ls);
      next := pc + ls;
      assert next[..|pre|] == pre && next[|pre|] == c;
      if |pre| < |key| {
        assert key[..|pre|] == next[..|pre|] && key[|pre|] < next[|pre|];
      } else {
        assert key == pre && next[..|key|] == key;
      }
    }
  }

  /**
   * next in an ordered trie: from a leaf that `key` leads to from `root`,
   * the leaf it reports a value for lies under labels that come after `key`
   * in byte order, and suffixBytes rebuilds those labels.  The leaf must own
   * its terminal when it has one, and the sibling chains must be owned and
   * ascending.
   */
  lemma NextAfter(s: State, enc: Encoding, root: int, key: seq<Byte>, from: int, p: int) returns (next: seq<Byte>)
    requires ChildOwned(s, enc) && ChainsAscend(s, enc) && In(0, s.check) && s.check[0] < 0
    requires Reach(s, enc, root, key) == Some(from)
    requires In(from, s.base) && !(enc == Reduced && s.base[from] >= 0) ==>
      (In(BaseOf(enc, s.base[from]), s.check) && s.check[BaseOf(enc, s.base[from])] == from)
    requires Next(s, enc, from, p, root).Ok? && Next(s, enc, from, p, root).value.value.Some?
    ensures var r := Next(s, enc, from, p, root).value;
      Reach(s, enc, root, next) == Some(r.from) && r.p == p - |key| + |next| && Before(key, next) &&
      Suffix(s, enc, r.from, |next|) == Ok(next)
  {
    assert key[..|key|] == key;
    if enc == Reduced && s.base[from] >= 0 {
      next := ClimbAfter(s, enc, root, key, key, from, p, 0, |s.base|);
    } else {
      var b := BaseOf(enc, s.base[from]);
      next := ClimbAfter(s, enc, root, key, key, from, p, s.sibling[b], |s.base|);
    }
    var r := Next(s, enc, from, p, root).value;
    SuffixRebuilds(s, enc, root, next, r.from);
  }

  // ---------------------------------------------------------------------
  // The common-prefix and scan iterators' inner loop

  /**
   * The loop the common-prefix and scan iterators share: from cursor
   * `from`, after `i` bytes of `text` from `base`, find one more byte at a
   * time, skipping prefixes with no value, until a value (returned, with
   * `i` already past it), an absent prefix, or the end of the text.
   */
  function Extend(s: State, enc: Encoding, text: seq<Byte>, base: int, from: int, i: int): Result<(int, int, Option<int>)>
    decreases |text| - base - i
  {
    if i >= |text| - base then Ok((from, i, None))
    else
      var off := base + i;
      var (r, v) :- Find(s, enc, text, from, off, off + 1);
      if r == Absent then Ok((v, i, None))
      else if r == NoValue then Extend(s, enc, text, base, v, i + 1)
      else Ok((v, i + 1, Some(r.value)))
  }

  /**
   * The value the standard trie stores for `key`, read off the structure:
   * the key's bytes lead from the root to a node that owns its terminal,
   * whose base is the value.  `StoredMeans` shows find(key) agrees.
   */
  ghost function Stored(s: State, key: seq<Byte>): Option<int>
  {
    match Reach(s, Standard, 0, key)
    case None => None
    case Some(c) =>
      if In(c, s.base) && In(s.base[c], s.check) && In(s.base[c], s.base) && s.check[s.base[c]] == c
      then Some(s.base[s.base[c]]) else None
  }

  /** find(key) reports a value exactly for the keys the standard trie stores one for, and the same value. */
  lemma StoredMeans(s: State, key: seq<Byte>)
    requires LookupKey(s, Standard, key).Ok?
    ensures LookupKey(s, Standard, key).value.Found? <==> Stored(s, key).Some?
    ensures Stored(s, key).Some? ==> LookupKey(s, Standard, key).value == Found(Stored(s, key).value)
  {
    FindMeans(s, key);
  }

  /** A prefix of labels that lead somewhere leads somewhere. */
  lemma {:induction false} ReachPrefix(s: State, enc: Encoding, v: int, ls: seq<Byte>, n: nat)
    requires n <= |ls| && Reach(s, enc, v, ls).Some?
    ensures Reach(s, enc, v, ls[..n]).Some?
    decreases |ls| - n
  {
    if n < |ls| {
      var init := ls[..|ls| - 1];
      assert Reach(s, enc, v, init).Some?;
      assert init[..n] == ls[..n];
      ReachPrefix(s, enc, v, init, n);
    } else {
      assert ls[..n] == ls;
    }
  }

  /**
   * One step of the shared loop in the standard trie: from the node the
   * first `i` bytes lead to, find of byte `i` is ABSENT exactly when the
   * first `i + 1` bytes lead nowhere; otherwise the cursor moves to the node
   * they lead to and the value reported is the one stored for them.
   */
  lemma FindStep(s: State, text: seq<Byte>, base: int, i: int, v: int, r: Lookup, w: int)
    requires 0 <= base && 0 <= i && base + i < |text|
    requires Reach(s, Standard, 0, text[base..base + i]) == Some(v)
    requires Find(s, Standard, text, v, base + i, base + i + 1) == Ok((r, w))
    ensures r == Absent <==> Reach(s, Standard, 0, text[base..base + (i + 1)]) == None
    ensures r == Absent ==> w == v
    ensures r != Absent ==> Reach(s, Standard, 0, text[base..base + (i + 1)]) == Some(w)
    ensures r.Found? <==> Stored(s, text[base..base + (i + 1)]).Some?
    ensures r.Found? ==> Stored(s, text[base..base + (i + 1)]) == Some(r.value)
  {
    var key := text[base..base + (i + 1)];
    assert key[..|key| - 1] == text[base..base + i] && key[|key| - 1] == text[base + i];
    var st := Descend(s, Standard, text, base + i, 1, 0, v);
    assert In(v, s.base);
    var to := XorLabel(BaseOf(Standard, s.base[v]), text[base + i]);
    assert In(to, s.check);
    if s.check[to] != v {
      assert st == Ok(Stop(0, v, true));
      assert Reach(s, Standard, 0, key) == None;
    } else {
      assert st == Descend(s, Standard, text, base + i, 1, 1, to) == Ok(Stop(1, to, false));
      assert Reach(s, Standard, 0, key) == Some(to);
      assert Find(s, Standard, text, v, base + i, base + i + 1) == Ok((ValueAt(s, Standard, to, 1, 1).value, to));
    }
  }

  /** When the first `i + 1` bytes from `base` lead nowhere, no longer run from `base` is stored. */
  lemma NothingStoredPast(s: State, text: seq<Byte>, base: int, i: int)
    requires 0 <= base && 0 <= i && base + i < |text|
    requires Reach(s, Standard, 0, text[base..base + (i + 1)]) == None
    ensures forall e | base + i < e <= |text| :: Stored(s, text[base..e]) == None
  {
    forall e | base + i < e <= |text|
      ensures Stored(s, text[base..e]) == None
    {
      assert text[base..e][..i + 1] == text[base..base + (i + 1)];
      ReachNoneExtends(s, Standard, 0, text[base..e], i + 1);
    }
  }

  /** Nothing stored for the first `i + 1` bytes nor for the runs after them: nothing stored from `i + 1` on. */
  lemma NothingStoredBefore(s: State, text: seq<Byte>, base: int, i: int, j: int, found: Option<int>)
    requires 0 <= base && 0 <= i && base + i < |text|
    requires Stored(s, text[base..base + (i + 1)]) == None
    requires forall e | base + i + 1 < e <= |text| && (found.None? || e < base + j) :: Stored(s, text[base..e]) == None
    ensures forall e | base + i < e <= |text| && (found.None? || e < base + j) :: Stored(s, text[base..e]) == None
  {
  }

  /** One round of the shared loop: the one-byte find it makes and what each outcome leads to. */
  lemma ExtendUnfolds(s: State, enc: Encoding, text: seq<Byte>, base: int, from: int, i: int, v: int, j: int, found: Option<int>)
    returns (r: Lookup, w: int)
    requires Extend(s, enc, text, base, from, i) == Ok((v, j, found))
    ensures i >= |text| - base ==> v == from && j == i && found == None
    ensures i < |text| - base ==> Find(s, enc, text, from, base + i, base + i + 1) == Ok((r, w))
    ensures i < |text| - base && r == Absent ==> v == w && j == i && found == None
    ensures i < |text| - base && r == NoValue ==> Extend(s, enc, text, base, w, i + 1) == Ok((v, j, found))
    ensures i < |text| - base && r.Found? ==> v == w && j == i + 1 && found == Some(r.value)
  {
    r, w := Absent, from;
    if i < |text| - base {
      var p := Find(s, enc, text, from, base + i, base + i + 1).value;
      r, w := p.0, p.1;
    }
  }

  /**
   * The shared loop in the standard trie, from the node the first `i` bytes
   * from `base` lead to: a value it returns is stored for the prefix that
   * ends where the loop stopped, and the cursor is that prefix's node.
   */
  lemma {:induction false} ExtendFinds(s: State, text: seq<Byte>, base: int, from: int, i: int, v: int, j: int, found: Option<int>)
    requires 0 <= base && 0 <= i && base + i <= |text|
    requires Reach(s, Standard, 0, text[base..base + i]) == Some(from)
    requires Extend(s, Standard, text, base, from, i) == Ok((v, j, found))
    ensures i <= j <= |text| - base
    ensures Reach(s, Standard, 0, text[base..base + j]) == Some(v)
    ensures found.Some? ==> i < j && Stored(s, text[base..base + j]) == found
    decreases |text| - base - i
  {
    var r, w := ExtendUnfolds(s, Standard, text, base, from, i, v, j, found);
    if i < |text| - base {
      FindStep(s, text, base, i, from, r, w);
      if r == NoValue {
        ExtendFinds(s, text, base, w, i + 1, v, j, found);
      } else if r.Found? {
        assert text[base..base + j] == text[base..base + (i + 1)];
      }
    }
  }

  /**
   * The shared loop in the standard trie, from the node the first `i` bytes
   * from `base` lead to, passes over no stored prefix: none is stored
   * before the one it returns, and none at all when it returns none.
   */
  lemma {:induction false} ExtendMisses(s: State, text: seq<Byte>, base: int, from: int, i: int, v: int, j: int, found: Option<int>)
    requires 0 <= base && 0 <= i && base + i <= |text|
    requires Reach(s, Standard, 0, text[base..base + i]) == Some(from)
    requires Extend(s, Standard, text, base, from, i) == Ok((v, j, found))
    ensures forall e | base + i < e <= |text| && (found.None? || e < base + j) :: Stored(s, text[base..e]) == None
    decreases |text| - base - i
  {
    if i < |text| - base {
      var (r, w) := Find(s, Standard, text, from, base + i, base + i + 1).value;
      FindStep(s, text, base, i, from, r, w);
      if r == Absent {
        NothingStoredPast(s, text, base, i);
      } else if r == NoValue {
        assert Extend(s, Standard, text, base, w, i + 1) == Ok((v, j, found));
        ExtendMisses(s, text, base, w, i + 1, v, j, found);
        NothingStoredBefore(s, text, base, i, j, found);
      }
    }
  }

  /**
   * What the shared loop in the standard trie reports when resumed after
   * `i` bytes from `base` and stopped after `j` at node `v`: `v` is the
   * node the `j` bytes lead to, a value found is the one stored for them,
   * and no prefix in between, nor any longer one when nothing was found,
   * is stored.
   */
  ghost predicate Extended(s: State, text: seq<Byte>, base: int, i: int, v: int, j: int, found: Option<int>)
    requires 0 <= base
  {
    0 <= i <= j <= |text| - base &&
    Reach(s, Standard, 0, text[base..base + j]) == Some(v) &&
    (found.Some? ==> i < j && Stored(s, text[base..base + j]) == found) &&
    (forall e | base + i < e <= |text| && (found.None? || e < base + j) :: Stored(s, text[base..e]) == None)
  }

  /** The shared loop in the standard trie finds the shortest longer stored prefix: `ExtendFinds` and `ExtendMisses` together. */
  lemma ExtendReports(s: State, text: seq<Byte>, base: int, from: int, i: int, v: int, j: int, found: Option<int>)
    requires 0 <= base && 0 <= i && base + i <= |text|
    requires Reach(s, Standard, 0, text[base..base + i]) == Some(from)
    requires Extend(s, Standard, text, base, from, i) == Ok((v, j, found))
    ensures Extended(s, text, base, i, v, j, found)
  {
    ExtendFinds(s, text, base, from, i, v, j, found);
    ExtendMisses(s, text, base, from, i, v, j, found);
  }

  /** A match of scan: the start offset, the end offset and the value. */
  datatype TextMatch = TextMatch(begin: int, end: int, value: int)

  /**
   * scan's advance: from start offset `base`, the shared loop; when it finds
   * nothing the next offset starts over from the root.  Returns the cursor,
   * the start offset, the bytes matched from it and the match.
   */
  function ScanAdvance(s: State, enc: Encoding, text: seq<Byte>, from: int, base: int, i: int): Result<(int, int, int, Option<TextMatch>)>
    decreases |text| - base
  {
    if base >= |text| then Ok((from, base, i, None))
    else
      var (v, j, found) :- Extend(s, enc, text, base, from, i);
      if found.Some? then Ok((v, base, j, Some(TextMatch(base, base + j, found.value))))
      else ScanAdvance(s, enc, text, 0, base + 1, 0)
  }

  /**
   * scan in the standard trie, resumed after `i` bytes from start offset
   * `base`: the match it reports is a stored key of the text with its
   * value and comes after the resumed position (a later start, or the same
   * start and a longer key); the cursor it leaves is the node of the bytes
   * matched, ready to resume from.
   */
  lemma {:induction false} ScanFinds(s: State, text: seq<Byte>, from: int, base: int, i: int,
                                     v: int, base': int, i': int, m: Option<TextMatch>)
    requires 0 <= base && 0 <= i && base + i <= |text|
    requires Reach(s, Standard, 0, text[base..base + i]) == Some(from)
    requires ScanAdvance(s, Standard, text, from, base, i) == Ok((v, base', i', m))
    ensures base <= base' && 0 <= i' && base' + i' <= |text|
    ensures Reach(s, Standard, 0, text[base'..base' + i']) == Some(v)
    ensures m.Some? ==> (base <= m.value.begin < m.value.end <= |text| &&
      (m.value.begin == base ==> base + i < m.value.end) &&
      m.value.begin == base' && m.value.end == base' + i' &&
      Stored(s, text[m.value.begin..m.value.end]) == Some(m.value.value))
    decreases |text| - base
  {
    if base < |text| {
      var (w, j, found) := Extend(s, Standard, text, base, from, i).value;
      ExtendFinds(s, text, base, from, i, w, j, found);
      if found.None? {
        assert text[base + 1..base + 1] == [];
        assert ScanAdvance(s, Standard, text, 0, base + 1, 0) == Ok((v, base', i', m));
        ScanFinds(s, text, 0, base + 1, 0, v, base', i', m);
      } else {
        assert (v, base', i', m) == (w, base, j, Some(TextMatch(base, base + j, found.value)));
      }
    } else {
      assert text[base'..base' + i'] == text[base..base + i];
    }
  }

  /**
   * scan in the standard trie, resumed after `i` bytes from start offset
   * `base`, passes over no stored key: none at the same start before the
   * match, none at a start in between, and none at all when it reports
   * no match.
   */
  lemma {:induction false} ScanMisses(s: State, text: seq<Byte>, from: int, base: int, i: int,
                                      v: int, base': int, i': int, m: Option<TextMatch>)
    requires 0 <= base && 0 <= i && base + i <= |text|
    requires Reach(s, Standard, 0, text[base..base + i]) == Some(from)
    requires ScanAdvance(s, Standard, text, from, base, i) == Ok((v, base', i', m))
    ensures forall e | base + i < e <= |text| && (m.None? || base < m.value.begin || e < m.value.end) ::
      Stored(s, text[base..e]) == None
    ensures forall b, e | base < b < e <= |text| && (m.None? || b < m.value.begin || (b == m.value.begin && e < m.value.end)) ::
      Stored(s, text[b..e]) == None
    decreases |text| - base
  {
    if base < |text| {
      var (w, j, found) := Extend(s, Standard, text, base, from, i).value;
      ExtendMisses(s, text, base, from, i, w, j, found);
      if found.None? {
        assert text[base + 1..base + 1] == [];
        assert ScanAdvance(s, Standard, text, 0, base + 1, 0) == Ok((v, base', i', m));
        ScanMisses(s, text, 0, base + 1, 0, v, base', i', m);
        forall b, e | base < b < e <= |text| && (m.None? || b < m.value.begin || (b == m.value.begin && e < m.value.end))
          ensures Stored(s, text[b..e]) == None
        {
          if b == base + 1 {
            assert base + 1 + 0 < e;
          }
        }
      } else {
        assert m == Some(TextMatch(base, base + j, found.value));
      }
    }
  }

  /**
   * What scan in the standard trie reports when resumed after `i` bytes
   * from start offset `base`: `ScanFinds` and `ScanMisses` together.
   */
  ghost predicate Scanned(s: State, text: seq<Byte>, base: int, i: int, v: int, base': int, i': int, m: Option<TextMatch>)
    requires 0 <= base
  {
    0 <= i && base <= base' && 0 <= i' && base' + i' <= |text| &&
    Reach(s, Standard, 0, text[base'..base' + i']) == Some(v) &&
    (m.Some? ==> (base <= m.value.begin < m.value.end <= |text| &&
      (m.value.begin == base ==> base + i < m.value.end) &&
      m.value.begin == base' && m.value.end == base' + i' &&
      Stored(s, text[m.value.begin..m.value.end]) == Some(m.value.value))) &&
    (forall e | base + i < e <= |text| && (m.None? || base < m.value.begin || e < m.value.end) ::
      Stored(s, text[base..e]) == None) &&
    (forall b, e | base < b < e <= |text| && (m.None? || b < m.value.begin || (b == m.value.begin && e < m.value.end)) ::
      Stored(s, text[b..e]) == None)
  }

  /** scan in the standard trie reports the next stored key of the text, in order, and misses none. */
  lemma ScanReports(s: State, text: seq<Byte>, from: int, base: int, i: int, v: int, base': int, i': int, m: Option<TextMatch>)
    requires 0 <= base && 0 <= i && base + i <= |text|
    requires Reach(s, Standard, 0, text[base..base + i]) == Some(from)
    requires ScanAdvance(s, Standard, text, from, base, i) == Ok((v, base', i', m))
    ensures Scanned(s, text, base, i, v, base', i', m)
  {
    ScanFinds(s, text, from, base, i, v, base', i', m);
    ScanMisses(s, text, from, base, i, v, base', i', m);
  }

  // ---------------------------------------------------------------------
  // The predict iterator

  /**
   * The predict iterator's fields: the cursor, the depth below the prefix,
   * the node under which it enumerates, the value of the leaf at the
   * cursor (`None` for ABSENT) and the match it holds for the caller.
   */
  datatype Predict = Predict(from: int, p: int, root: int, value: Option<int>, curr: Option<Match>)

  /** A new predict iterator: every field zero, so its value reads 0 and not ABSENT. */
  const PredictStart := Predict(0, 0, 0, Some(0), None)

  /** tryAdvance: the leaf at the cursor becomes the match, and next moves the cursor on. */
  function TryAdvance(s: State, enc: Encoding, it: Predict): Result<Predict>
  {
    if it.value.None? then Ok(it.(curr := None))
    else
      var nx :- Next(s, enc, it.from, it.p, it.root);
      Ok(Predict(nx.from, nx.p, it.root, nx.value, Some(Match(it.value.value, it.p, it.from))))
  }

  /** The first advance once the prefix is found at `root`: begin there, then tryAdvance. */
  function PredictFrom(s: State, enc: Encoding, it: Predict, root: int): Result<Predict>
  {
    var b :- Begin(s, enc, root, it.p);
    TryAdvance(s, enc, Predict(b.from, b.p, root, b.value, it.curr))
  }

  /**
   * advance: nothing once the value is ABSENT; at the start (cursor and
   * depth 0) find the prefix first, and begin under it unless it is
   * absent; otherwise tryAdvance.  `asWritten` keeps the source's handling
   * of an absent prefix, which moves the cursor and leaves the value as
   * it was; the corrected advance marks the iterator ABSENT.
   */
  function PredictAdvanceBy(s: State, enc: Encoding, key: seq<Byte>, it: Predict, asWritten: bool): Result<Predict>
  {
    if it.value.None? then Ok(it)
    else if it.from == 0 && it.p == 0 then
      if |key| == 0 then PredictFrom(s, enc, it, it.from)
      else
        var (r, c) :- Find(s, enc, key, it.from, 0, |key|);
        if r != Absent then PredictFrom(s, enc, it, c)
        else if asWritten then Ok(it.(from := c))
        else Ok(it.(from := c, value := None))
    else TryAdvance(s, enc, it)
  }

  /** predict's advance with an absent prefix ending the iteration. */
  function PredictAdvance(s: State, enc: Encoding, key: seq<Byte>, it: Predict): Result<Predict>
  {
    PredictAdvanceBy(s, enc, key, it, false)
  }

  /** predict's advance as the source has it. */
  function PredictAdvanceAsWritten(s: State, enc: Encoding, key: seq<Byte>, it: Predict): Result<Predict>
  {
    PredictAdvanceBy(s, enc, key, it, true)
  }

  /**
   * The source's iterator over an absent prefix whose first bytes exist
   * (the cursor moved off the root): the first advance reports nothing,
   * but a second one, which the iterator runs whenever it holds no match,
   * reports a match of value 0 and length 0 at the node where find stopped.
   */
  lemma PredictAsWrittenReportsAbsentPrefix(s: State, enc: Encoding, key: seq<Byte>, c: int)
    requires |key| > 0 && c != 0
    requires Find(s, enc, key, 0, 0, |key|) == Ok((Absent, c))
    requires Next(s, enc, c, 0, 0).Ok?
    ensures var first := PredictAdvanceAsWritten(s, enc, key, PredictStart);
      first.Ok? && first.value.curr.None? &&
      var second := PredictAdvanceAsWritten(s, enc, key, first.value);
      second.Ok? && second.value.curr == Some(Match(0, 0, c))
  {
    var first := PredictAdvanceAsWritten(s, enc, key, PredictStart);
    assert first == Ok(PredictStart.(from := c));
    assert PredictAdvanceAsWritten(s, enc, key, first.value) == TryAdvance(s, enc, first.value);
  }

  /**
   * With an absent prefix the corrected iterator reports nothing, now or
   * on any later advance.
   */
  lemma PredictAbsentPrefixEnds(s: State, enc: Encoding, key: seq<Byte>, c: int)
    requires |key| > 0
    requires Find(s, enc, key, 0, 0, |key|) == Ok((Absent, c))
    ensures var first := PredictAdvance(s, enc, key, PredictStart);
      first.Ok? && first.value.curr.None? && first.value.value.None? &&
      PredictAdvance(s, enc, key, first.value) == first
  {
    var first := PredictAdvance(s, enc, key, PredictStart);
    assert first == Ok(PredictStart.(from := c, value := None));
  }

  /** predict's first advance over a prefix that exists: begin under the prefix's node, and its leaf is the match. */
  lemma PredictFirst(s: State, enc: Encoding, key: seq<Byte>, r: Lookup, c: int, it: Predict)
    requires |key| > 0 && r != Absent
    requires Find(s, enc, key, 0, 0, |key|) == Ok((r, c))
    requires PredictAdvance(s, enc, key, PredictStart) == Ok(it)
    ensures Begin(s, enc, c, 0).Ok?
    ensures var b := Begin(s, enc, c, 0).value;
      it.root == c && (b.value.Some? ==> it.curr == Some(Match(b.value.value, b.p, b.from)))
  {
    assert PredictAdvance(s, enc, key, PredictStart) == PredictFrom(s, enc, PredictStart, c);
  }

  /**
   * predict's first match in the standard trie: when the prefix exists and
   * every first child is owned, the labels suffixBytes rebuilds from the
   * match, after the prefix, lead from the root to the match's node.
   */
  lemma PredictFirstRebuilds(s: State, key: seq<Byte>, r: Lookup, c: int, it: Predict)
    requires ChildOwned(s, Standard) && |key| > 0 && r != Absent && c != 0
    requires Find(s, Standard, key, 0, 0, |key|) == Ok((r, c))
    requires PredictAdvance(s, Standard, key, PredictStart) == Ok(it)
    ensures it.root == c && it.curr.Some?
    ensures var m := it.curr.value;
      m.length >= 0 && Suffix(s, Standard, m.from, m.length).Ok? &&
      Reach(s, Standard, 0, key + Suffix(s, Standard, m.from, m.length).value) == Some(m.from)
  {
    FindMeans(s, key);
    PredictFirst(s, Standard, key, r, c, it);
    BeginRebuilds(s, Standard, c, 0);
    var b := Begin(s, Standard, c, 0).value;
    ReachAppend(s, Standard, 0, key, c, Suffix(s, Standard, b.from, b.p).value);
  }
}
