/**
 * The key operations of both tries over the shared state: follow (take or
 * make the edge for one label), update (follow every byte of the key, then
 * the value's place), find (with its resumable cursor) and erase.  The
 * source returns find's outcome as a `long` with two sentinels; here it is
 * a `Lookup`.
 */
module Keys {
  import opened Bits
  import opened Outcomes
  import opened CedarState
  import opened AllocSpec
  import opened Nodes
  import Siblings
  import Relocation
  import AllocProofs

  /** find's outcome: a stored value, a node with no value (NO_VALUE), or no such node (ABSENT). */
  datatype Lookup = Found(value: int) | NoValue | Absent

  /**
   * A value `get` and the reduced trie's erase accept: the source checks the
   * `long` against both sentinel bits, which a negative `int` sign-extended
   * to a `long` also carries.
   */
  predicate IsValue(r: Lookup)
  {
    r.Found? && r.value >= 0
  }

  /**
   * follow's new edge: a node for `label` under `from` (pop_e_node), and
   * `label` joins `from`'s chain (push_sibling).
   */
  function Attach(s: State, enc: Encoding, from: int, base: int, lab: Byte): Result<(State, int)>
  {
    var (s1, to) :- PopENode(s, enc, base, lab, from);
    var s2 :- Siblings.PushSibling(s1, from, XorLabel(to, lab), lab, base >= 0);
    Ok((s2, to))
  }

  /**
   * follow(from, label): the node `from` reaches by `label`.  When `from`
   * has no base or the slot is free, a node is made there; when the slot is
   * another node's, resolve makes room.
   */
  function Follow(s: State, enc: Encoding, from: int, lab: Byte): Result<(State, int)>
  {
    if !In(from, s.base) then Err(OutOfBounds)
    else
      var base := BaseOf(enc, s.base[from]);
      var ix := XorLabel(base, lab);
      if base >= 0 && !In(ix, s.check) then Err(OutOfBounds)
      else if base < 0 || s.check[ix] < 0 then Attach(s, enc, from, base, lab)
      else if s.check[ix] != from then Relocation.Resolve(s, enc, from, base, lab)
      else Ok((s, ix))
  }

  /**
   * A new edge leads to a node owned by `from` at `base ^ label`, or, when
   * `from` had no base, at the slot its new base leads to by `label`, and
   * `label` is then `from`'s first child.
   */
  lemma AttachLinks(s: State, enc: Encoding, from: int, base: int, lab: Byte)
    requires Attach(s, enc, from, base, lab).Ok?
    ensures var (s', to) := Attach(s, enc, from, base, lab).value;
      In(to, s'.check) && s'.check[to] == from && In(from, s'.child) &&
      (base >= 0 ==> to == XorLabel(base, lab)) &&
      (base < 0 ==> In(from, s'.base) && XorLabel(BaseOf(enc, s'.base[from]), lab) == to && s'.child[from] == lab)
  {
    var (s1, to) := PopENode(s, enc, base, lab, from).value;
    PopENodeLinks(s, enc, base, lab, from, s1, to);
  }

  /**
   * The slot `from`'s base leads to by `label` is `from`'s own, or free on
   * its block's free ring (as pop_e_node expects), or `from` has no base yet:
   * follow needs no relocation.
   */
  ghost predicate Attachable(s: State, enc: Encoding, from: int, lab: Byte, free: seq<seq<int>>)
    requires In(from, s.base)
  {
    var base := BaseOf(enc, s.base[from]);
    var ix := XorLabel(base, lab);
    base < 0 ||
    (In(ix, s.check) && (s.check[ix] == from || (s.check[ix] < 0 && 0 <= BlockOf(ix) < |free| && ix in free[BlockOf(ix)])))
  }

  /** follow's cases when no other node holds the slot: a new edge, or the edge that is there. */
  lemma FollowCases(s: State, enc: Encoding, from: int, lab: Byte)
    requires Follow(s, enc, from, lab).Ok?
    ensures In(from, s.base)
    ensures var base := BaseOf(enc, s.base[from]); var ix := XorLabel(base, lab);
      && (base >= 0 ==> In(ix, s.check))
      && (base < 0 || s.check[ix] < 0 ==> Follow(s, enc, from, lab) == Attach(s, enc, from, base, lab))
      && (base >= 0 && s.check[ix] == from ==> Follow(s, enc, from, lab) == Ok((s, ix)))
  {
  }

  /**
   * follow(from, label) when no other node holds the slot: the node returned
   * is owned by `from` and is the slot `from`'s base (a new one when it had
   * none) leads to by `label`, and it is not `from` itself; an edge that is
   * there is taken without any change.  The allocator must be well formed
   * and `from` a node in use that is not its own parent.
   */
  lemma FollowOwns(s: State, enc: Encoding, from: int, lab: Byte, lists: PerType<seq<int>>, free: seq<seq<int>>)
    requires AllocProofs.AllocWF(s, lists, free) && 0 <= from < s.size && InUse(free, from) && s.check[from] != from
    requires Attachable(s, enc, from, lab, free)
    requires Follow(s, enc, from, lab).Ok?
    ensures var (s', to) := Follow(s, enc, from, lab).value;
      In(to, s'.check) && s'.check[to] == from && to != from && In(from, s'.base) &&
      XorLabel(BaseOf(enc, s'.base[from]), lab) == to
    ensures var base := BaseOf(enc, s.base[from]); var ix := XorLabel(base, lab);
      var (s', to) := Follow(s, enc, from, lab).value;
      (base >= 0 ==> to == ix) && (base >= 0 && s.check[ix] == from ==> s' == s)
  {
    var base := BaseOf(enc, s.base[from]);
    var ix := XorLabel(base, lab);
    FollowCases(s, enc, from, lab);
    if base < 0 || s.check[ix] < 0 {
      AttachOwns(s, enc, from, lab, lists, free);
    }
  }

  /** follow's new edge: the slot pop_e_node hands out is owned by `from` and reached from it by the label. */
  lemma AttachOwns(s: State, enc: Encoding, from: int, lab: Byte, lists: PerType<seq<int>>, free: seq<seq<int>>)
    requires AllocProofs.AllocWF(s, lists, free) && 0 <= from < s.size && InUse(free, from) && s.check[from] != from
    requires Attachable(s, enc, from, lab, free)
    requires var base := BaseOf(enc, s.base[from]); base < 0 || s.check[XorLabel(base, lab)] < 0
    requires Attach(s, enc, from, BaseOf(enc, s.base[from]), lab).Ok?
    ensures var base := BaseOf(enc, s.base[from]);
      var (s', to) := Attach(s, enc, from, base, lab).value;
      In(to, s'.check) && s'.check[to] == from && to != from && In(from, s'.base) &&
      XorLabel(BaseOf(enc, s'.base[from]), lab) == to && (base >= 0 ==> to == XorLabel(base, lab))
  {
    var base := BaseOf(enc, s.base[from]);
    AttachLinks(s, enc, from, base, lab);
    if base >= 0 {
      PopENodeKeepsParent(s, lists, free, enc, base, lab, from);
    } else {
      PopENodeOther(s, lists, free, enc, base, lab, from);
    }
  }

  /**
   * The reduced trie's update, on the way down: a node whose base holds a
   * value (not the `VALUE_LIMIT` placeholder) is about to get children, so
   * its value moves to a new terminal child, reached by label 0.
   */
  function Lift(s: State, from: int): Result<State>
  {
    if !In(from, s.base) then Err(OutOfBounds)
    else
      var val := s.base[from];
      if val >= 0 && val != VALUE_LIMIT then
        var (s1, to) :- Follow(s, Reduced, from, 0);
        if !In(to, s1.base) then Err(OutOfBounds)
        else Ok(s1.(base := s1.base[to := val]))
      else Ok(s)
  }

  /**
   * A value lifted off a reduced leaf is kept in a terminal that the leaf
   * owns and reaches by label 0 under its new base, which marks it as a node
   * with children.
   */
  lemma LiftKeepsValue(s: State, from: int)
    requires Lift(s, from).Ok? && In(from, s.base)
    requires s.base[from] >= 0 && s.base[from] != VALUE_LIMIT
    ensures var s' := Lift(s, from).value;
      var to := Follow(s, Reduced, from, 0).value.1;
      In(to, s'.base) && In(to, s'.check) && s'.check[to] == from && s'.base[to] == s.base[from] &&
      (to != from ==> XorLabel(BaseOf(Reduced, s'.base[from]), 0) == to)
  {
    var base := BaseOf(Reduced, s.base[from]);
    AttachLinks(s, Reduced, from, base, 0);
  }

  /** update's loop from byte `pos` on: the node the key leads to, made where it is missing. */
  function Insert(s: State, enc: Encoding, key: seq<Byte>, pos: nat, from: int): Result<(State, int)>
    decreases |key| - pos
  {
    if pos >= |key| then Ok((s, from))
    else
      var s1 :- Lifted(s, enc, from);
      var (s2, to) :- Follow(s1, enc, from, key[pos]);
      Insert(s2, enc, key, pos + 1, to)
  }

  /** The state update's loop works on for byte `pos`: the reduced trie first lifts a leaf's value. */
  function Lifted(s: State, enc: Encoding, from: int): Result<State>
  {
    if enc == Reduced then Lift(s, from) else Ok(s)
  }

  /** One turn of update's loop: the rest of the loop runs on the state the turn leaves. */
  lemma InsertStep(s: State, enc: Encoding, key: seq<Byte>, pos: nat, from: int, s1: State, s2: State, to: int)
    requires pos < |key| && Lifted(s, enc, from) == Ok(s1) && Follow(s1, enc, from, key[pos]) == Ok((s2, to))
    ensures Insert(s, enc, key, pos, from) == Insert(s2, enc, key, pos + 1, to)
  {
  }

  /** A turn of update's loop that fails ends the loop with that failure. */
  lemma InsertFails(s: State, enc: Encoding, key: seq<Byte>, pos: nat, from: int, s1: State)
    requires pos < |key|
    requires Lifted(s, enc, from).Err? || (Lifted(s, enc, from) == Ok(s1) && Follow(s1, enc, from, key[pos]).Err?)
    ensures Insert(s, enc, key, pos, from).Err?
  {
  }

  /**
   * The slot that holds the value of the node the key leads to: its terminal
   * child (made when missing) in the standard trie; in the reduced trie the
   * node itself when it is a leaf, else its terminal child, and a
   * `VALUE_LIMIT` placeholder there is read as 0.
   */
  function Terminal(s: State, enc: Encoding, from: int): Result<(State, int)>
  {
    if enc == Standard then Follow(s, Standard, from, 0)
    else if !In(from, s.base) then Err(OutOfBounds)
    else
      var (s1, to) :- if s.base[from] >= 0 then Ok((s, from)) else Follow(s, Reduced, from, 0);
      if !In(to, s1.base) then Err(OutOfBounds)
      else Ok((if s1.base[to] == VALUE_LIMIT then s1.(base := s1.base[to := 0]) else s1, to))
  }

  /**
   * update(key, value): the key's value slot gets `value`; the value it held
   * is returned (getAndSetBase).  The empty key is refused.
   */
  function Update(s: State, enc: Encoding, key: seq<Byte>, value: int): Result<(State, int)>
  {
    if key == [] then Err(EmptyKey)
    else
      var (s1, from) :- Insert(s, enc, key, 0, 0);
      var (s2, to) :- Terminal(s1, enc, from);
      if !In(to, s2.base) then Err(OutOfBounds)
      else Ok((s2.(base := s2.base[to := value]), s2.base[to]))
  }

  /**
   * update(key, value) read back by find: once the descent has reached the
   * key's node `from`, and the value's place needs no relocation, find's
   * reading of `from` on the trie update leaves is `value`; the value update
   * returns is the one find read there before (a reduced placeholder reads
   * as 0).  The empty key is refused.  A reduced value must not be negative,
   * as a negative base marks a node with children there.
   */
  lemma UpdateReadsBack(s: State, enc: Encoding, key: seq<Byte>, value: int, lists: PerType<seq<int>>, free: seq<seq<int>>)
    requires Update(s, enc, key, value).Ok?
    requires var (s1, from) := Insert(s, enc, key, 0, 0).value;
      AllocProofs.AllocWF(s1, lists, free) && 0 <= from < s1.size && InUse(free, from) && s1.check[from] != from &&
      (enc == Standard || s1.base[from] < 0 ==> Attachable(s1, enc, from, 0, free))
    requires enc == Reduced ==> value >= 0
    ensures key != []
    ensures var (s1, from) := Insert(s, enc, key, 0, 0).value;
      var (s', prev) := Update(s, enc, key, value).value;
      ValueAt(s', enc, from, |key|, |key|) == Ok(Found(value)) &&
      forall v :: ValueAt(s1, enc, from, |key|, |key|) == Ok(Found(v)) ==>
        prev == (if enc == Reduced && v == VALUE_LIMIT then 0 else v)
  {
    var (s1, from) := Insert(s, enc, key, 0, 0).value;
    TerminalReadsBack(s1, enc, from, value, lists, free);
  }

  /** update's last step from the key's node `from`: the terminal's write reads back at `from`. */
  lemma TerminalReadsBack(s1: State, enc: Encoding, from: int, value: int, lists: PerType<seq<int>>, free: seq<seq<int>>)
    requires Terminal(s1, enc, from).Ok? && In(Terminal(s1, enc, from).value.1, Terminal(s1, enc, from).value.0.base)
    requires AllocProofs.AllocWF(s1, lists, free) && 0 <= from < s1.size && InUse(free, from) && s1.check[from] != from
    requires enc == Standard || s1.base[from] < 0 ==> Attachable(s1, enc, from, 0, free)
    requires enc == Reduced ==> value >= 0
    ensures var (s2, to) := Terminal(s1, enc, from).value;
      ValueAt(s2.(base := s2.base[to := value]), enc, from, 0, 0) == Ok(Found(value)) &&
      forall v :: ValueAt(s1, enc, from, 0, 0) == Ok(Found(v)) ==>
        s2.base[to] == (if enc == Reduced && v == VALUE_LIMIT then 0 else v)
  {
    if enc == Standard || s1.base[from] < 0 {
      TerminalFollows(s1, enc, from);
      FollowOwns(s1, enc, from, 0, lists, free);
      var (s2, to) := Follow(s1, enc, from, 0).value;
      XorLabelZero(BaseOf(enc, s2.base[from]));
      WriteReadsBack(s2, enc, from, to, value);
      XorLabelZero(BaseOf(enc, s1.base[from]));
    }
  }

  /** The terminal of a node with no value in its own base is the one follow by label 0 gives, a placeholder read as 0. */
  lemma TerminalFollows(s1: State, enc: Encoding, from: int)
    requires Terminal(s1, enc, from).Ok? && In(from, s1.base) && (enc == Standard || s1.base[from] < 0)
    ensures Follow(s1, enc, from, 0).Ok?
    ensures var (s2, to) := Follow(s1, enc, from, 0).value;
      In(to, s2.base) ==>
      Terminal(s1, enc, from).value == (if enc == Reduced && s2.base[to] == VALUE_LIMIT then (s2.(base := s2.base[to := 0]), to) else (s2, to))
  {
  }

  /** Writing `value` into the terminal a node owns by label 0 makes the node read `value`. */
  lemma WriteReadsBack(s2: State, enc: Encoding, from: int, to: int, value: int)
    requires In(to, s2.check) && s2.check[to] == from && to != from && In(from, s2.base) && In(to, s2.base)
    requires BaseOf(enc, s2.base[from]) == to
    ensures var s' := s2.(base := s2.base[to := value]); ValueAt(s', enc, from, 0, 0) == Ok(Found(value))
  {
  }

  /** Where find's loop stopped: after `pos` bytes, at node `at`, and whether a transition failed there. */
  datatype Stop = Stop(pos: int, at: int, absent: bool)

  /**
   * find's loop from byte `pos` of the `span` bytes from `start`, at node
   * `v`: one transition `base(v) ^ byte` per byte, owned by `v` or the walk
   * stops as absent.  The reduced trie also stops at a leaf.
   */
  function Descend(s: State, enc: Encoding, key: seq<Byte>, start: int, span: int, pos: int, v: int): Result<Stop>
    decreases span - pos
  {
    if pos >= span then Ok(Stop(pos, v, false))
    else if !In(v, s.base) then Err(OutOfBounds)
    else if enc == Reduced && s.base[v] >= 0 then Ok(Stop(pos, v, false))
    else if !In(start + pos, key) then Err(OutOfBounds)
    else
      var to := XorLabel(BaseOf(enc, s.base[v]), key[start + pos]);
      if !In(to, s.check) then Err(OutOfBounds)
      else if s.check[to] != v then Ok(Stop(pos, v, true))
      else Descend(s, enc, key, start, span, pos + 1, to)
  }

  /**
   * What find reads at the node `v` its loop stopped at after `pos` bytes:
   * the reduced trie's leaf holds its value and counts only when `pos`
   * equals `target`; otherwise the value is the base of the terminal
   * `base(v) ^ 0` when `v` owns it.
   */
  function ValueAt(s: State, enc: Encoding, v: int, pos: int, target: int): Result<Lookup>
  {
    if !In(v, s.base) then Err(OutOfBounds)
    else if enc == Reduced && s.base[v] >= 0 then Ok(if pos == target then Found(s.base[v]) else Absent)
    else
      var b := BaseOf(enc, s.base[v]);
      if !In(b, s.check) || !In(b, s.base) then Err(OutOfBounds)
      else if s.check[b] != v then Ok(NoValue)
      else Ok(Found(s.base[b]))
  }

  /**
   * find(key, from, start, end), with the reduced leaf's byte count compared
   * with `end` itself when `asWritten` (the reduced trie's code) and with the
   * number of bytes to read otherwise.  Returns the outcome and the cursor:
   * the last node matched.
   */
  function FindBy(s: State, enc: Encoding, key: seq<Byte>, from: int, start: int, end: int, asWritten: bool): Result<(Lookup, int)>
  {
    var end' := if end <= 0 || end <= start then |key| else end;
    var span := end' - start;
    var st :- Descend(s, enc, key, start, span, 0, from);
    if st.absent then Ok((Absent, st.at))
    else
      var r :- ValueAt(s, enc, st.at, st.pos, if asWritten then end' else span);
      Ok((r, st.at))
  }

  /** find(key, from, start, end): the bytes `key[start..end]` from node `from` (`end` not after `start` means the whole key). */
  function Find(s: State, enc: Encoding, key: seq<Byte>, from: int, start: int, end: int): Result<(Lookup, int)>
  {
    FindBy(s, enc, key, from, start, end, false)
  }

  /** The reduced trie's find(key, from, start, end) as its code stands. */
  function FindReducedAsWritten(s: State, key: seq<Byte>, from: int, start: int, end: int): Result<(Lookup, int)>
  {
    FindBy(s, Reduced, key, from, start, end, true)
  }

  /** find(key): the whole key from the root. */
  function LookupKey(s: State, enc: Encoding, key: seq<Byte>): Result<Lookup>
  {
    var (r, _) :- Find(s, enc, key, 0, 0, |key|);
    Ok(r)
  }

  /**
   * Walking `span` bytes is walking `mid` of them and then the rest from
   * where the first walk stopped: what lets a caller resume find from its
   * cursor one byte at a time.
   */
  lemma {:induction false} DescendSplits(s: State, enc: Encoding, key: seq<Byte>, start: int, span: int, mid: int, pos: int, v: int)
    requires pos <= mid <= span
    requires Descend(s, enc, key, start, mid, pos, v).Ok?
    ensures var st := Descend(s, enc, key, start, mid, pos, v).value;
      st.pos <= mid &&
      (st.absent || st.pos < mid ==> Descend(s, enc, key, start, span, pos, v) == Ok(st)) &&
      (!st.absent && st.pos == mid ==>
        var whole := Descend(s, enc, key, start, span, pos, v);
        var rest := Descend(s, enc, key, start + mid, span - mid, 0, st.at);
        whole.Ok? == rest.Ok? && (rest.Ok? ==> whole.value == rest.value.(pos := rest.value.pos + mid)))
    decreases mid - pos
  {
    if pos < mid && In(v, s.base) && !(enc == Reduced && s.base[v] >= 0) {
      var to := XorLabel(BaseOf(enc, s.base[v]), key[start + pos]);
      if s.check[to] == v {
        DescendSplits(s, enc, key, start, span, mid, pos + 1, to);
      }
    } else if pos == mid {
      ShiftDescend(s, enc, key, start, span, mid, 0, v);
    }
  }

  /** Starting `mid` bytes later is the same walk with positions shifted. */
  lemma {:induction false} ShiftDescend(s: State, enc: Encoding, key: seq<Byte>, start: int, span: int, mid: int, i: int, v: int)
    requires 0 <= i
    ensures var a := Descend(s, enc, key, start, span, mid + i, v);
      var b := Descend(s, enc, key, start + mid, span - mid, i, v);
      a.Ok? == b.Ok? && (a.Ok? ==> a.value == b.value.(pos := b.value.pos + mid))
    decreases span - mid - i
  {
    if mid + i < span && In(v, s.base) && !(enc == Reduced && s.base[v] >= 0) && In(start + mid + i, key) {
      var to := XorLabel(BaseOf(enc, s.base[v]), key[start + mid + i]);
      if In(to, s.check) && s.check[to] == v {
        ShiftDescend(s, enc, key, start, span, mid, i + 1, to);
      }
    }
  }

  /**
   * The node the labels `ls` lead to from `v`, one owned transition per
   * label, defined from the last label back: an independent statement of
   * what find's loop computes.
   */
  function Reach(s: State, enc: Encoding, v: int, ls: seq<Byte>): Option<int>
    decreases |ls|
  {
    if ls == [] then Some(v)
    else
      match Reach(s, enc, v, ls[..|ls| - 1])
      case None => None
      case Some(u) =>
        if !In(u, s.base) then None
        else
          var to := XorLabel(BaseOf(enc, s.base[u]), ls[|ls| - 1]);
          if In(to, s.check) && s.check[to] == u then Some(to) else None
  }

  /**
   * In the standard trie find's loop reaches the node the bytes lead to,
   * when there is one, and otherwise stops as absent at the last node the
   * bytes before the failing one lead to.
   */
  lemma {:induction false} DescendReaches(s: State, key: seq<Byte>, start: int, span: int, pos: int, v0: int, v: int, st: Stop)
    requires 0 <= start && 0 <= pos <= span && start + span <= |key|
    requires Reach(s, Standard, v0, key[start..start + pos]) == Some(v)
    requires Descend(s, Standard, key, start, span, pos, v) == Ok(st)
    ensures pos <= st.pos <= span
    ensures Reach(s, Standard, v0, key[start..start + st.pos]) == Some(st.at)
    ensures st.absent <==> st.pos < span
    ensures st.absent ==> Reach(s, Standard, v0, key[start..start + st.pos + 1]) == None
    decreases span - pos
  {
    if pos < span {
      var ls := key[start..start + pos + 1];
      assert ls[..|ls| - 1] == key[start..start + pos] && ls[|ls| - 1] == key[start + pos];
      var to := XorLabel(BaseOf(Standard, s.base[v]), key[start + pos]);
      if s.check[to] == v {
        assert Reach(s, Standard, v0, ls) == Some(to);
        DescendReaches(s, key, start, span, pos + 1, v0, to, st);
      } else {
        assert Reach(s, Standard, v0, ls) == None;
      }
    }
  }

  /**
   * The standard trie's find(key) from the root: ABSENT exactly when the
   * key's bytes lead nowhere; otherwise the cursor is the node they lead to,
   * and the value is found exactly when that node owns its terminal, whose
   * base is the value.
   */
  lemma FindMeans(s: State, key: seq<Byte>)
    requires Find(s, Standard, key, 0, 0, |key|).Ok?
    ensures var (r, c) := Find(s, Standard, key, 0, 0, |key|).value;
      (r == Absent <==> Reach(s, Standard, 0, key) == None) &&
      (r != Absent ==> (Reach(s, Standard, 0, key) == Some(c) && In(c, s.base) && In(s.base[c], s.check) &&
        (r.Found? <==> s.check[s.base[c]] == c) && (r.Found? ==> r.value == s.base[s.base[c]])))
  {
    assert key[0..0] == [];
    assert key[0..|key|] == key;
    var st := Descend(s, Standard, key, 0, |key|, 0, 0).value;
    DescendReaches(s, key, 0, |key|, 0, 0, 0, st);
    if st.absent {
      ReachNoneExtends(s, Standard, 0, key, st.pos + 1);
    }
  }

  /** Labels that lead nowhere lead nowhere when more follow. */
  lemma {:induction false} ReachNoneExtends(s: State, enc: Encoding, v: int, ls: seq<Byte>, n: nat)
    requires n <= |ls| && Reach(s, enc, v, ls[..n]) == None
    ensures Reach(s, enc, v, ls) == None
    decreases |ls| - n
  {
    if n < |ls| {
      var m := ls[..n + 1];
      assert m[..|m| - 1] == ls[..n];
      ReachNoneExtends(s, enc, v, ls, n + 1);
    } else {
      assert ls[..n] == ls;
    }
  }

  /** A walk that stops as absent stops at a byte whose slot the node it reached does not own. */
  lemma {:induction false} DescendAbsent(s: State, enc: Encoding, key: seq<Byte>, start: int, span: int, pos: int, v: int)
    requires Descend(s, enc, key, start, span, pos, v).Ok?
    requires Descend(s, enc, key, start, span, pos, v).value.absent
    ensures var st := Descend(s, enc, key, start, span, pos, v).value;
      pos <= st.pos < span && In(st.at, s.base) && In(start + st.pos, key) &&
      In(XorLabel(BaseOf(enc, s.base[st.at]), key[start + st.pos]), s.check) &&
      s.check[XorLabel(BaseOf(enc, s.base[st.at]), key[start + st.pos])] != st.at
    decreases span - pos
  {
    var to := XorLabel(BaseOf(enc, s.base[v]), key[start + pos]);
    if s.check[to] == v {
      DescendAbsent(s, enc, key, start, span, pos + 1, to);
    }
  }

  /**
   * The reduced trie's code compares the bytes read up to a leaf with `end`
   * rather than with the number of bytes to read, so a leaf reached by a
   * walk that does not start at byte 0 is reported absent although the
   * bytes read lead to its value.
   */
  lemma FindReducedAsWrittenMissesLeaf(s: State, key: seq<Byte>, from: int, start: int, end: int)
    requires 0 < start < end
    requires Find(s, Reduced, key, from, start, end).Ok?
    requires var v := Find(s, Reduced, key, from, start, end).value.1; In(v, s.base) && s.base[v] >= 0
    requires Find(s, Reduced, key, from, start, end).value.0.Found?
    ensures FindReducedAsWritten(s, key, from, start, end).Ok?
    ensures FindReducedAsWritten(s, key, from, start, end).value.0 == Absent
  {
  }

  /**
   * The reduced trie's walk: it reaches the node the bytes read lead to, and
   * stops early only at a leaf (a node whose base holds a value) or at a
   * transition that is not there.
   */
  lemma {:induction false} DescendReachesReduced(s: State, key: seq<Byte>, start: int, span: int, pos: int, v0: int, v: int, st: Stop)
    requires 0 <= start && 0 <= pos <= span && start + span <= |key|
    requires Reach(s, Reduced, v0, key[start..start + pos]) == Some(v)
    requires Descend(s, Reduced, key, start, span, pos, v) == Ok(st)
    ensures pos <= st.pos <= span
    ensures Reach(s, Reduced, v0, key[start..start + st.pos]) == Some(st.at)
    ensures st.absent ==> st.pos < span && Reach(s, Reduced, v0, key[start..start + st.pos + 1]) == None
    ensures !st.absent && st.pos < span ==> In(st.at, s.base) && s.base[st.at] >= 0
    decreases span - pos
  {
    if pos < span && s.base[v] < 0 {
      var ls := key[start..start + pos + 1];
      assert ls[..|ls| - 1] == key[start..start + pos] && ls[|ls| - 1] == key[start + pos];
      var to := XorLabel(BaseOf(Reduced, s.base[v]), key[start + pos]);
      if s.check[to] == v {
        assert Reach(s, Reduced, v0, ls) == Some(to);
        DescendReachesReduced(s, key, start, span, pos + 1, v0, to, st);
      } else {
        assert Reach(s, Reduced, v0, ls) == None;
      }
    }
  }

  /** No label leads on from a reduced leaf: its base is a value, not a base. */
  lemma ReachPastLeaf(s: State, v0: int, ls: seq<Byte>, n: nat, u: int)
    requires n < |ls| && Reach(s, Reduced, v0, ls[..n]) == Some(u)
    requires In(u, s.base) && s.base[u] >= 0
    ensures Reach(s, Reduced, v0, ls) == None
  {
    var m := ls[..n + 1];
    assert m[..|m| - 1] == ls[..n];
    assert XorLabel(BaseOf(Reduced, s.base[u]), m[|m| - 1]) < 0;
    ReachNoneExtends(s, Reduced, v0, ls, n + 1);
  }

  /**
   * The corrected reduced find(key, from, start, end), for any `start`: the
   * value of a leaf is found exactly when the bytes `key[start..end]` lead
   * from `from` to that leaf, and it is the leaf's base.
   */
  lemma FindReducedLeaf(s: State, key: seq<Byte>, from: int, start: int, end: int)
    requires 0 <= start < end <= |key|
    requires Find(s, Reduced, key, from, start, end).Ok?
    ensures var (r, c) := Find(s, Reduced, key, from, start, end).value;
      (r.Found? && In(c, s.base) && s.base[c] >= 0 ==> Reach(s, Reduced, from, key[start..end]) == Some(c) && r.value == s.base[c])
    ensures forall leaf :: Reach(s, Reduced, from, key[start..end]) == Some(leaf) && In(leaf, s.base) && s.base[leaf] >= 0 ==>
      Find(s, Reduced, key, from, start, end) == Ok((Found(s.base[leaf]), leaf))
  {
    var span := end - start;
    var ls := key[start..end];
    assert key[start..start + 0] == [];
    var st := Descend(s, Reduced, key, start, span, 0, from).value;
    DescendReachesReduced(s, key, start, span, 0, from, from, st);
    if st.absent {
      assert ls[..st.pos + 1] == key[start..start + st.pos + 1];
      ReachNoneExtends(s, Reduced, from, ls, st.pos + 1);
    } else if st.pos < span {
      assert ls[..st.pos] == key[start..start + st.pos];
      ReachPastLeaf(s, from, ls, st.pos, st.at);
    } else {
      assert key[start..start + st.pos] == ls;
    }
  }

  /** From byte 0 the two comparisons agree, so find(key) and find(key, from) are not affected. */
  lemma FindReducedFromStart(s: State, key: seq<Byte>, from: int, end: int)
    ensures FindReducedAsWritten(s, key, from, 0, end) == Find(s, Reduced, key, from, 0, end)
  {
  }

  /**
   * The reduced trie's find(key), which has a loop of its own: from the
   * root, stopping at a leaf, whose value counts only when every byte was
   * read.
   */
  function FindKey(s: State, key: seq<Byte>, pos: nat, from: int): Result<Lookup>
    decreases |key| - pos
  {
    if pos < |key| then
      if !In(from, s.base) then Err(OutOfBounds)
      else if s.base[from] >= 0 then FindKeyValue(s, key, pos, from)
      else
        var to := XorLabel(BaseOf(Reduced, s.base[from]), key[pos]);
        if !In(to, s.check) then Err(OutOfBounds)
        else if s.check[to] != from then Ok(Absent)
        else FindKey(s, key, pos + 1, to)
    else FindKeyValue(s, key, pos, from)
  }

  /** find(key)'s reading of the node its loop stopped at. */
  function FindKeyValue(s: State, key: seq<Byte>, pos: int, from: int): Result<Lookup>
  {
    if !In(from, s.base) then Err(OutOfBounds)
    else if s.base[from] >= 0 then Ok(if pos == |key| then Found(s.base[from]) else Absent)
    else
      var b := BaseOf(Reduced, s.base[from]);
      if !In(b, s.check) || !In(b, s.base) then Err(OutOfBounds)
      else if s.check[b] != from then Ok(NoValue)
      else Ok(Found(s.base[b]))
  }

  /** find(key)'s own loop gives what find(key, from, 0, len) gives from the root. */
  lemma FindKeyAgrees(s: State, key: seq<Byte>)
    ensures FindKey(s, key, 0, 0) == LookupKey(s, Reduced, key)
  {
    FindKeySteps(s, key, 0, 0);
  }

  lemma {:induction false} FindKeySteps(s: State, key: seq<Byte>, pos: nat, from: int)
    requires pos <= |key|
    ensures var st := Descend(s, Reduced, key, 0, |key|, pos, from);
      FindKey(s, key, pos, from) ==
        if st.Err? then Err(st.fault)
        else if st.value.absent then Ok(Absent)
        else ValueAt(s, Reduced, st.value.at, st.value.pos, |key|)
    decreases |key| - pos
  {
    if pos < |key| && In(from, s.base) && s.base[from] < 0 {
      var to := XorLabel(BaseOf(Reduced, s.base[from]), key[pos]);
      if In(to, s.check) && s.check[to] == from {
        FindKeySteps(s, key, pos + 1, to);
      }
    }
  }

  /**
   * One round of erase(from)'s loop: slot `e` is given back (push_e_node);
   * when `from`'s chain has another label, `from` first loses `e`'s label
   * (pop_sibling) and the walk is done (`true`).
   */
  function EraseStep(s: State, enc: Encoding, from: int, e: int): Result<(State, bool)>
  {
    if !In(from, s.base) || !In(from, s.child) then Err(OutOfBounds)
    else
      var base := BaseOf(enc, s.base[from]);
      var ix := XorLabel(base, s.child[from]);
      if !In(ix, s.sibling) then Err(OutOfBounds)
      else
        var hasSibling := s.sibling[ix] != 0;
        var s1 :- if hasSibling then Siblings.PopSibling(s, from, base, LabelBetween(base, e)) else Ok(s);
        var s2 :- PushENode(s1, e);
        Ok((s2, hasSibling))
  }

  /**
   * A round of erase(from) gives slot `e` back to its block, cleared of
   * labels, and ends the walk exactly when `from`'s chain of children has
   * more than one label.
   */
  lemma EraseStepFrees(s: State, enc: Encoding, from: int, e: int)
    requires EraseStep(s, enc, from, e).Ok?
    ensures In(from, s.base) && In(from, s.child)
    ensures var ix := XorLabel(BaseOf(enc, s.base[from]), s.child[from]);
      var (s', done) := EraseStep(s, enc, from, e).value;
      && In(ix, s.sibling) && (done <==> s.sibling[ix] != 0)
      && In(BlockOf(e), s.blocks.num) && |s'.blocks.num| == |s.blocks.num|
      && s'.blocks.num[BlockOf(e)] == s.blocks.num[BlockOf(e)] + 1
      && In(e, s'.child) && s'.child[e] == 0 && In(e, s'.sibling) && s'.sibling[e] == 0
  {
    var base := BaseOf(enc, s.base[from]);
    var ix := XorLabel(base, s.child[from]);
    var s1 := if s.sibling[ix] != 0 then Siblings.PopSibling(s, from, base, LabelBetween(base, e)).value else s;
    assert s1.blocks == s.blocks;
    AllocProofs.PushENodeRaisesReject(s1, e);
  }

  /**
   * erase(from)'s loop: rounds of `EraseStep`, climbing to the parent after
   * each round that is not the last.  The fuel bounds the number of levels
   * climbed.
   */
  function EraseUp(s: State, enc: Encoding, from: int, e: int, fuel: nat): Result<State>
    decreases fuel
  {
    if fuel == 0 then Err(Diverges)
    else
      var (s2, done) :- EraseStep(s, enc, from, e);
      if done then Ok(s2)
      else if !In(from, s2.check) then Err(OutOfBounds)
      else EraseUp(s2, enc, s2.check[from], from, fuel - 1)
  }

  /**
   * erase(from), for the node `from` a key leads to: its value slot is the
   * first given back, the terminal `base(from)` in the standard trie, and in
   * the reduced trie the node itself when it is a leaf (the walk then starts
   * at its parent), else its terminal.
   */
  function EraseNode(s: State, enc: Encoding, from: int): Result<State>
  {
    if !In(from, s.base) then Err(OutOfBounds)
    else if enc == Standard then EraseUp(s, enc, from, s.base[from], |s.check|)
    else
      var e := if s.base[from] >= 0 then from else BaseOf(Reduced, s.base[from]);
      if !In(e, s.check) then Err(OutOfBounds)
      else EraseUp(s, enc, s.check[e], e, |s.check|)
  }

  /** Whether erase(key) goes on to erase(from) after find: `asWritten` is the standard trie's check, which lets NO_VALUE through. */
  predicate Erases(enc: Encoding, r: Lookup, asWritten: bool)
  {
    if enc == Reduced then IsValue(r)
    else if asWritten then r != Absent
    else r.Found?
  }

  function EraseBy(s: State, enc: Encoding, key: seq<Byte>, asWritten: bool): Result<(State, Lookup)>
  {
    var (r, from) :- Find(s, enc, key, 0, 0, |key|);
    if Erases(enc, r, asWritten) then
      var s' :- EraseNode(s, enc, from);
      Ok((s', r))
    else Ok((s, r))
  }

  /** erase(key): the key's nodes are given back when it holds a value; returns find's outcome. */
  function Erase(s: State, enc: Encoding, key: seq<Byte>): Result<(State, Lookup)>
  {
    EraseBy(s, enc, key, false)
  }

  /** The standard trie's erase(key) as its code stands. */
  function EraseStandardAsWritten(s: State, key: seq<Byte>): Result<(State, Lookup)>
  {
    EraseBy(s, Standard, key, true)
  }

  /**
   * erase returns what find says about the key and leaves the trie as it is
   * unless the key holds a value; in the reduced trie only a value find
   * would report to `get` counts.
   */
  lemma EraseOnlyValues(s: State, enc: Encoding, key: seq<Byte>)
    requires Erase(s, enc, key).Ok?
    ensures var (s', r) := Erase(s, enc, key).value;
      LookupKey(s, enc, key) == Ok(r) &&
      (!r.Found? ==> s' == s) && (enc == Reduced && !IsValue(r) ==> s' == s) &&
      (Erases(enc, r, false) ==> Ok(s') == EraseNode(s, enc, Find(s, enc, key, 0, 0, |key|).value.1))
  {
  }

  /**
   * The standard trie's code erases a key that is only a prefix of stored
   * keys (find says NO_VALUE): the first slot it gives back is `base(from)`,
   * which `from` does not own — a free slot or another node's.
   */
  lemma EraseStandardAsWrittenFreesForeignSlot(s: State, key: seq<Byte>)
    requires Find(s, Standard, key, 0, 0, |key|).Ok?
    requires Find(s, Standard, key, 0, 0, |key|).value.0 == NoValue
    ensures var from := Find(s, Standard, key, 0, 0, |key|).value.1;
      In(from, s.base) && In(s.base[from], s.check) && s.check[s.base[from]] != from &&
      EraseStandardAsWritten(s, key) ==
        (var s' :- EraseUp(s, Standard, from, s.base[from], |s.check|); Ok((s', NoValue)))
    ensures Erase(s, Standard, key) == Ok((s, NoValue))
  {
  }
}
