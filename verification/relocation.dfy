/**
 * resolve: a node `from_n` wants a child `label_n` whose slot `to_pn` is
 * owned by another node `from_p`.  One of the two nodes moves all its
 * children to a fresh base: the new node's parent when its chain is the
 * shorter one (`consult`), taking the new label along, else the owner.  Each
 * child is taken at its new slot (pop_e_node), keeps its sibling order, base
 * and children (whose `check` is pointed at the new slot), and its old slot
 * is given back, except the disputed slot, which goes to `from_n`.
 */
module Relocation {
  import opened Bits
  import opened Outcomes
  import opened CedarState
  import opened AllocSpec
  import opened Nodes
  import Siblings
  import Placement
  import AllocProofs

  /**
   * One relocation as resolve sets it up: the children to move in order, the
   * new base, the node that moves (`from`) and its old base, which of the two
   * nodes moves (`flag`: the new node's parent), the disputed slot and the
   * label wanted there.
   */
  datatype Move = Move(children: seq<Byte>, base: int, from: int, oldBase: int, flag: bool, toPN: int, labN: Byte)

  /** The slot a chain link of a node with base `base` leads to, for each label of `cs`. */
  function Slots(base: int, cs: seq<Byte>): (r: seq<int>)
    ensures |r| == |cs| && forall i :: 0 <= i < |cs| ==> r[i] == XorLabel(base, cs[i])
  {
    if cs == [] then [] else [XorLabel(base, cs[0])] + Slots(base, cs[1..])
  }

  /**
   * resolve's do-while over a moved child's children: from label `c` along
   * the sibling links under `base`, each slot gets `check = to`.
   */
  function Repoint(check: seq<int>, sib: seq<Byte>, base: int, c: Byte, to: int, fuel: nat): Result<seq<int>>
    decreases fuel
  {
    if fuel == 0 then Err(Diverges)
    else
      var ix := XorLabel(base, c);
      if !In(ix, check) || !In(ix, sib) then Err(OutOfBounds)
      else if sib[ix] == 0 then Ok(check[ix := to])
      else Repoint(check[ix := to], sib, base, sib[ix], to, fuel - 1)
  }

  /**
   * The do-while repoints exactly the chain from `c`: `c` and the labels the
   * sibling links lead to from its slot; every other `check` is kept.
   */
  lemma {:induction false} RepointSets(check: seq<int>, sib: seq<Byte>, base: int, c: Byte, to: int, fuel: nat)
    requires Repoint(check, sib, base, c, to, fuel).Ok?
    ensures fuel > 0 && In(XorLabel(base, c), sib)
    ensures var rest := Siblings.Walk(sib, base, sib[XorLabel(base, c)], fuel - 1);
      rest.Ok? &&
      var slots := Slots(base, [c] + rest.value);
      var check' := Repoint(check, sib, base, c, to, fuel).value;
      |check'| == |check| &&
      forall x :: 0 <= x < |check| ==> check'[x] == (if x in slots then to else check[x])
    decreases fuel
  {
    var ix := XorLabel(base, c);
    var next := sib[ix];
    if next != 0 {
      RepointSets(check[ix := to], sib, base, next, to, fuel - 1);
      var rest := Siblings.Walk(sib, base, sib[XorLabel(base, next)], fuel - 2).value;
      assert Siblings.Walk(sib, base, next, fuel - 1) == Ok([next] + rest);
      assert Slots(base, [c] + ([next] + rest)) == [ix] + Slots(base, [next] + rest);
    }
  }

  /** A moved child that has children of its own takes them along: its child byte, and their `check`. */
  function Adopt(s: State, enc: Encoding, to: int, src: int): Result<State>
  {
    if !In(src, s.child) || !In(to, s.child) || !In(to, s.base) then Err(OutOfBounds)
    else
      var c := s.child[src];
      var s1 := s.(child := s.child[to := c]);
      var check :- Repoint(s1.check, s1.sibling, BaseOf(enc, s1.base[to]), c, to, Siblings.MAX_CHAIN + 1);
      Ok(s1.(check := check))
  }

  /** Whether a moved child has children to take along: a positive base in the standard trie, a negative one in the reduced trie. */
  predicate HasChildren(enc: Encoding, stored: int)
  {
    if enc == Standard then stored > 0 else stored < 0
  }

  /**
   * The first half of step `i` of resolve's loop, once child `children[i]`
   * has its new slot `to`: it is linked to the next label and, unless its
   * old slot is the disputed one of the new node's parent (which holds no
   * node yet), it takes its old slot's base and, when it has children, them.
   */
  function Transplant(s: State, enc: Encoding, m: Move, i: int, to: int): Result<State>
    requires 0 <= i < |m.children|
  {
    var lab := m.children[i];
    var src := XorLabel(m.oldBase, lab);
    if !In(to, s.sibling) then Err(OutOfBounds)
    else
      var s1 := s.(sibling := s.sibling[to := Siblings.Next(m.children, i)]);
      if m.flag && src == m.toPN then Ok(s1)
      else if !In(src, s1.base) || !In(to, s1.base) then Err(OutOfBounds)
      else
        var s2 := s1.(base := s1.base[to := s1.base[src]]);
        if HasChildren(enc, s2.base[to]) && lab != 0 then Adopt(s2, enc, to, src) else Ok(s2)
  }

  /**
   * Step `i` of resolve's loop: child `children[i]` is taken at its new slot
   * (pop_e_node) and transplanted; its old slot is given back, or handed to
   * `from_n` when it is the disputed one.  Returns the state and `from_n`,
   * which moves along when it is itself one of the children moved.
   */
  function MoveChild(s: State, enc: Encoding, m: Move, i: int, fromN: int): Result<(State, int)>
    requires 0 <= i < |m.children|
  {
    var (s1, to) :- PopENode(s, enc, m.base, m.children[i], m.from);
    var s2 :- Transplant(s1, enc, m, i, to);
    GiveBack(s2, enc, m, XorLabel(m.oldBase, m.children[i]), to, fromN)
  }

  /**
   * The second half of a step of resolve's loop: the child's old slot `src`
   * is given back (push_e_node), or handed to `from_n` when it is the
   * disputed one; nothing is done when it is the disputed slot of the new
   * node's parent.  `from_n` becomes `to` when it was the node at `src`.
   */
  function GiveBack(s: State, enc: Encoding, m: Move, src: int, to: int, fromN: int): Result<(State, int)>
  {
    if m.flag && src == m.toPN then Ok((s, fromN))
    else
      var fromN' := if !m.flag && src == fromN then to else fromN;
      if !m.flag && src == m.toPN then
        var s1 :- Siblings.PushSibling(s, fromN', XorLabel(m.toPN, m.labN), m.labN, true);
        if !In(src, s1.child) || !In(src, s1.base) || !In(src, s1.check) then Err(OutOfBounds)
        else Ok((s1.(child := s1.child[src := 0], base := s1.base[src := FreshBase(enc, m.labN)], check := s1.check[src := fromN']), fromN'))
      else
        var s1 :- PushENode(s, src);
        Ok((s1, fromN'))
  }

  /** resolve's loop from child `i` on. */
  function MoveChildren(s: State, enc: Encoding, m: Move, i: nat, fromN: int): Result<State>
    decreases |m.children| - i
  {
    if i >= |m.children| then Ok(s)
    else
      var (s1, fromN') :- MoveChild(s, enc, m, i, fromN);
      MoveChildren(s1, enc, m, i + 1, fromN')
  }

  /** One turn of resolve's loop: the rest of the loop runs on the state the turn leaves. */
  lemma MoveChildrenStep(s: State, enc: Encoding, m: Move, i: nat, fromN: int, s1: State, fromN': int)
    requires i < |m.children| && MoveChild(s, enc, m, i, fromN) == Ok((s1, fromN'))
    ensures MoveChildren(s, enc, m, i, fromN) == MoveChildren(s1, enc, m, i + 1, fromN')
  {
  }

  /** A turn of resolve's loop that fails fails the whole loop. */
  lemma MoveChildrenFails(s: State, enc: Encoding, m: Move, i: nat, fromN: int)
    requires i < |m.children| && MoveChild(s, enc, m, i, fromN).Err?
    ensures MoveChildren(s, enc, m, i, fromN).Err?
  {
  }

  /**
   * resolve(from_n, base_n, label_n)'s choice: `consult` tells which node
   * moves (`flag`: the new node's parent), and set_child lists the children
   * it takes, with `label_n` added when it is the new node's parent.  Gives
   * the flag, the node that moves, its old base and its children.
   */
  function Contest(s: State, enc: Encoding, fromN: int, baseN: int, labN: Byte): Result<(bool, int, int, seq<Byte>)>
  {
    var toPN := XorLabel(baseN, labN);
    if !In(toPN, s.check) then Err(OutOfBounds)
    else
      var fromP := s.check[toPN];
      if !In(fromP, s.base) || !In(fromN, s.child) || !In(fromP, s.child) then Err(OutOfBounds)
      else
        var baseP := BaseOf(enc, s.base[fromP]);
        var flag :- Siblings.Consult(s, baseN, baseP, s.child[fromN], s.child[fromP]);
        var children :-
          if flag then Siblings.SetChild(s.sibling, baseN, s.child[fromN], labN, true, s.ordered)
          else Siblings.SetChild(s.sibling, baseP, s.child[fromP], 255, false, s.ordered);
        Ok((flag, if flag then fromN else fromP, if flag then baseN else baseP, children))
  }

  /**
   * resolve's set-up: the choice, and the new base, chosen by find_place
   * for a single child and by find_places otherwise.
   */
  function Plan(s: State, enc: Encoding, fromN: int, baseN: int, labN: Byte): Result<(State, Move)>
  {
    var (flag, from, oldBase, children) :- Contest(s, enc, fromN, baseN, labN);
    if children == [] then Err(OutOfBounds)
    else
      var (s1, e) :- if |children| == 1 then FindPlace(s) else Placement.FindPlaces(s, children);
      Ok((s1, Move(children, XorLabel(e, children[0]), from, oldBase, flag, XorLabel(baseN, labN), labN)))
  }

  /**
   * resolve(from_n, base_n, label_n): the state after the move and the slot
   * `from_n` may now take for `label_n`: under its new base when it moved,
   * else the disputed slot, which the owner has left.
   */
  function Resolve(s: State, enc: Encoding, fromN: int, baseN: int, labN: Byte): Result<(State, int)>
  {
    var (s1, m) :- Plan(s, enc, fromN, baseN, labN);
    if !In(m.from, s1.child) || !In(m.from, s1.base) then Err(OutOfBounds)
    else
      var s2 := if m.flag && m.children[0] == labN then s1.(child := s1.child[m.from := labN]) else s1;
      var s3 := s2.(base := s2.base[m.from := BaseOf(enc, m.base)]);
      var s4 :- MoveChildren(s3, enc, m, 0, fromN);
      Ok((s4, if m.flag then XorLabel(m.base, labN) else m.toPN))
  }

  /**
   * The node that moves is the new node's parent exactly when its chain of
   * children is shorter than the owner's; it takes its own chain, with
   * `label_n` added when it is the new node's parent.
   */
  lemma ContestChooses(s: State, enc: Encoding, fromN: int, baseN: int, labN: Byte)
    requires Contest(s, enc, fromN, baseN, labN).Ok?
    ensures var (flag, from, oldBase, children) := Contest(s, enc, fromN, baseN, labN).value;
      var toPN := XorLabel(baseN, labN);
      In(toPN, s.check) && In(fromN, s.child) && In(s.check[toPN], s.child) && In(s.check[toPN], s.base) &&
      var fromP := s.check[toPN];
      var baseP := BaseOf(enc, s.base[fromP]);
      (from, oldBase) == (if flag then (fromN, baseN) else (fromP, baseP)) &&
      (flag ==> Siblings.SetChild(s.sibling, baseN, s.child[fromN], labN, true, s.ordered) == Ok(children)) &&
      (!flag ==> Siblings.SetChild(s.sibling, baseP, s.child[fromP], 255, false, s.ordered) == Ok(children)) &&
      (Siblings.ChainAt(s.sibling, baseN, s.child[fromN]).Ok? && Siblings.ChainAt(s.sibling, baseP, s.child[fromP]).Ok? ==>
        (flag <==> |Siblings.ChainAt(s.sibling, baseP, s.child[fromP]).value| > |Siblings.ChainAt(s.sibling, baseN, s.child[fromN]).value|))
  {
    var toPN := XorLabel(baseN, labN);
    var fromP := s.check[toPN];
    var baseP := BaseOf(enc, s.base[fromP]);
    if Siblings.ChainAt(s.sibling, baseN, s.child[fromN]).Ok? && Siblings.ChainAt(s.sibling, baseP, s.child[fromP]).Ok? {
      Siblings.ConsultCompares(s, baseN, baseP, s.child[fromN], s.child[fromP]);
    }
  }

  /**
   * The new base places every child after the first on a slot whose `check`
   * was negative when find_places chose it, and the first child on the slot
   * find_place or find_places handed out.
   */
  lemma PlanPlaces(s: State, enc: Encoding, fromN: int, baseN: int, labN: Byte)
    requires s.Shape() && Plan(s, enc, fromN, baseN, labN).Ok?
    ensures var (s1, m) := Plan(s, enc, fromN, baseN, labN).value;
      var c := Contest(s, enc, fromN, baseN, labN).value;
      (m.flag, m.from, m.oldBase, m.children) == c &&
      m.toPN == XorLabel(baseN, labN) && m.labN == labN && m.children != [] &&
      (|m.children| > 1 ==> Placement.Placed(s1.check, XorLabel(m.base, m.children[0]), m.children))
  {
    var (s1, m) := Plan(s, enc, fromN, baseN, labN).value;
    var (flag, from, oldBase, children) := Contest(s, enc, fromN, baseN, labN).value;
    var (s2, e) := (if |children| == 1 then FindPlace(s) else Placement.FindPlaces(s, children)).value;
    XorLabelCancel(e, children[0]);
    if |children| > 1 {
      Placement.FindPlacesFits(s, children);
    }
  }

  /**
   * After step `i` of resolve's loop the child is at its new slot under the
   * new base, owned by the moving node and linked to the next label; when it
   * takes its old slot's base along and has children, they point at it.
   */
  lemma MoveChildPlaces(s: State, enc: Encoding, m: Move, i: int, fromN: int)
    requires 0 <= i < |m.children| && m.base >= 0
    requires PopENode(s, enc, m.base, m.children[i], m.from).Ok?
    ensures var (s1, to) := PopENode(s, enc, m.base, m.children[i], m.from).value;
      to == XorLabel(m.base, m.children[i]) && In(to, s1.check) && s1.check[to] == m.from
  {
    var (s1, to) := PopENode(s, enc, m.base, m.children[i], m.from).value;
    PopENodeLinks(s, enc, m.base, m.children[i], m.from, s1, to);
  }

  /**
   * A transplanted child is linked to the next label of the moved chain and,
   * unless it fills the disputed slot, carries its old slot's base; when
   * that base says it has children, it takes over the old slot's first
   * child and every slot of that chain is pointed at it.  Nothing else
   * changes.
   */
  lemma TransplantCarries(s: State, enc: Encoding, m: Move, i: int, to: int)
    requires 0 <= i < |m.children| && Transplant(s, enc, m, i, to).Ok?
    ensures var s' := Transplant(s, enc, m, i, to).value;
      var lab := m.children[i];
      var src := XorLabel(m.oldBase, lab);
      In(to, s.sibling) && s'.sibling == s.sibling[to := Siblings.Next(m.children, i)] &&
      s'.size == s.size && s'.blocks == s.blocks && |s'.check| == |s.check| &&
      (m.flag && src == m.toPN ==> s' == s.(sibling := s'.sibling)) &&
      (!(m.flag && src == m.toPN) ==>
        In(src, s.base) && s'.base == s.base[to := s.base[src]] &&
        (!(HasChildren(enc, s.base[src]) && lab != 0) ==> s'.check == s.check && s'.child == s.child) &&
        (HasChildren(enc, s.base[src]) && lab != 0 ==>
          var b := BaseOf(enc, s.base[src]);
          var c := s.child[src];
          s'.child == s.child[to := c] &&
          In(XorLabel(b, c), s.sibling) &&
          Siblings.Walk(s'.sibling, b, s'.sibling[XorLabel(b, c)], Siblings.MAX_CHAIN).Ok? &&
          var slots := Slots(b, [c] + Siblings.Walk(s'.sibling, b, s'.sibling[XorLabel(b, c)], Siblings.MAX_CHAIN).value);
          forall x :: 0 <= x < |s.check| ==> s'.check[x] == (if x in slots then to else s.check[x])))
  {
    var lab := m.children[i];
    var src := XorLabel(m.oldBase, lab);
    var s1 := s.(sibling := s.sibling[to := Siblings.Next(m.children, i)]);
    if !(m.flag && src == m.toPN) {
      var s2 := s1.(base := s1.base[to := s1.base[src]]);
      if HasChildren(enc, s2.base[to]) && lab != 0 {
        var c := s2.child[src];
        var s3 := s2.(child := s2.child[to := c]);
        RepointSets(s3.check, s3.sibling, BaseOf(enc, s3.base[to]), c, to, Siblings.MAX_CHAIN + 1);
      }
    }
  }

  /**
   * A vacated slot is given back to its block's free slots, except the
   * disputed one: the owner's old slot goes to `from_n` (whose `check` it
   * takes, with a fresh base and no children), and the new node's parent's
   * disputed slot is left alone.  `from_n` follows the node when it moved.
   */
  lemma GiveBackFrees(s: State, enc: Encoding, m: Move, src: int, to: int, fromN: int)
    requires GiveBack(s, enc, m, src, to, fromN).Ok?
    ensures var (s', f) := GiveBack(s, enc, m, src, to, fromN).value;
      && f == (if !m.flag && src == fromN then to else fromN)
      && (m.flag && src == m.toPN ==> s' == s)
      && (!m.flag && src == m.toPN ==>
            In(src, s'.check) && s'.check[src] == f && s'.child[src] == 0 && s'.base[src] == FreshBase(enc, m.labN))
      && (src != m.toPN ==>
            In(BlockOf(src), s.blocks.num) && |s'.blocks.num| == |s.blocks.num|
            && s'.blocks.num[BlockOf(src)] == s.blocks.num[BlockOf(src)] + 1)
  {
    if src != m.toPN {
      AllocProofs.PushENodeRaisesReject(s, src);
    }
  }
}
