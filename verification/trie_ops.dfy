/**
 * The steps the standard trie (`Cedar`) and the reduced trie
 * (`ReducedCedar`) each carry a copy of, written once over a `Trie` and the
 * encoding of its bases: relocation (resolve), follow, update, find
 * and erase.  Each method performs the source's writes and is proved to end
 * in the state the matching function of `Relocation` or `Keys` computes.
 */
module TrieOps {
  import opened Bits
  import opened Outcomes
  import opened CedarState
  import opened BaseCedar
  import Nodes
  import Siblings
  import Relocation
  import Keys

  /** resolve's do-while: every slot of the chain from `c0` under `base` gets `check = to`. */
  method Repoint(t: Trie, base: int, c0: Byte, to: int) returns (r: Result<()>)
    modifies t
    ensures var sp := Relocation.Repoint(old(t.check), old(t.sibling), base, c0, to, Siblings.MAX_CHAIN + 1);
      r.Ok? == sp.Ok? && (r.Ok? ==> t.Snapshot() == old(t.Snapshot()).(check := sp.value))
  {
    var c := c0;
    var fuel: nat := Siblings.MAX_CHAIN + 1;
    ghost var goal := Relocation.Repoint(t.check, t.sibling, base, c0, to, fuel);
    while true
      invariant t.Snapshot() == old(t.Snapshot()).(check := t.check)
      invariant Relocation.Repoint(t.check, t.sibling, base, c, to, fuel) == goal
      decreases fuel
    {
      if fuel == 0 {
        return Err(Diverges);
      }
      var ix := XorLabel(base, c);
      if !In(ix, t.check) || !In(ix, t.sibling) {
        return Err(OutOfBounds);
      }
      t.check := t.check[ix := to];
      c := t.sibling[ix];
      if c == 0 {
        return Ok(());
      }
      fuel := fuel - 1;
    }
  }

  /** A moved child takes its old slot's children along; `Relocation.TransplantCarries` shows what changes. */
  method Adopt(t: Trie, enc: Encoding, to: int, src: int) returns (r: Result<()>)
    modifies t
    ensures var sp := Relocation.Adopt(old(t.Snapshot()), enc, to, src);
      r.Ok? == sp.Ok? && (r.Ok? ==> t.Snapshot() == sp.value)
  {
    if !In(src, t.child) || !In(to, t.child) || !In(to, t.base) {
      return Err(OutOfBounds);
    }
    var c := t.child[src];
    t.child := t.child[to := c];
    r := Repoint(t, BaseOf(enc, t.base[to]), c, to);
  }

  /** The first half of one step of resolve's loop, once child `i` has its new slot `to`. */
  method Transplant(t: Trie, enc: Encoding, m: Relocation.Move, i: int, to: int) returns (r: Result<()>)
    requires 0 <= i < |m.children|
    modifies t
    ensures var sp := Relocation.Transplant(old(t.Snapshot()), enc, m, i, to);
      r.Ok? == sp.Ok? && (r.Ok? ==> t.Snapshot() == sp.value)
  {
    var lab := m.children[i];
    var src := XorLabel(m.oldBase, lab);
    if !In(to, t.sibling) {
      return Err(OutOfBounds);
    }
    t.sibling := t.sibling[to := Siblings.Next(m.children, i)];
    if m.flag && src == m.toPN {
      return Ok(());
    }
    if !In(src, t.base) || !In(to, t.base) {
      return Err(OutOfBounds);
    }
    t.base := t.base[to := t.base[src]];
    if Relocation.HasChildren(enc, t.base[to]) && lab != 0 {
      r := Adopt(t, enc, to, src);
      return;
    }
    return Ok(());
  }

  /** One step of resolve's loop: returns `from_n`, which moves along when it is one of the children moved. */
  method MoveChild(t: Trie, enc: Encoding, m: Relocation.Move, i: int, fromN: int) returns (r: Result<int>)
    requires 0 <= i < |m.children|
    modifies t
    ensures var sp := Relocation.MoveChild(old(t.Snapshot()), enc, m, i, fromN);
      r.Ok? == sp.Ok? && (r.Ok? ==> (t.Snapshot(), r.value) == sp.value)
  {
    var lab := m.children[i];
    var popped := t.PopENode(enc, m.base, lab, m.from);
    if popped.Err? {
      return Err(popped.fault);
    }
    var to := popped.value;
    var moved := Transplant(t, enc, m, i, to);
    if moved.Err? {
      return Err(moved.fault);
    }
    r := GiveBack(t, enc, m, XorLabel(m.oldBase, lab), to, fromN);
  }

  /** The second half of one step of resolve's loop: the child's old slot is given back or handed to `from_n`. */
  method GiveBack(t: Trie, enc: Encoding, m: Relocation.Move, src: int, to: int, fromN: int) returns (r: Result<int>)
    modifies t
    ensures var sp := Relocation.GiveBack(old(t.Snapshot()), enc, m, src, to, fromN);
      r.Ok? == sp.Ok? && (r.Ok? ==> (t.Snapshot(), r.value) == sp.value)
  {
    if m.flag && src == m.toPN {
      return Ok(fromN);
    }
    var fromN' := if !m.flag && src == fromN then to else fromN;
    if !m.flag && src == m.toPN {
      // the disputed slot goes to the new node
      var pushed := t.PushSibling(fromN', XorLabel(m.toPN, m.labN), m.labN, true);
      if pushed.Err? {
        return Err(pushed.fault);
      }
      if !In(src, t.child) || !In(src, t.base) || !In(src, t.check) {
        return Err(OutOfBounds);
      }
      t.child, t.base, t.check := t.child[src := 0], t.base[src := Nodes.FreshBase(enc, m.labN)], t.check[src := fromN'];
      return Ok(fromN');
    }
    var freed := t.PushENode(src);
    if freed.Err? {
      return Err(freed.fault);
    }
    return Ok(fromN');
  }

  /** resolve's loop over the children to move. */
  method MoveChildren(t: Trie, enc: Encoding, m: Relocation.Move, fromN: int) returns (r: Result<()>)
    modifies t
    ensures var sp := Relocation.MoveChildren(old(t.Snapshot()), enc, m, 0, fromN);
      r.Ok? == sp.Ok? && (r.Ok? ==> t.Snapshot() == sp.value)
  {
    var i: nat := 0;
    var from := fromN;
    ghost var goal := Relocation.MoveChildren(t.Snapshot(), enc, m, 0, fromN);
    while i < |m.children|
      invariant Relocation.MoveChildren(t.Snapshot(), enc, m, i, from) == goal
      decreases |m.children| - i
    {
      ghost var s := t.Snapshot();
      var step := MoveChild(t, enc, m, i, from);
      if step.Err? {
        Relocation.MoveChildrenFails(s, enc, m, i, from);
        return Err(step.fault);
      }
      Relocation.MoveChildrenStep(s, enc, m, i, from, t.Snapshot(), step.value);
      i, from := i + 1, step.value;
    }
    return Ok(());
  }

  /** resolve's choice of the node that moves and the children it takes. */
  method Contest(t: Trie, enc: Encoding, fromN: int, baseN: int, labN: Byte) returns (r: Result<(bool, int, int, seq<Byte>)>)
    ensures r == Relocation.Contest(t.Snapshot(), enc, fromN, baseN, labN)
  {
    var toPN := XorLabel(baseN, labN);
    if !In(toPN, t.check) {
      return Err(OutOfBounds);
    }
    var fromP := t.check[toPN];
    if !In(fromP, t.base) || !In(fromN, t.child) || !In(fromP, t.child) {
      return Err(OutOfBounds);
    }
    var baseP := BaseOf(enc, t.base[fromP]);
    var flag := t.Consult(baseN, baseP, t.child[fromN], t.child[fromP]);
    if flag.Err? {
      return Err(flag.fault);
    }
    var children;
    if flag.value {
      children := t.SetChild(baseN, t.child[fromN], labN, true);
    } else {
      children := t.SetChild(baseP, t.child[fromP], 255, false);
    }
    if children.Err? {
      return Err(children.fault);
    }
    if flag.value {
      return Ok((true, fromN, baseN, children.value));
    }
    return Ok((false, fromP, baseP, children.value));
  }

  /** resolve's set-up: the choice, and a new base from find_place or find_places. */
  method Plan(t: Trie, enc: Encoding, fromN: int, baseN: int, labN: Byte) returns (r: Result<Relocation.Move>)
    modifies t
    ensures var sp := Relocation.Plan(old(t.Snapshot()), enc, fromN, baseN, labN);
      r.Ok? == sp.Ok? && (r.Ok? ==> (t.Snapshot(), r.value) == sp.value)
  {
    var chosen := Contest(t, enc, fromN, baseN, labN);
    if chosen.Err? {
      return Err(chosen.fault);
    }
    var (flag, from, oldBase, children) := chosen.value;
    if children == [] {
      return Err(OutOfBounds);
    }
    var placed;
    if |children| == 1 {
      placed := t.FindPlace();
    } else {
      placed := t.FindPlaces(children);
    }
    if placed.Err? {
      return Err(placed.fault);
    }
    return Ok(Relocation.Move(children, XorLabel(placed.value, children[0]), from, oldBase, flag, XorLabel(baseN, labN), labN));
  }

  /**
   * resolve(from_n, base_n, label_n): one of the two nodes contending for
   * slot `base_n ^ label_n` moves its children to a new base; returns the
   * slot `from_n` may now take for `label_n`.
   */
  method Resolve(t: Trie, enc: Encoding, fromN: int, baseN: int, labN: Byte) returns (r: Result<int>)
    modifies t
    ensures var sp := Relocation.Resolve(old(t.Snapshot()), enc, fromN, baseN, labN);
      r.Ok? == sp.Ok? && (r.Ok? ==> (t.Snapshot(), r.value) == sp.value)
  {
    var plan := Plan(t, enc, fromN, baseN, labN);
    if plan.Err? {
      return Err(plan.fault);
    }
    var m := plan.value;
    if !In(m.from, t.child) || !In(m.from, t.base) {
      return Err(OutOfBounds);
    }
    if m.flag && m.children[0] == labN {
      t.child := t.child[m.from := labN];
    }
    t.base := t.base[m.from := BaseOf(enc, m.base)];
    var moved := MoveChildren(t, enc, m, fromN);
    if moved.Err? {
      return Err(moved.fault);
    }
    return Ok(if m.flag then XorLabel(m.base, labN) else m.toPN);
  }

  /** follow's new edge: pop_e_node makes the node, push_sibling adds its label to `from`'s chain. */
  method Attach(t: Trie, enc: Encoding, from: int, base: int, lab: Byte) returns (r: Result<int>)
    modifies t
    ensures var sp := Keys.Attach(old(t.Snapshot()), enc, from, base, lab);
      r.Ok? == sp.Ok? && (r.Ok? ==> (t.Snapshot(), r.value) == sp.value)
  {
    var popped := t.PopENode(enc, base, lab, from);
    if popped.Err? {
      return Err(popped.fault);
    }
    var to := popped.value;
    var pushed := t.PushSibling(from, XorLabel(to, lab), lab, base >= 0);
    if pushed.Err? {
      return Err(pushed.fault);
    }
    return Ok(to);
  }

  /** follow(from, label): the node `from` reaches by `label`, made or made room for when missing. */
  method Follow(t: Trie, enc: Encoding, from: int, lab: Byte) returns (r: Result<int>)
    modifies t
    ensures var sp := Keys.Follow(old(t.Snapshot()), enc, from, lab);
      r.Ok? == sp.Ok? && (r.Ok? ==> (t.Snapshot(), r.value) == sp.value)
  {
    if !In(from, t.base) {
      return Err(OutOfBounds);
    }
    var base := BaseOf(enc, t.base[from]);
    var ix := XorLabel(base, lab);
    if base >= 0 && !In(ix, t.check) {
      return Err(OutOfBounds);
    }
    if base < 0 || t.check[ix] < 0 {
      r := Attach(t, enc, from, base, lab);
    } else if t.check[ix] != from {
      r := Resolve(t, enc, from, base, lab);
    } else {
      r := Ok(ix);
    }
  }

  /** The reduced update's step before each byte: a value in the node's base moves to a new terminal child. */
  method Lift(t: Trie, from: int) returns (r: Result<()>)
    modifies t
    ensures var sp := Keys.Lift(old(t.Snapshot()), from);
      r.Ok? == sp.Ok? && (r.Ok? ==> t.Snapshot() == sp.value)
  {
    if !In(from, t.base) {
      return Err(OutOfBounds);
    }
    var val := t.base[from];
    if val >= 0 && val != VALUE_LIMIT {
      var to := Follow(t, Reduced, from, 0);
      if to.Err? {
        return Err(to.fault);
      }
      if !In(to.value, t.base) {
        return Err(OutOfBounds);
      }
      t.base := t.base[to.value := val];
    }
    return Ok(());
  }

  /** update's loop: one follow per byte of the key, from byte `pos` of it at node `from`. */
  method Insert(t: Trie, enc: Encoding, key: seq<Byte>, pos0: nat, from0: int) returns (r: Result<int>)
    modifies t
    ensures var sp := Keys.Insert(old(t.Snapshot()), enc, key, pos0, from0);
      r.Ok? == sp.Ok? && (r.Ok? ==> (t.Snapshot(), r.value) == sp.value)
  {
    var pos, from := pos0, from0;
    ghost var goal := Keys.Insert(t.Snapshot(), enc, key, pos, from);
    while pos < |key|
      invariant Keys.Insert(t.Snapshot(), enc, key, pos, from) == goal
      decreases |key| - pos
    {
      ghost var s := t.Snapshot();
      if enc == Reduced {
        var lifted := Lift(t, from);
        if lifted.Err? {
          Keys.InsertFails(s, enc, key, pos, from, s);
          return Err(lifted.fault);
        }
      }
      ghost var s1 := t.Snapshot();
      var to := Follow(t, enc, from, key[pos]);
      if to.Err? {
        Keys.InsertFails(s, enc, key, pos, from, s1);
        return Err(to.fault);
      }
      Keys.InsertStep(s, enc, key, pos, from, s1, t.Snapshot(), to.value);
      from, pos := to.value, pos + 1;
    }
    return Ok(from);
  }

  /** The slot that holds the value of the node `from`, made when missing; a reduced placeholder becomes 0. */
  method Terminal(t: Trie, enc: Encoding, from: int) returns (r: Result<int>)
    modifies t
    ensures var sp := Keys.Terminal(old(t.Snapshot()), enc, from);
      r.Ok? == sp.Ok? && (r.Ok? ==> (t.Snapshot(), r.value) == sp.value)
  {
    if enc == Standard {
      r := Follow(t, Standard, from, 0);
      return;
    }
    if !In(from, t.base) {
      return Err(OutOfBounds);
    }
    var to := from;
    if t.base[from] < 0 {
      var followed := Follow(t, Reduced, from, 0);
      if followed.Err? {
        return Err(followed.fault);
      }
      to := followed.value;
    }
    if !In(to, t.base) {
      return Err(OutOfBounds);
    }
    if t.base[to] == VALUE_LIMIT {
      t.base := t.base[to := 0];
    }
    return Ok(to);
  }

  /** update(key, value): returns the value the key's slot held (getAndSetBase); the empty key is refused. */
  method Update(t: Trie, enc: Encoding, key: seq<Byte>, value: int) returns (r: Result<int>)
    modifies t
    ensures var sp := Keys.Update(old(t.Snapshot()), enc, key, value);
      r.Ok? == sp.Ok? && (r.Ok? ==> (t.Snapshot(), r.value) == sp.value)
    ensures key == [] ==> r == Err(EmptyKey) && t.Snapshot() == old(t.Snapshot())
  {
    if key == [] {
      return Err(EmptyKey);
    }
    var from := Insert(t, enc, key, 0, 0);
    if from.Err? {
      return Err(from.fault);
    }
    var to := Terminal(t, enc, from.value);
    if to.Err? {
      return Err(to.fault);
    }
    if !In(to.value, t.base) {
      return Err(OutOfBounds);
    }
    var prev := t.base[to.value];
    t.base := t.base[to.value := value];
    return Ok(prev);
  }

  /**
   * find(key, from, start, end): the loop of transitions from `from`, then
   * the reading of the node it stopped at; returns the outcome and the
   * cursor.
   */
  method Find(t: Trie, enc: Encoding, key: seq<Byte>, from: int, start: int, end: int) returns (r: Result<(Keys.Lookup, int)>)
    ensures r == Keys.Find(t.Snapshot(), enc, key, from, start, end)
  {
    var end' := if end <= 0 || end <= start then |key| else end;
    var span := end' - start;
    var pos, v := 0, from;
    ghost var goal := Keys.Descend(t.Snapshot(), enc, key, start, span, pos, v);
    while pos < span
      invariant Keys.Descend(t.Snapshot(), enc, key, start, span, pos, v) == goal
      decreases span - pos
    {
      if !In(v, t.base) {
        return Err(OutOfBounds);
      }
      if enc == Reduced && t.base[v] >= 0 {
        break;
      }
      if !In(start + pos, key) {
        return Err(OutOfBounds);
      }
      var to := XorLabel(BaseOf(enc, t.base[v]), key[start + pos]);
      if !In(to, t.check) {
        return Err(OutOfBounds);
      }
      if t.check[to] != v {
        return Ok((Keys.Absent, v));
      }
      v, pos := to, pos + 1;
    }
    assert goal == Ok(Keys.Stop(pos, v, false));
    var value := Keys.ValueAt(t.Snapshot(), enc, v, pos, span);
    if value.Err? {
      return Err(value.fault);
    }
    return Ok((value.value, v));
  }

  /** The reduced trie's find(key): its own loop from the root, stopping at a leaf. */
  method FindKey(t: Trie, key: seq<Byte>) returns (r: Result<Keys.Lookup>)
    ensures r == Keys.LookupKey(t.Snapshot(), Reduced, key)
  {
    Keys.FindKeyAgrees(t.Snapshot(), key);
    var pos: nat, from := 0, 0;
    ghost var goal := Keys.FindKey(t.Snapshot(), key, pos, from);
    while pos < |key|
      invariant pos <= |key|
      invariant Keys.FindKey(t.Snapshot(), key, pos, from) == goal
      decreases |key| - pos
    {
      if !In(from, t.base) {
        return Err(OutOfBounds);
      }
      if t.base[from] >= 0 {
        break;
      }
      var to := XorLabel(BaseOf(Reduced, t.base[from]), key[pos]);
      if !In(to, t.check) {
        return Err(OutOfBounds);
      }
      if t.check[to] != from {
        return Ok(Keys.Absent);
      }
      from, pos := to, pos + 1;
    }
    r := Keys.FindKeyValue(t.Snapshot(), key, pos, from);
  }

  /**
   * One round of erase(from)'s do-while: slot `e` is given back, and `from`
   * loses `e`'s label when its chain has another (the last round); otherwise
   * the round returns the parent to climb to, with `rest` levels of fuel
   * left.
   */
  method EraseStep(t: Trie, enc: Encoding, from: int, e: int, rest: nat) returns (r: Result<Option<int>>)
    modifies t
    ensures var sp := Keys.EraseUp(old(t.Snapshot()), enc, from, e, rest + 1);
      (r.Err? ==> sp.Err?) &&
      (r == Ok(None) ==> sp == Ok(t.Snapshot())) &&
      (r.Ok? && r.value.Some? ==> sp == Keys.EraseUp(t.Snapshot(), enc, r.value.value, from, rest))
  {
    if !In(from, t.base) || !In(from, t.child) {
      return Err(OutOfBounds);
    }
    var base := BaseOf(enc, t.base[from]);
    var ix := XorLabel(base, t.child[from]);
    if !In(ix, t.sibling) {
      return Err(OutOfBounds);
    }
    var hasSibling := t.sibling[ix] != 0;
    if hasSibling {
      var popped := t.PopSibling(from, base, LabelBetween(base, e));
      if popped.Err? {
        return Err(popped.fault);
      }
    }
    var freed := t.PushENode(e);
    if freed.Err? {
      return Err(freed.fault);
    }
    if hasSibling {
      return Ok(None);
    }
    if !In(from, t.check) {
      return Err(OutOfBounds);
    }
    return Ok(Some(t.check[from]));
  }

  /** erase(from)'s do-while: give `e` back and climb until a node with another child, which loses `e`'s label. */
  method EraseUp(t: Trie, enc: Encoding, from0: int, e0: int, fuel0: nat) returns (r: Result<()>)
    modifies t
    ensures var sp := Keys.EraseUp(old(t.Snapshot()), enc, from0, e0, fuel0);
      r.Ok? == sp.Ok? && (r.Ok? ==> t.Snapshot() == sp.value)
  {
    var from, e, fuel := from0, e0, fuel0;
    ghost var goal := Keys.EraseUp(t.Snapshot(), enc, from, e, fuel);
    while fuel > 0
      invariant Keys.EraseUp(t.Snapshot(), enc, from, e, fuel) == goal
      decreases fuel
    {
      fuel := fuel - 1;
      var step := EraseStep(t, enc, from, e, fuel);
      if step.Err? {
        return Err(step.fault);
      }
      if step.value.None? {
        return Ok(());
      }
      from, e := step.value.value, from;
    }
    return Err(Diverges);
  }

  /** erase(from): the first slot given back is the node's value slot. */
  method EraseNode(t: Trie, enc: Encoding, from: int) returns (r: Result<()>)
    modifies t
    ensures var sp := Keys.EraseNode(old(t.Snapshot()), enc, from);
      r.Ok? == sp.Ok? && (r.Ok? ==> t.Snapshot() == sp.value)
  {
    if !In(from, t.base) {
      return Err(OutOfBounds);
    }
    if enc == Standard {
      r := EraseUp(t, enc, from, t.base[from], |t.check|);
      return;
    }
    var e := if t.base[from] >= 0 then from else BaseOf(Reduced, t.base[from]);
    if !In(e, t.check) {
      return Err(OutOfBounds);
    }
    r := EraseUp(t, enc, t.check[e], e, |t.check|);
  }

  /** erase(key): find, then erase(from) when the key holds a value; returns find's outcome. */
  method Erase(t: Trie, enc: Encoding, key: seq<Byte>) returns (r: Result<Keys.Lookup>)
    modifies t
    ensures var sp := Keys.Erase(old(t.Snapshot()), enc, key);
      r.Ok? == sp.Ok? && (r.Ok? ==> (t.Snapshot(), r.value) == sp.value)
  {
    var found := Find(t, enc, key, 0, 0, |key|);
    if found.Err? {
      return Err(found.fault);
    }
    var (lookup, from) := found.value;
    if Keys.Erases(enc, lookup, false) {
      var erased := EraseNode(t, enc, from);
      if erased.Err? {
        return Err(erased.fault);
      }
    }
    return Ok(lookup);
  }
}
