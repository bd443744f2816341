/**
 * The queries as the tries run them: begin and next walk the trie with
 * local cursors, suffixBytes fills a byte buffer from the back, and the
 * three iterators (common prefixes, predict and scan) keep their cursors
 * in fields that each `advance` moves on.  Every method is proved to
 * compute the function of `Queries` it is named after.
 */
module Iterators {
  import opened Bits
  import opened Outcomes
  import opened CedarState
  import opened BaseCedar
  import Keys
  import Queries
  import TrieOps

  /** begin's descent: down the first child while it is not the terminal label. */
  method Leftmost(t: Trie, enc: Encoding, from0: int, c0: Byte, p0: int) returns (r: Result<Queries.Scratch>)
    ensures r == Queries.Leftmost(t.Snapshot(), enc, from0, c0, p0, |t.base|)
  {
    var from, c, p := from0, c0, p0;
    var fuel: nat := |t.base|;
    ghost var goal := Queries.Leftmost(t.Snapshot(), enc, from, c, p, fuel);
    while c != 0
      invariant Queries.Leftmost(t.Snapshot(), enc, from, c, p, fuel) == goal
      decreases fuel
    {
      if fuel == 0 {
        return Err(Diverges);
      }
      if !In(from, t.base) {
        return Err(OutOfBounds);
      }
      var to := XorLabel(BaseOf(enc, t.base[from]), c);
      if !In(to, t.child) {
        return Err(OutOfBounds);
      }
      fuel := fuel - 1;
      from, c, p := to, t.child[to], p + 1;
    }
    r := LeafValue(t, enc, from, p);
  }

  /** The value begin reads where its descent stops. */
  method LeafValue(t: Trie, enc: Encoding, from: int, p: int) returns (r: Result<Queries.Scratch>)
    ensures r == Queries.LeafValue(t.Snapshot(), enc, from, p)
  {
    if !In(from, t.base) {
      return Err(OutOfBounds);
    }
    if enc == Reduced && t.base[from] >= 0 {
      return Ok(Queries.Scratch(from, p, Some(t.base[from])));
    }
    var b := BaseOf(enc, t.base[from]);
    if !In(b, t.base) {
      return Err(OutOfBounds);
    }
    return Ok(Queries.Scratch(from, p, Some(t.base[b])));
  }

  /** begin(from, p): the first leaf under `from`; at the root the chain's first label, the root's own, is skipped. */
  method Begin(t: Trie, enc: Encoding, from: int, p: int) returns (r: Result<Queries.Scratch>)
    ensures r == Queries.Begin(t.Snapshot(), enc, from, p)
  {
    if !In(from, t.base) || !In(from, t.child) {
      return Err(OutOfBounds);
    }
    var c := t.child[from];
    if from == 0 {
      var x := XorLabel(BaseOf(enc, t.base[from]), c);
      if !In(x, t.sibling) {
        return Err(OutOfBounds);
      }
      c := t.sibling[x];
      if c == 0 {
        return Ok(Queries.Scratch(from, p, None));
      }
    }
    r := Leftmost(t, enc, from, c, p);
  }

  /** next(from, p, root): up to the first node with a next sibling, then begin below that sibling. */
  method Next(t: Trie, enc: Encoding, from0: int, p0: int, root: int) returns (r: Result<Queries.Scratch>)
    ensures r == Queries.Next(t.Snapshot(), enc, from0, p0, root)
  {
    if !In(from0, t.base) {
      return Err(OutOfBounds);
    }
    var c: Byte := 0;
    if !(enc == Reduced && t.base[from0] >= 0) {
      var b := BaseOf(enc, t.base[from0]);
      if !In(b, t.sibling) {
        return Err(OutOfBounds);
      }
      c := t.sibling[b];
    }
    var from, p := from0, p0;
    var fuel: nat := |t.base|;
    ghost var goal := Queries.Climb(t.Snapshot(), enc, from, p, root, c, fuel);
    while c == 0 && from != root
      invariant Queries.Climb(t.Snapshot(), enc, from, p, root, c, fuel) == goal
      decreases fuel
    {
      if fuel == 0 {
        return Err(Diverges);
      }
      if !In(from, t.sibling) || !In(from, t.check) {
        return Err(OutOfBounds);
      }
      fuel := fuel - 1;
      c, from, p := t.sibling[from], t.check[from], p - 1;
    }
    if c != 0 {
      if !In(from, t.base) {
        return Err(OutOfBounds);
      }
      r := Begin(t, enc, XorLabel(BaseOf(enc, t.base[from]), c), p + 1);
    } else {
      r := Ok(Queries.Scratch(from, p, None));
    }
  }

  /**
   * suffixBytes(to, len, scratch): the `len` labels above `to`, written
   * into `scratch` from the back, or into a new array when `scratch` is
   * missing or too short.
   */
  method SuffixBytes(t: Trie, enc: Encoding, to: int, len: nat, scratch: array?<Byte>) returns (r: Result<array<Byte>>)
    modifies scratch
    ensures var sp := Queries.Suffix(t.Snapshot(), enc, to, len);
      r.Ok? == sp.Ok? &&
      (r.Ok? ==> (len <= r.value.Length && r.value[..len] == sp.value &&
        (scratch != null && len <= scratch.Length ==> r.value == scratch) &&
        (scratch == null || scratch.Length < len ==> fresh(r.value))))
  {
    var a: array<Byte>;
    if scratch == null || scratch.Length < len {
      a := new Byte[len];
    } else {
      a := scratch;
    }
    var filled := FillSuffix(t, enc, to, len, a);
    if filled.Err? {
      return Err(filled.fault);
    }
    return Ok(a);
  }

  /** suffixBytes' loop: from `to` up, each label into `a[len - 1]` down to `a[0]`. */
  method FillSuffix(t: Trie, enc: Encoding, to0: int, len: nat, a: array<Byte>) returns (r: Result<()>)
    requires len <= a.Length
    modifies a
    ensures var sp := Queries.Suffix(t.Snapshot(), enc, to0, len);
      r.Ok? == sp.Ok? && (r.Ok? ==> a[..len] == sp.value)
  {
    var n: nat, to := len, to0;
    while n > 0
      invariant n <= len
      invariant var whole := Queries.Suffix(t.Snapshot(), enc, to0, len);
        var rest := Queries.Suffix(t.Snapshot(), enc, to, n);
        whole.Ok? == rest.Ok? && (rest.Ok? ==> whole.value == rest.value + a[n..len])
      decreases n
    {
      if !In(to, t.check) || !In(t.check[to], t.base) {
        return Err(OutOfBounds);
      }
      var from := t.check[to];
      ghost var written := a[n..len];
      n := n - 1;
      a[n] := LabelBetween(BaseOf(enc, t.base[from]), to);
      assert a[n..len] == [a[n]] + written;
      to := from;
    }
    assert a[0..len] == a[..len];
    return Ok(());
  }

  /**
   * The loop the common-prefix and scan iterators share: one find per
   * byte from the cursor, skipping prefixes with no value, until a value,
   * an absent prefix or the end of the text.
   */
  method Extend(t: Trie, enc: Encoding, text: seq<Byte>, base: int, from0: int, i0: int) returns (r: Result<(int, int, Option<int>)>)
    ensures r == Queries.Extend(t.Snapshot(), enc, text, base, from0, i0)
  {
    var from, i := from0, i0;
    ghost var goal := Queries.Extend(t.Snapshot(), enc, text, base, from, i);
    while i < |text| - base
      invariant Queries.Extend(t.Snapshot(), enc, text, base, from, i) == goal
      decreases |text| - base - i
    {
      var off := base + i;
      var res := TrieOps.Find(t, enc, text, from, off, off + 1);
      if res.Err? {
        return Err(res.fault);
      }
      var (lookup, v) := res.value;
      if lookup == Keys.Absent {
        return Ok((v, i, None));
      }
      if lookup.Found? {
        return Ok((v, i + 1, Some(lookup.value)));
      }
      from, i := v, i + 1;
    }
    return Ok((from, i, None));
  }

  /**
   * scan's advance loop: for each start offset from `base` on, the shared
   * loop from the cursor, until it finds a value; each start offset that
   * yields nothing more resets the cursor to the root.
   */
  method Scan(t: Trie, enc: Encoding, text: seq<Byte>, from0: int, base0: int, i0: int)
    returns (r: Result<(int, int, int, Option<Queries.TextMatch>)>)
    ensures r == Queries.ScanAdvance(t.Snapshot(), enc, text, from0, base0, i0)
  {
    var from, base, i := from0, base0, i0;
    ghost var goal := Queries.ScanAdvance(t.Snapshot(), enc, text, from, base, i);
    while base < |text|
      invariant Queries.ScanAdvance(t.Snapshot(), enc, text, from, base, i) == goal
      decreases |text| - base
    {
      var res := Extend(t, enc, text, base, from, i);
      if res.Err? {
        return Err(res.fault);
      }
      var (v, j, found) := res.value;
      if found.Some? {
        return Ok((v, base, j, Some(Queries.TextMatch(base, base + j, found.value))));
      }
      from, base, i := 0, base + 1, 0;
    }
    return Ok((from, base, i, None));
  }

  /**
   * The common-prefix iterator: each advance resumes the shared loop over
   * `key` from the cursor `from` after `i` bytes, and a value it finds
   * becomes the match, whose length is the index of its last byte.
   */
  class PrefixIter {
    const trie: Trie
    const enc: Encoding
    const key: seq<Byte>
    var from: int
    var i: int
    var curr: Option<Queries.Match>

    constructor (trie: Trie, enc: Encoding, key: seq<Byte>)
      ensures this.trie == trie && this.enc == enc && this.key == key
      ensures from == 0 && i == 0 && curr == None
    {
      this.trie, this.enc, this.key := trie, enc, key;
      from, i, curr := 0, 0, None;
    }

    /** In the standard trie the cursor is the node the first `i` bytes of the key lead to. */
    ghost predicate OnPath()
      reads this, trie
    {
      enc == Standard && 0 <= i <= |key| && Keys.Reach(trie.Snapshot(), Standard, 0, key[0..i]) == Some(from)
    }

    method Advance() returns (r: Result<()>)
      modifies this
      ensures var sp := Queries.Extend(trie.Snapshot(), enc, key, 0, old(from), old(i));
        r.Ok? == sp.Ok? &&
        (r.Ok? ==> ((from, i) == (sp.value.0, sp.value.1) &&
          curr == (if sp.value.2.Some? then Some(Queries.Match(sp.value.2.value, i - 1, from)) else old(curr))))
      ensures old(OnPath()) && r.Ok? ==>
        Queries.Extended(trie.Snapshot(), key, 0, old(i), from, i, Queries.Extend(trie.Snapshot(), enc, key, 0, old(from), old(i)).value.2)
    {
      var res := Extend(trie, enc, key, 0, from, i);
      if res.Err? {
        return Err(res.fault);
      }
      var (v, j, found) := res.value;
      if OnPath() {
        Queries.ExtendReports(trie.Snapshot(), key, 0, from, i, v, j, found);
      }
      from, i := v, j;
      if found.Some? {
        curr := Some(Queries.Match(found.value, j - 1, v));
      }
      return Ok(());
    }
  }

  /**
   * The predict iterator: the first advance finds the prefix and begins
   * under it; each advance hands out the leaf at the cursor and moves on
   * with next.  An absent prefix ends the iteration.
   */
  class PrefixPredictIter {
    const trie: Trie
    const enc: Encoding
    const key: seq<Byte>
    var from: int
    var p: int
    var root: int
    var value: Option<int>
    var curr: Option<Queries.Match>

    constructor (trie: Trie, enc: Encoding, key: seq<Byte>)
      ensures this.trie == trie && this.enc == enc && this.key == key
      ensures Fields() == Queries.PredictStart
    {
      this.trie, this.enc, this.key := trie, enc, key;
      from, p, root, value, curr := 0, 0, 0, Some(0), None;
    }

    /** The fields as one value. */
    function Fields(): Queries.Predict
      reads this
    {
      Queries.Predict(from, p, root, value, curr)
    }

    method Advance() returns (r: Result<()>)
      modifies this
      ensures var sp := Queries.PredictAdvance(trie.Snapshot(), enc, key, old(Fields()));
        r.Ok? == sp.Ok? && (r.Ok? ==> Fields() == sp.value)
    {
      if value.None? {
        return Ok(());
      }
      if from == 0 && p == 0 {
        var c := from;
        if |key| != 0 {
          var res := TrieOps.Find(trie, enc, key, from, 0, |key|);
          if res.Err? {
            return Err(res.fault);
          }
          c := res.value.1;
          if res.value.0 == Keys.Absent {
            from, value := c, None;
            return Ok(());
          }
        }
        root := c;
        var b := Begin(trie, enc, c, p);
        if b.Err? {
          return Err(b.fault);
        }
        from, p, value := b.value.from, b.value.p, b.value.value;
      }
      r := TryAdvance();
    }

    /** tryAdvance: the leaf at the cursor becomes the match and next moves the cursor on. */
    method TryAdvance() returns (r: Result<()>)
      modifies this
      ensures var sp := Queries.TryAdvance(trie.Snapshot(), enc, old(Fields()));
        r.Ok? == sp.Ok? && (r.Ok? ==> Fields() == sp.value)
    {
      if value.None? {
        curr := None;
        return Ok(());
      }
      var result := Queries.Match(value.value, p, from);
      var nx := Next(trie, enc, from, p, root);
      if nx.Err? {
        return Err(nx.fault);
      }
      from, p, value := nx.value.from, nx.value.p, nx.value.value;
      curr := Some(result);
      return Ok(());
    }
  }

  /**
   * The scan iterator: from start offset `base`, the shared loop after
   * `i` bytes; a start offset that yields nothing more moves the start on
   * and resets the cursor to the root.
   */
  class ScanItr {
    const trie: Trie
    const enc: Encoding
    const text: seq<Byte>
    var from: int
    var base: int
    var i: int
    var curr: Option<Queries.TextMatch>

    constructor (trie: Trie, enc: Encoding, text: seq<Byte>, base: int)
      ensures this.trie == trie && this.enc == enc && this.text == text
      ensures from == 0 && this.base == base && i == 0 && curr == None
    {
      this.trie, this.enc, this.text := trie, enc, text;
      from, this.base, i, curr := 0, base, 0, None;
    }

    /** In the standard trie the cursor is the node the `i` bytes from `base` lead to. */
    ghost predicate OnPath()
      reads this, trie
    {
      enc == Standard && 0 <= base && 0 <= i && base + i <= |text| &&
      Keys.Reach(trie.Snapshot(), Standard, 0, text[base..base + i]) == Some(from)
    }

    method Advance() returns (r: Result<()>)
      modifies this
      ensures var sp := Queries.ScanAdvance(trie.Snapshot(), enc, text, old(from), old(base), old(i));
        r.Ok? == sp.Ok? &&
        (r.Ok? ==> ((from, base, i) == (sp.value.0, sp.value.1, sp.value.2) &&
          curr == (if sp.value.3.Some? then sp.value.3 else old(curr))))
      ensures old(OnPath()) && r.Ok? ==>
        Queries.Scanned(trie.Snapshot(), text, old(base), old(i), from, base, i, Queries.ScanAdvance(trie.Snapshot(), enc, text, old(from), old(base), old(i)).value.3)
    {
      ghost var s, b0, i0 := trie.Snapshot(), base, i;
      var res := Scan(trie, enc, text, from, base, i);
      if res.Err? {
        return Err(res.fault);
      }
      var (v, b, j, m) := res.value;
      if OnPath() {
        Queries.ScanReports(s, text, from, base, i, v, b, j, m);
      }
      from, base, i := v, b, j;
      if m.Some? {
        curr := m;
      }
      return Ok(());
    }
  }
}
