/**
 * The growable record buffer under every table of the trie: a block of bytes
 * that holds fixed-size records of `unit` bytes, and a `pos` that counts the
 * records already initialised.  Each concrete buffer (nodes, node links, blocks,
 * rejects) initialises a fresh record its own way; here that record is `blank`.
 */
module CedarBuffer {
  import opened Bits
  import opened Outcomes

  /** Extra range checking in `SafeOffset`; switched off in the source. */
  const BOUNDS_CHECK: bool := false

  /** The 16 bytes an image spends on a buffer besides its contents: `pos` and the byte size. */
  const BUFFER_HEADER: int := 8 * 2

  /** Record `ix * unit` of a record boundary: the record index and offset inside it. */
  lemma RecordAt(ix: int, j: int, unit: int)
    requires 0 <= j < unit
    ensures (ix * unit + j) / unit == ix
    ensures (ix * unit + j) % unit == j
  {
    var x := ix * unit + j;
    var q, r := x / unit, x % unit;
    assert x == q * unit + r && 0 <= r < unit;
    assert (q - ix) * unit == j - r;
    if q > ix {
      MulAtLeast(q - ix, unit);
    } else if q < ix {
      MulAtLeast(ix - q, unit);
    }
  }

  lemma MulAtLeast(a: int, u: int)
    requires a >= 1 && u > 0
    ensures a * u >= u
  {
    assert a * u == (a - 1) * u + u;
    MulNonNeg(a - 1, u);
  }

  lemma MulNonNeg(a: int, u: int)
    requires a >= 0 && u >= 0
    ensures a * u >= 0
  {
  }

  /** Contents of a buffer after `resize(newSize, unit)` of `bytes` whose first `oldPos` records were set up. */
  function Resized(bytes: seq<Byte>, oldPos: int, newSize: nat, blank: seq<Byte>): (r: seq<Byte>)
    requires |blank| > 0
    ensures |r| == newSize * |blank|
  {
    var unit := |blank|;
    seq(newSize * unit, k requires 0 <= k < newSize * unit =>
      if k >= oldPos * unit then blank[k % unit]
      else if k < |bytes| then bytes[k]
      else 0)
  }

  /** Contents of a buffer after `grow(more, unit)`: the old bytes, then zeroed ones. */
  function Grown(bytes: seq<Byte>, extra: nat): (r: seq<Byte>)
  {
    bytes + seq(extra, _ => 0)
  }

  /** Bytes below both the old `pos` and the new length survive a resize unchanged. */
  lemma ResizeKeepsPrefix(bytes: seq<Byte>, oldPos: int, newSize: nat, blank: seq<Byte>, k: int)
    requires |blank| > 0
    requires 0 <= k < |bytes| && k < newSize * |blank| && k < oldPos * |blank|
    ensures Resized(bytes, oldPos, newSize, blank)[k] == bytes[k]
  {
  }

  /** Every record from the old `pos` up to `newSize` is freshly initialised. */
  lemma {:induction false} ResizeInitialisesRecords(bytes: seq<Byte>, oldPos: int, newSize: nat, blank: seq<Byte>, ix: int, j: int)
    requires |blank| > 0
    requires 0 <= oldPos <= ix < newSize && 0 <= j < |blank|
    ensures 0 <= ix * |blank| + j < newSize * |blank|
    ensures Resized(bytes, oldPos, newSize, blank)[ix * |blank| + j] == blank[j]
  {
    var unit := |blank|;
    RecordAt(ix, j, unit);
    MulNonNeg(ix, unit);
    MulNonNeg(newSize - 1 - ix, unit);
    assert (newSize - 1 - ix) * unit == newSize * unit - ix * unit - unit;
    MulNonNeg(ix - oldPos, unit);
    assert (ix - oldPos) * unit == ix * unit - oldPos * unit;
  }

  /** Resizing to no more than the records already set up only truncates or zero-extends. */
  lemma ResizeBelowPos(bytes: seq<Byte>, oldPos: int, newSize: nat, blank: seq<Byte>)
    requires |blank| > 0 && newSize <= oldPos
    ensures Resized(bytes, oldPos, newSize, blank) == (bytes + seq(newSize * |blank|, _ => 0))[..newSize * |blank|]
  {
    var unit := |blank|;
    MulNonNeg(oldPos - newSize, unit);
    assert (oldPos - newSize) * unit == oldPos * unit - newSize * unit;
  }

  /** The bytes of a buffer being resized: blank records in `[lo, hi)`, the old bytes below, zeros past them. */
  ghost predicate Filled(a: seq<Byte>, bytes: seq<Byte>, lo: int, hi: int, blank: seq<Byte>)
    requires |blank| > 0
  {
    forall k :: 0 <= k < |a| ==> a[k] == (if lo <= k < hi then blank[k % |blank|] else if k < |bytes| then bytes[k] else 0)
  }

  /** Record `ix` of a buffer of `newSize` records lies inside it. */
  lemma RecordFits(ix: int, newSize: int, unit: int)
    requires 0 <= ix < newSize && unit > 0
    ensures 0 <= ix * unit && ix * unit + unit <= newSize * unit
  {
    MulNonNeg(ix, unit);
    MulNonNeg(newSize - ix - 1, unit);
    assert (newSize - ix - 1) * unit == newSize * unit - ix * unit - unit;
  }

  /** Writing the blank record over record `ix` extends the blank range by one record. */
  lemma FillRecord(a: seq<Byte>, a': seq<Byte>, bytes: seq<Byte>, lo: int, ix: int, blank: seq<Byte>)
    requires |blank| > 0 && 0 <= ix && |a'| == |a| && lo <= ix * |blank| && ix * |blank| + |blank| <= |a|
    requires Filled(a, bytes, lo, ix * |blank|, blank)
    requires forall j :: 0 <= j < |blank| ==> a'[ix * |blank| + j] == blank[j]
    requires forall k :: 0 <= k < |a| && !(ix * |blank| <= k < ix * |blank| + |blank|) ==> a'[k] == a[k]
    ensures Filled(a', bytes, lo, ix * |blank| + |blank|, blank)
  {
    var unit := |blank|;
    forall k | 0 <= k < |a'|
      ensures a'[k] == (if lo <= k < ix * unit + unit then blank[k % unit] else if k < |bytes| then bytes[k] else 0)
    {
      if ix * unit <= k < ix * unit + unit {
        RecordAt(ix, k - ix * unit, unit);
        assert a'[ix * unit + (k - ix * unit)] == blank[k - ix * unit];
      }
    }
  }

  /** Once the blank records reach `newSize` (or start past it), the buffer is `Resized`. */
  lemma FilledResized(a: seq<Byte>, bytes: seq<Byte>, oldPos: int, ix: int, newSize: nat, blank: seq<Byte>)
    requires |blank| > 0 && 0 <= oldPos <= ix && (ix == newSize || ix == oldPos > newSize)
    requires |a| == newSize * |blank| && Filled(a, bytes, oldPos * |blank|, ix * |blank|, blank)
    ensures a == Resized(bytes, oldPos, newSize, blank)
  {
    var unit := |blank|;
    MulNonNeg(ix - newSize, unit);
    assert (ix - newSize) * unit == ix * unit - newSize * unit;
  }

  /** resize's copy: as much of `curr` as fits goes to the start of the zeroed `next`. */
  method CopyPrefix(next: array<Byte>, curr: array<Byte>, blank: seq<Byte>)
    requires |blank| > 0 && next != curr && forall k :: 0 <= k < next.Length ==> next[k] == 0
    modifies next
    ensures Filled(next[..], curr[..], 0, 0, blank)
  {
    var n := if curr.Length > next.Length then next.Length else curr.Length;
    forall k | 0 <= k < n {
      next[k] := curr[k];
    }
  }

  /** resize's loop: every record from `oldPos` up to `newSize` is set to the blank record. */
  method FillRecords(next: array<Byte>, bytes: seq<Byte>, oldPos: nat, newSize: nat, blank: seq<Byte>)
    requires |blank| > 0 && next.Length == newSize * |blank| && Filled(next[..], bytes, 0, 0, blank)
    modifies next
    ensures next[..] == Resized(bytes, oldPos, newSize, blank)
  {
    var unit := |blank|;
    var ix := oldPos;
    var off := ix * unit;
    MulNonNeg(ix, unit);
    assert Filled(next[..], bytes, oldPos * unit, off, blank);
    while ix < newSize
      invariant oldPos <= ix && (ix <= newSize || ix == oldPos)
      invariant off == ix * unit
      invariant Filled(next[..], bytes, oldPos * unit, off, blank)
    {
      ghost var before := next[..];
      RecordFits(ix, newSize, unit);
      forall j | 0 <= j < unit {
        next[off + j] := blank[j];
      }
      FillRecord(before, next[..], bytes, oldPos * unit, ix, blank);
      off := off + unit;
      ix := ix + 1;
    }
    FilledResized(next[..], bytes, oldPos, ix, newSize, blank);
  }

  class RecordBuffer {
    var buffer: array<Byte>
    var pos: int
    /** The record this buffer's `set(buffer, offset)` writes; its length is the unit. */
    const blank: seq<Byte>

    ghost predicate Valid()
      reads this
    {
      0 <= pos && |blank| > 0
    }

    constructor (cap: nat, blank: seq<Byte>)
      requires |blank| > 0
      ensures Valid() && fresh(buffer) && this.blank == blank
      ensures buffer[..] == seq(cap * |blank|, _ => 0) && pos == 0
    {
      this.blank := blank;
      buffer := new Byte[cap * |blank|](_ => 0);
      pos := 0;
    }

    function ByteSize(): int
      reads this
    {
      buffer.Length
    }

    /** `cap(unit)`: the number of whole records the buffer holds. */
    function Cap(unit: int): (c: int)
      requires unit > 0
      reads this
      ensures c >= 0
      ensures c * unit <= ByteSize() < (c + 1) * unit
    {
      ByteSize() / unit
    }

    /** `totalSize()`: what this buffer adds to a serialized image. */
    function TotalSize(): int
      reads this
    {
      BUFFER_HEADER + ByteSize()
    }

    /**
     * `safeOffset(ix, unit)`: the byte offset of record `ix`.  `checked` is the
     * source's `BOUNDS_CHECK` switch; with it off every index gets its offset.
     */
    function SafeOffset(ix: int, unit: int, checked: bool): (r: Result<int>)
      reads this
      ensures r.Ok? ==> r.value == ix * unit
      ensures r.Err? <==> checked && (ix < 0 || ix >= pos || ix * unit + unit > ByteSize())
    {
      var off := ix * unit;
      if checked && (ix < 0 || ix >= pos || off + unit > ByteSize()) then Err(OutOfBounds) else Ok(off)
    }

    /** With checking on, an offset handed out addresses a whole record `ix` below the position, inside the buffer. */
    lemma SafeOffsetInside(ix: int, unit: int)
      requires unit > 0 && SafeOffset(ix, unit, true).Ok?
      ensures var off := SafeOffset(ix, unit, true).value;
        0 <= ix < pos && 0 <= off && off + unit <= ByteSize() && off / unit == ix && off % unit == 0
    {
      RecordAt(ix, 0, unit);
    }

    /** `jump(unit)`: mark every whole record as set up. */
    method Jump(unit: int)
      requires Valid() && unit > 0
      modifies this
      ensures Valid() && buffer == old(buffer) && pos == old(Cap(unit))
    {
      pos := Cap(unit);
    }

    /** `grow(more, unit)`: a larger buffer holding the old bytes first; `pos` is kept. */
    method Grow(more: nat, unit: nat)
      requires Valid()
      modifies this
      ensures Valid() && fresh(buffer) && pos == old(pos)
      ensures buffer[..] == Grown(old(buffer[..]), more * unit)
    {
      var newLen := more * unit + buffer.Length;
      var next := new Byte[newLen](_ => 0);
      var curr := buffer;
      forall k | 0 <= k < curr.Length {
        next[k] := curr[k];
      }
      buffer := next;
    }

    /**
     * `resize(newSize, unit)`: a buffer of exactly `newSize` records, holding as
     * much of the old bytes as fits, with every record from the old `pos` up to
     * `newSize` set up afresh; `pos` becomes `newSize`.
     */
    method Resize(newSize: nat)
      requires Valid()
      modifies this
      ensures Valid() && fresh(buffer) && pos == newSize
      ensures buffer[..] == Resized(old(buffer[..]), old(pos), newSize, blank)
    {
      var next := new Byte[newSize * |blank|](_ => 0);
      CopyPrefix(next, buffer, blank);
      FillRecords(next, buffer[..], pos, newSize, blank);
      pos := newSize;
      buffer := next;
    }
  }
}
