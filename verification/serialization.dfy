/**
 * The trie's image: a 97-byte header (the `ordered` flag, the three block-list
 * heads, `max_trial`, `capacity`, `size`, each buffer's `pos` and byte size)
 * followed by the four record buffers' bytes, nodes first, then the node
 * links, the blocks and the reject table.  Integers are written in the
 * platform's byte order, taken here as little-endian, in two's complement:
 * `int`s in 4 bytes, `long`s in 8.
 */
module Serialization {
  import opened Bits
  import opened Outcomes
  import CedarBuffer
  import BaseCedar

  /** Header bytes: the flag, four `int`s and ten `long`s. */
  const HEADER_SIZE: int := 1 + 4 * 4 + 8 * 10

  /** `NO_VALUE`: the bit pattern `1 << 31`, read as an unsigned 32-bit value. */
  const NO_VALUE: int := 0x8000_0000
  /** `NO_VALUE_U64`: the all-ones 32-bit pattern. */
  const NO_VALUE_U64: int := 0xFFFF_FFFF

  /** `mask(v)`: `NO_VALUE` widened to the all-ones pattern, every other value kept. */
  function Mask(v: int): (r: int)
    ensures r == NO_VALUE_U64 <==> v == NO_VALUE || v == NO_VALUE_U64
    ensures r != NO_VALUE
  {
    if v == NO_VALUE then NO_VALUE_U64 else v
  }

  lemma MaskIdempotent(v: int)
    ensures Mask(Mask(v)) == Mask(v)
    ensures v != NO_VALUE ==> Mask(v) == v
  {
  }

  // ---------------------------------------------------------------------------
  // Integers as bytes

  /** `256^n`: the number of values `n` bytes hold. */
  function Span(n: nat): (r: nat)
    ensures r >= 1
  {
    if n == 0 then 1 else 256 * Span(n - 1)
  }

  lemma Spans()
    ensures Span(4) == 0x1_0000_0000
    ensures Span(8) == 0x1_0000_0000_0000_0000
  {
    assert Span(2) == 0x1_0000;
    assert Span(4) == 0x1_0000_0000;
    assert Span(6) == 0x1_0000_0000_0000;
  }

  /** The `n` low bytes of `u`, least significant first. */
  function LittleEndian(u: nat, n: nat): (r: seq<Byte>)
    ensures |r| == n
  {
    if n == 0 then [] else [u % 256] + LittleEndian(u / 256, n - 1)
  }

  /** The unsigned value of bytes stored least significant first. */
  function Unsigned(bs: seq<Byte>): nat
  {
    if bs == [] then 0 else bs[0] + 256 * Unsigned(bs[1..])
  }

  lemma {:induction false} UnsignedBound(bs: seq<Byte>)
    ensures Unsigned(bs) < Span(|bs|)
  {
    if bs != [] {
      UnsignedBound(bs[1..]);
    }
  }

  /** Reading back the bytes of a value that fits gives the value. */
  lemma {:induction false} UnsignedInverts(u: nat, n: nat)
    requires u < Span(n)
    ensures Unsigned(LittleEndian(u, n)) == u
  {
    if n > 0 {
      var bs := LittleEndian(u, n);
      assert bs[1..] == LittleEndian(u / 256, n - 1);
      UnsignedInverts(u / 256, n - 1);
    }
  }

  /** The values a Java integer of `n` bytes holds. */
  predicate Fits(v: int, n: nat)
  {
    -(Span(n) as int) <= 2 * v < Span(n)
  }

  /** The two's-complement bit pattern of `v` in `n` bytes. */
  function Twos(v: int, n: nat): (u: nat)
    requires Fits(v, n)
    ensures u < Span(n)
  {
    if v < 0 then v + Span(n) else v
  }

  /** The signed value of a two's-complement pattern stored least significant first. */
  function SignedValue(bs: seq<Byte>): (v: int)
  {
    var u := Unsigned(bs);
    if 2 * u >= Span(|bs|) then u - Span(|bs|) else u
  }

  lemma SignedInverts(v: int, n: nat)
    requires Fits(v, n)
    ensures SignedValue(LittleEndian(Twos(v, n), n)) == v
  {
    UnsignedInverts(Twos(v, n), n);
  }

  lemma SignedFits(bs: seq<Byte>)
    ensures Fits(SignedValue(bs), |bs|)
  {
    UnsignedBound(bs);
  }

  /** `setIntAtOffset`'s bytes. */
  function IntBytes(v: int): (r: seq<Byte>)
    requires Fits(v, 4)
    ensures |r| == 4
  {
    LittleEndian(Twos(v, 4), 4)
  }

  /** `setLongAtOffset`'s bytes. */
  function LongBytes(v: int): (r: seq<Byte>)
    requires Fits(v, 8)
    ensures |r| == 8
  {
    LittleEndian(Twos(v, 8), 8)
  }

  /** `getIntAtOffset(src, off)`; the caller has checked the bounds. */
  function IntAt(src: seq<Byte>, off: nat): (v: int)
    requires off + 4 <= |src|
    ensures Fits(v, 4)
  {
    SignedFits(src[off..off + 4]);
    SignedValue(src[off..off + 4])
  }

  /** `getLongAtOffset(src, off)`; the caller has checked the bounds. */
  function LongAt(src: seq<Byte>, off: nat): (v: int)
    requires off + 8 <= |src|
    ensures Fits(v, 8)
  {
    SignedFits(src[off..off + 8]);
    SignedValue(src[off..off + 8])
  }

  // ---------------------------------------------------------------------------
  // Images

  /** One record buffer as the image holds it: its `pos` and its bytes. */
  datatype Buffer = Buffer(pos: int, bytes: seq<Byte>)

  datatype Image = Image(
    ordered: bool,
    headFull: int, headClosed: int, headOpen: int, maxTrial: int,
    capacity: int, size: int,
    nodes: Buffer, infos: Buffer, blocks: Buffer, rejects: Buffer)
  {
    /** The source's field types: `int` heads and trial count, `long` counts and sizes. */
    predicate Typed()
    {
      Fits(headFull, 4) && Fits(headClosed, 4) && Fits(headOpen, 4) && Fits(maxTrial, 4)
      && Fits(capacity, 8) && Fits(size, 8)
      && Fits(nodes.pos, 8) && Fits(infos.pos, 8) && Fits(blocks.pos, 8) && Fits(rejects.pos, 8)
      && Fits(|nodes.bytes|, 8) && Fits(|infos.bytes|, 8)
      && Fits(|blocks.bytes|, 8) && Fits(|rejects.bytes|, 8)
    }

    /** `imageSize()`: the header's scalars plus each buffer's `totalSize()`. */
    function ImageSize(): int
    {
      4 * 4 + 1 + 8 * 2
      + (CedarBuffer.BUFFER_HEADER + |nodes.bytes|) + (CedarBuffer.BUFFER_HEADER + |infos.bytes|)
      + (CedarBuffer.BUFFER_HEADER + |blocks.bytes|) + (CedarBuffer.BUFFER_HEADER + |rejects.bytes|)
    }
  }

  /** The 97 header bytes of `serialize`, in the order it writes them. */
  function HeaderBytes(img: Image): (r: seq<Byte>)
    requires img.Typed()
  {
    [if img.ordered then 1 else 0]
    + IntBytes(img.headFull) + IntBytes(img.headClosed) + IntBytes(img.headOpen) + IntBytes(img.maxTrial)
    + LongBytes(img.capacity) + LongBytes(img.size)
    + LongBytes(img.nodes.pos) + LongBytes(img.infos.pos)
    + LongBytes(img.blocks.pos) + LongBytes(img.rejects.pos)
    + LongBytes(|img.nodes.bytes|) + LongBytes(|img.infos.bytes|)
    + LongBytes(|img.blocks.bytes|) + LongBytes(|img.rejects.bytes|)
  }

  /** Everything `serialize` writes. */
  function Serialize(img: Image): seq<Byte>
    requires img.Typed()
  {
    HeaderBytes(img) + img.nodes.bytes + img.infos.bytes + img.blocks.bytes + img.rejects.bytes
  }

  /**
   * `deserialize`: the header read back from its fixed offsets, then the four
   * buffers sliced one after the other.  A read or a slice that leaves `src`
   * (a short image, a negative or too large length) throws.
   */
  function Deserialize(src: seq<Byte>): (r: Result<Image>)
    ensures r.Ok? ==> r.value.Typed()
  {
    if |src| < HEADER_SIZE then Err(OutOfBounds)
    else
      var n0, n1, n2, n3 := LongAt(src, 65), LongAt(src, 73), LongAt(src, 81), LongAt(src, 89);
      var o1 := HEADER_SIZE + n0;
      var o2 := o1 + n1;
      var o3 := o2 + n2;
      if n0 < 0 || n1 < 0 || n2 < 0 || n3 < 0 || o3 + n3 > |src| then Err(OutOfBounds)
      else
        Ok(Image(src[0] == 1, IntAt(src, 1), IntAt(src, 5), IntAt(src, 9), IntAt(src, 13),
                 LongAt(src, 17), LongAt(src, 25),
                 Buffer(LongAt(src, 33), src[HEADER_SIZE..o1]), Buffer(LongAt(src, 41), src[o1..o2]),
                 Buffer(LongAt(src, 49), src[o2..o3]), Buffer(LongAt(src, 57), src[o3..o3 + n3])))
  }

  /** The header has its fixed length; the image is `imageSize()` bytes. */
  lemma SerializeSize(img: Image)
    requires img.Typed()
    ensures |HeaderBytes(img)| == HEADER_SIZE
    ensures |Serialize(img)| == img.ImageSize()
    ensures img.ImageSize()
         == HEADER_SIZE + |img.nodes.bytes| + |img.infos.bytes| + |img.blocks.bytes| + |img.rejects.bytes|
  {
  }

  /** Where `serialize` puts each field: the offsets `deserialize` reads. */
  lemma HeaderLayout(img: Image)
    requires img.Typed()
    ensures var h := HeaderBytes(img);
      && |h| == HEADER_SIZE && h[0] == (if img.ordered then 1 else 0)
      && h[1..5] == IntBytes(img.headFull) && h[5..9] == IntBytes(img.headClosed)
      && h[9..13] == IntBytes(img.headOpen) && h[13..17] == IntBytes(img.maxTrial)
      && h[17..25] == LongBytes(img.capacity) && h[25..33] == LongBytes(img.size)
      && h[33..41] == LongBytes(img.nodes.pos) && h[41..49] == LongBytes(img.infos.pos)
      && h[49..57] == LongBytes(img.blocks.pos) && h[57..65] == LongBytes(img.rejects.pos)
      && h[65..73] == LongBytes(|img.nodes.bytes|) && h[73..81] == LongBytes(|img.infos.bytes|)
      && h[81..89] == LongBytes(|img.blocks.bytes|) && h[89..97] == LongBytes(|img.rejects.bytes|)
  {
    HeaderScalarsAt(img);
    HeaderLengthsAt(img);
  }

  /** Where `serialize` puts the first seven header fields. */
  lemma HeaderScalarsAt(img: Image)
    requires img.Typed()
    ensures var h := HeaderBytes(img);
      && |h| == HEADER_SIZE && h[0] == (if img.ordered then 1 else 0)
      && h[1..5] == IntBytes(img.headFull) && h[5..9] == IntBytes(img.headClosed)
      && h[9..13] == IntBytes(img.headOpen) && h[13..17] == IntBytes(img.maxTrial)
      && h[17..25] == LongBytes(img.capacity) && h[25..33] == LongBytes(img.size)
  {
  }

  /** Where `serialize` puts the last eight header fields. */
  lemma HeaderLengthsAt(img: Image)
    requires img.Typed()
    ensures var h := HeaderBytes(img);
      && |h| == HEADER_SIZE
      && h[33..41] == LongBytes(img.nodes.pos) && h[41..49] == LongBytes(img.infos.pos)
      && h[49..57] == LongBytes(img.blocks.pos) && h[57..65] == LongBytes(img.rejects.pos)
      && h[65..73] == LongBytes(|img.nodes.bytes|) && h[73..81] == LongBytes(|img.infos.bytes|)
      && h[81..89] == LongBytes(|img.blocks.bytes|) && h[89..97] == LongBytes(|img.rejects.bytes|)
  {
  }

  /** A field read from a byte string that starts with the header is the field the header holds. */
  lemma ReadBack(src: seq<Byte>, h: seq<Byte>, off: nat, len: nat)
    requires |h| <= |src| && src[..|h|] == h && off + len <= |h|
    ensures src[off..off + len] == h[off..off + len]
  {
    assert forall k | off <= k < off + len :: src[k] == src[..|h|][k];
  }

  /** The `int` fields read back from a header `serialize` wrote. */
  lemma ReadInts(img: Image, src: seq<Byte>)
    requires img.Typed() && HEADER_SIZE <= |src| && src[..HEADER_SIZE] == HeaderBytes(img)
    ensures src[0] == 1 <==> img.ordered
    ensures IntAt(src, 1) == img.headFull && IntAt(src, 5) == img.headClosed
    ensures IntAt(src, 9) == img.headOpen && IntAt(src, 13) == img.maxTrial
  {
    var h := HeaderBytes(img);
    HeaderLayout(img);
    assert src[0] == src[..HEADER_SIZE][0];
    ReadBack(src, h, 1, 4);
    ReadBack(src, h, 5, 4);
    ReadBack(src, h, 9, 4);
    ReadBack(src, h, 13, 4);
    SignedInverts(img.headFull, 4);
    SignedInverts(img.headClosed, 4);
    SignedInverts(img.headOpen, 4);
    SignedInverts(img.maxTrial, 4);
  }

  /** The `long` scalars and `pos` fields read back from a header `serialize` wrote. */
  lemma ReadLongs(img: Image, src: seq<Byte>)
    requires img.Typed() && HEADER_SIZE <= |src| && src[..HEADER_SIZE] == HeaderBytes(img)
    ensures LongAt(src, 17) == img.capacity && LongAt(src, 25) == img.size
    ensures LongAt(src, 33) == img.nodes.pos && LongAt(src, 41) == img.infos.pos
    ensures LongAt(src, 49) == img.blocks.pos && LongAt(src, 57) == img.rejects.pos
  {
    var h := HeaderBytes(img);
    HeaderLayout(img);
    ReadBack(src, h, 17, 8);
    ReadBack(src, h, 25, 8);
    ReadBack(src, h, 33, 8);
    ReadBack(src, h, 41, 8);
    ReadBack(src, h, 49, 8);
    ReadBack(src, h, 57, 8);
    SignedInverts(img.capacity, 8);
    SignedInverts(img.size, 8);
    SignedInverts(img.nodes.pos, 8);
    SignedInverts(img.infos.pos, 8);
    SignedInverts(img.blocks.pos, 8);
    SignedInverts(img.rejects.pos, 8);
  }

  /** The four byte sizes read back from a header `serialize` wrote. */
  lemma ReadLengths(img: Image, src: seq<Byte>)
    requires img.Typed() && HEADER_SIZE <= |src| && src[..HEADER_SIZE] == HeaderBytes(img)
    ensures LongAt(src, 65) == |img.nodes.bytes| && LongAt(src, 73) == |img.infos.bytes|
    ensures LongAt(src, 81) == |img.blocks.bytes| && LongAt(src, 89) == |img.rejects.bytes|
  {
    var h := HeaderBytes(img);
    HeaderLayout(img);
    ReadBack(src, h, 65, 8);
    ReadBack(src, h, 73, 8);
    ReadBack(src, h, 81, 8);
    ReadBack(src, h, 89, 8);
    SignedInverts(|img.nodes.bytes|, 8);
    SignedInverts(|img.infos.bytes|, 8);
    SignedInverts(|img.blocks.bytes|, 8);
    SignedInverts(|img.rejects.bytes|, 8);
  }

  /** The pieces of a concatenation, sliced back at their offsets. */
  lemma Slices(h: seq<Byte>, a: seq<Byte>, b: seq<Byte>, c: seq<Byte>, d: seq<Byte>)
    ensures var s, o1 := h + a + b + c + d, |h| + |a|;
      && s[..|h|] == h && s[|h|..o1] == a && s[o1..o1 + |b|] == b
      && s[o1 + |b|..o1 + |b| + |c|] == c && s[o1 + |b| + |c|..o1 + |b| + |c| + |d|] == d
  {
    var s := h + a + b + c + d;
    assert s == (h + a + b + c) + d;
    assert (h + a + b + c) == (h + a + b) + c;
    assert (h + a + b) == (h + a) + b;
  }

  /** `deserialize(serialize(c))` gives back every field and every buffer. */
  lemma RoundTrip(img: Image)
    requires img.Typed()
    ensures Deserialize(Serialize(img)) == Ok(img)
  {
    var src := Serialize(img);
    SerializeSize(img);
    Slices(HeaderBytes(img), img.nodes.bytes, img.infos.bytes, img.blocks.bytes, img.rejects.bytes);
    ReadInts(img, src);
    ReadLongs(img, src);
    ReadLengths(img, src);
  }

  /** A byte string shorter than the header, or whose lengths run past its end, is refused. */
  lemma DeserializeRefuses(src: seq<Byte>)
    ensures |src| < HEADER_SIZE ==> Deserialize(src).Err?
    ensures |src| >= HEADER_SIZE ==>
      (Deserialize(src).Ok? <==>
         var n0, n1, n2, n3 := LongAt(src, 65), LongAt(src, 73), LongAt(src, 81), LongAt(src, 89);
         0 <= n0 && 0 <= n1 && 0 <= n2 && 0 <= n3 && HEADER_SIZE + n0 + n1 + n2 + n3 <= |src|)
  {
  }

  /** An image read back successfully occupies a prefix of its source, of size `imageSize()`. */
  lemma DeserializeSize(src: seq<Byte>)
    requires Deserialize(src).Ok?
    ensures Deserialize(src).value.ImageSize() <= |src|
  {
  }

  // ---------------------------------------------------------------------------
  // Writing an image

  /** The image of a trie whose record buffers are the four given ones. */
  function ImageOf(t: BaseCedar.Trie, nodes: CedarBuffer.RecordBuffer, infos: CedarBuffer.RecordBuffer,
                   blocks: CedarBuffer.RecordBuffer, rejects: CedarBuffer.RecordBuffer): (img: Image)
    reads t, nodes, infos, blocks, rejects, nodes.buffer, infos.buffer, blocks.buffer, rejects.buffer
    ensures img.ordered == t.ordered && img.capacity == t.capacity && img.size == t.size
    ensures img.nodes == Buffer(nodes.pos, nodes.buffer[..]) && img.rejects == Buffer(rejects.pos, rejects.buffer[..])
  {
    Image(t.ordered, t.headFull, t.headClosed, t.headOpen, t.maxTrial, t.capacity, t.size,
          Buffer(nodes.pos, nodes.buffer[..]), Buffer(infos.pos, infos.buffer[..]),
          Buffer(blocks.pos, blocks.buffer[..]), Buffer(rejects.pos, rejects.buffer[..]))
  }

  /**
   * A `setXAtOffset` or an `asSlice(off, |bs|).copyFrom(bs)` that fits: `bs`
   * lands at `off`, after the `written` bytes, and the rest of `dst` keeps its
   * `orig`inal bytes.
   */
  method Put(dst: array<Byte>, off: nat, bs: seq<Byte>, ghost orig: seq<Byte>, ghost written: seq<Byte>)
    returns (next: nat)
    requires |orig| == dst.Length && |written| == off && off + |bs| <= dst.Length
    requires dst[..] == written + orig[off..]
    modifies dst
    ensures next == off + |bs|
    ensures dst[..] == (written + bs) + orig[next..]
  {
    var k := 0;
    while k < |bs|
      invariant 0 <= k <= |bs|
      invariant dst[..] == written + bs[..k] + orig[off + k..]
    {
      dst[off + k] := bs[k];
      assert dst[..] == written + bs[..k + 1] + orig[off + k + 1..];
      k := k + 1;
    }
    assert bs[..k] == bs;
    next := off + |bs|;
  }

  /** The header fields of `serialize(dst)`, each `setXAtOffset` at its offset. */
  method PutHeader(dst: array<Byte>, img: Image, ghost orig: seq<Byte>) returns (off: nat)
    requires img.Typed() && |orig| == dst.Length && HEADER_SIZE <= dst.Length && dst[..] == orig
    modifies dst
    ensures off == HEADER_SIZE && dst[..] == HeaderBytes(img) + orig[off..]
  {
    off := PutScalars(dst, img, orig);
    ghost var w := [if img.ordered then 1 else 0]
      + IntBytes(img.headFull) + IntBytes(img.headClosed) + IntBytes(img.headOpen) + IntBytes(img.maxTrial)
      + LongBytes(img.capacity) + LongBytes(img.size);
    off := PutLengths(dst, img, orig, w, off);
  }

  /** The first seven header fields: the ordered flag, the `int` heads and trial count, capacity and size. */
  method PutScalars(dst: array<Byte>, img: Image, ghost orig: seq<Byte>) returns (off: nat)
    requires img.Typed() && |orig| == dst.Length && HEADER_SIZE <= dst.Length && dst[..] == orig
    modifies dst
    ensures off == 33
    ensures dst[..] == [if img.ordered then 1 else 0]
      + IntBytes(img.headFull) + IntBytes(img.headClosed) + IntBytes(img.headOpen) + IntBytes(img.maxTrial)
      + LongBytes(img.capacity) + LongBytes(img.size) + orig[off..]
  {
    off := 0;
    var bs: seq<Byte> := [if img.ordered then 1 else 0];
    assert dst[..] == [] + orig[off..];
    off := Put(dst, off, bs, orig, []);
    ghost var w := bs;
    assert [] + bs == w;
    bs := IntBytes(img.headFull);
    off := Put(dst, off, bs, orig, w); w := w + bs;
    bs := IntBytes(img.headClosed);
    off := Put(dst, off, bs, orig, w); w := w + bs;
    bs := IntBytes(img.headOpen);
    off := Put(dst, off, bs, orig, w); w := w + bs;
    bs := IntBytes(img.maxTrial);
    off := Put(dst, off, bs, orig, w); w := w + bs;
    bs := LongBytes(img.capacity);
    off := Put(dst, off, bs, orig, w); w := w + bs;
    bs := LongBytes(img.size);
    off := Put(dst, off, bs, orig, w); w := w + bs;
  }

  /** The last eight header fields: each buffer's `pos`, then each buffer's length, after the `written` bytes. */
  method PutLengths(dst: array<Byte>, img: Image, ghost orig: seq<Byte>, ghost written: seq<Byte>, off0: nat) returns (off: nat)
    requires img.Typed() && |orig| == dst.Length && HEADER_SIZE <= dst.Length
    requires off0 == |written| == 33 && dst[..] == written + orig[off0..]
    modifies dst
    ensures off == HEADER_SIZE
    ensures dst[..] == written
      + LongBytes(img.nodes.pos) + LongBytes(img.infos.pos)
      + LongBytes(img.blocks.pos) + LongBytes(img.rejects.pos)
      + LongBytes(|img.nodes.bytes|) + LongBytes(|img.infos.bytes|)
      + LongBytes(|img.blocks.bytes|) + LongBytes(|img.rejects.bytes|) + orig[off..]
  {
    off := off0;
    ghost var w := written;
    var bs := LongBytes(img.nodes.pos);
    off := Put(dst, off, bs, orig, w); w := w + bs;
    bs := LongBytes(img.infos.pos);
    off := Put(dst, off, bs, orig, w); w := w + bs;
    bs := LongBytes(img.blocks.pos);
    off := Put(dst, off, bs, orig, w); w := w + bs;
    bs := LongBytes(img.rejects.pos);
    off := Put(dst, off, bs, orig, w); w := w + bs;
    bs := LongBytes(|img.nodes.bytes|);
    off := Put(dst, off, bs, orig, w); w := w + bs;
    bs := LongBytes(|img.infos.bytes|);
    off := Put(dst, off, bs, orig, w); w := w + bs;
    bs := LongBytes(|img.blocks.bytes|);
    off := Put(dst, off, bs, orig, w); w := w + bs;
    bs := LongBytes(|img.rejects.bytes|);
    off := Put(dst, off, bs, orig, w); w := w + bs;
  }

  /**
   * `serialize(dst)`: the header fields, then each buffer's bytes copied in,
   * as `Serialize` lays them out.
   */
  method SerializeInto(t: BaseCedar.Trie, nodes: CedarBuffer.RecordBuffer, infos: CedarBuffer.RecordBuffer,
                       blocks: CedarBuffer.RecordBuffer, rejects: CedarBuffer.RecordBuffer, dst: array<Byte>)
    returns (r: Result<()>)
    requires ImageOf(t, nodes, infos, blocks, rejects).Typed()
    modifies dst
    ensures var img := old(ImageOf(t, nodes, infos, blocks, rejects));
      && (r.Ok? <==> img.ImageSize() <= dst.Length)
      && (r.Ok? ==> dst[..] == Serialize(img) + old(dst[img.ImageSize()..]))
  {
    var img := ImageOf(t, nodes, infos, blocks, rejects);
    SerializeSize(img);
    if dst.Length < HEADER_SIZE + |img.nodes.bytes| + |img.infos.bytes| + |img.blocks.bytes| + |img.rejects.bytes| {
      return Err(OutOfBounds);
    }
    ghost var orig := dst[..];
    var off := PutHeader(dst, img, orig);
    ghost var w := HeaderBytes(img);
    off := Put(dst, off, img.nodes.bytes, orig, w); w := w + img.nodes.bytes;
    off := Put(dst, off, img.infos.bytes, orig, w); w := w + img.infos.bytes;
    off := Put(dst, off, img.blocks.bytes, orig, w); w := w + img.blocks.bytes;
    off := Put(dst, off, img.rejects.bytes, orig, w); w := w + img.rejects.bytes;
    r := Ok(());
  }
}
