/**
 * Byte and integer helpers for Java's `byte`/`int` arithmetic as the trie uses
 * it: labels are bytes, node indices are ints, and a child's slot is the
 * parent's base XOR-ed with the label.
 */
module Bits {

  /** A Java `byte` held as its unsigned value, i.e. `u32(b) = b & 0xFF`. */
  type Byte = x: int | 0 <= x < 256

  /** The value Java compares when it compares two `byte`s (`<`, `>`): two's complement. */
  function Signed(b: Byte): (r: int)
    ensures -128 <= r < 128
    ensures r % 256 == b
    ensures b < 128 ==> r == b
  {
    if b < 128 then b else b - 256
  }

  /** Bitwise exclusive or of two naturals, one bit at a time from the least significant. */
  function Xor(a: nat, b: nat): nat
    decreases a + b
  {
    if a == 0 && b == 0 then 0
    else 2 * Xor(a / 2, b / 2) + (if a % 2 == b % 2 then 0 else 1)
  }

  function Pow2(k: nat): (r: nat)
    ensures r >= 1
  {
    if k == 0 then 1 else 2 * Pow2(k - 1)
  }

  lemma Pow2Eight()
    ensures Pow2(8) == 256
  {
    assert Pow2(4) == 16 by { assert Pow2(2) == 4; }
  }

  /** Exclusive or of two k-bit numbers is a k-bit number. */
  lemma {:induction false} XorBound(a: nat, b: nat, k: nat)
    requires a < Pow2(k) && b < Pow2(k)
    ensures Xor(a, b) < Pow2(k)
  {
    if k > 0 && !(a == 0 && b == 0) {
      XorBound(a / 2, b / 2, k - 1);
    }
  }

  lemma {:induction false} XorCancel(a: nat, b: nat)
    ensures Xor(Xor(a, b), b) == a
    decreases a + b
  {
    if a == 0 && b == 0 {
    } else {
      var c := Xor(a, b);
      XorCancel(a / 2, b / 2);
      assert c / 2 == Xor(a / 2, b / 2) && c % 2 == (if a % 2 == b % 2 then 0 else 1);
    }
  }

  lemma {:induction false} XorCommutes(a: nat, b: nat)
    ensures Xor(a, b) == Xor(b, a)
    decreases a + b
  {
    if !(a == 0 && b == 0) {
      XorCommutes(a / 2, b / 2);
    }
  }

  /** Flipping every bit of a k-bit `a` flips every bit of `a ^ b`. */
  lemma {:induction false} XorComplement(a: nat, b: nat, k: nat)
    requires a < Pow2(k) && b < Pow2(k)
    ensures Xor(Pow2(k) - 1 - a, b) == Pow2(k) - 1 - Xor(a, b)
  {
    if k == 0 {
    } else {
      var m := Pow2(k - 1) - 1;
      XorComplement(a / 2, b / 2, k - 1);
      XorBound(a / 2, b / 2, k - 1);
      var na := Pow2(k) - 1 - a;
      assert na / 2 == m - a / 2 && na % 2 == 1 - a % 2;
      if na == 0 && b == 0 {
        assert a == Pow2(k) - 1;
        assert Xor(a, b) == 2 * Xor(a / 2, b / 2) + (if a % 2 == b % 2 then 0 else 1);
      }
    }
  }

  /** `a ^ b` on two unsigned bytes. */
  function ByteXor(a: Byte, b: Byte): Byte
  {
    Pow2Eight();
    XorBound(a, b, 8);
    Xor(a, b)
  }

  lemma ByteXorCancel(a: Byte, b: Byte)
    ensures ByteXor(ByteXor(a, b), b) == a
    ensures ByteXor(a, ByteXor(a, b)) == b
  {
    XorCancel(a, b);
    XorCommutes(a, b);
    XorCancel(b, a);
    XorCommutes(Xor(b, a), a);
  }

  lemma ByteXorComplement(a: Byte, b: Byte)
    ensures ByteXor(255 - a, b) == 255 - ByteXor(a, b)
  {
    Pow2Eight();
    XorComplement(a, b, 8);
  }

  /**
   * Java's `x ^ u32(l)` for any int `x`: exactly the low eight bits of the
   * two's-complement representation are XOR-ed with `l`.  For negative `x`,
   * `x ^ l == ~((~x) ^ l)` and `~x == -1 - x`.  Dafny's `/` and `%` by 256
   * are floor division and the low byte, matching `>> 8` and `& 0xFF`.
   */
  function XorLabel(x: int, l: Byte): (r: int)
    decreases if x >= 0 then 0 else 1
    ensures (r >= 0) == (x >= 0)
    ensures r / 256 == x / 256
    ensures r % 256 == ByteXor(x % 256, l)
  {
    if x >= 0 then
      DivModOf(x / 256, ByteXor(x % 256, l));
      (x / 256) * 256 + ByteXor(x % 256, l)
    else
      var y := XorLabel(-1 - x, l);
      ComplementDivMod(-1 - x);
      ComplementDivMod(y);
      ByteXorComplement(x % 256, l);
      -1 - y
  }

  lemma DivModOf(q: int, t: int)
    requires 0 <= t < 256
    ensures (q * 256 + t) / 256 == q && (q * 256 + t) % 256 == t
  {
  }

  /** Division and remainder of `~y` (that is, `-1 - y`) by 256. */
  lemma ComplementDivMod(y: int)
    ensures (-1 - y) / 256 == -1 - y / 256
    ensures (-1 - y) % 256 == 255 - y % 256
  {
    var q, t := y / 256, y % 256;
    assert y == q * 256 + t;
    assert -1 - y == (-1 - q) * 256 + (255 - t);
    DivModOf(-1 - q, 255 - t);
  }

  /** XOR-ing the same label twice gives the index back. */
  lemma XorLabelCancel(x: int, l: Byte)
    ensures XorLabel(XorLabel(x, l), l) == x
  {
    var r := XorLabel(x, l);
    var s := XorLabel(r, l);
    ByteXorCancel(x % 256, l);
    assert s / 256 == x / 256 && s % 256 == x % 256;
  }

  /** The label 0 leads from a base to the base itself: the terminal's slot. */
  lemma XorLabelZero(x: int)
    ensures XorLabel(x, 0) == x
  {
    if x >= 0 {
      XorZero(x % 256);
    } else {
      XorZero((-1 - x) % 256);
      assert XorLabel(-1 - x, 0) == -1 - x;
    }
  }

  /** Distinct labels give distinct slots under one base. */
  lemma XorLabelInjective(x: int, l: Byte, m: Byte)
    requires XorLabel(x, l) == XorLabel(x, m)
    ensures l == m
  {
    ByteXorCancel(x % 256, l);
    ByteXorCancel(x % 256, m);
  }

  /**
   * Java's `(byte)(b ^ t)` read back as an unsigned byte: the label that leads
   * from base `b` to slot `t`.
   */
  function LabelBetween(b: int, t: int): (r: Byte)
    ensures XorLabel(b, r) % 256 == t % 256
  {
    ByteXorCancel(b % 256, t % 256);
    ByteXor(b % 256, t % 256)
  }

  /** The label between a base and the slot it reaches is the label used. */
  lemma LabelBetweenXor(b: int, l: Byte)
    ensures LabelBetween(b, XorLabel(b, l)) == l
  {
    ByteXorCancel(b % 256, l);
  }

  /**
   * Java's `x ^ i32(b)` where the byte `b` is sign-extended to an int first:
   * for `b >= 128` the extension is `~(255 - b)`, so every bit above the low
   * byte flips as well.  `XorSignExtendedIsJavaXor` derives this from the
   * 32-bit exclusive or.
   */
  function XorSignExtended(x: int, b: Byte): (r: int)
    ensures b < 128 ==> r == XorLabel(x, b)
    ensures b >= 128 ==> r == -1 - XorLabel(x, 255 - b)
  {
    if b < 128 then XorLabel(x, b) else -1 - XorLabel(x, 255 - b)
  }

  /** A Java `int`: a 32-bit two's-complement value. */
  predicate IsInt32(x: int)
  {
    -0x8000_0000 <= x < 0x8000_0000
  }

  lemma Pow2Wide()
    ensures Pow2(8) == 256 && Pow2(31) == 0x8000_0000 && Pow2(32) == 0x1_0000_0000
  {
    assert Pow2(16) == 0x1_0000 by { Pow2Eight(); assert Pow2(12) == 0x1000; }
    assert Pow2(24) == 0x100_0000 by { assert Pow2(20) == 0x10_0000; }
    assert Pow2(31) == 0x8000_0000 by { assert Pow2(28) == 0x1000_0000; }
  }

  /** The 32 bits of an int, read as an unsigned number. */
  function Bits32(x: int): (r: nat)
    requires IsInt32(x)
    ensures r < 0x1_0000_0000
    ensures (r < 0x8000_0000) == (x >= 0)
  {
    if x >= 0 then x else x + 0x1_0000_0000
  }

  /** Java's `x ^ y` on ints: the exclusive or of the two bit patterns, read back as an int. */
  function JavaXor(x: int, y: int): (r: int)
    requires IsInt32(x) && IsInt32(y)
    ensures IsInt32(r)
  {
    Pow2Wide();
    XorBound(Bits32(x), Bits32(y), 32);
    var u := Xor(Bits32(x), Bits32(y));
    if u < 0x8000_0000 then u else u - 0x1_0000_0000
  }

  lemma DivModBy(a: int, d: int, q: int, t: int)
    requires d > 0 && 0 <= t < d && a == q * d + t
    ensures a / d == q && a % d == t
  {
    var q', t' := a / d, a % d;
    assert (q - q') * d == t' - t;
    if q > q' {
      MulAtLeast(q - q', d);
    } else if q < q' {
      MulAtLeast(q' - q, d);
    }
  }

  lemma MulAtLeast(n: int, d: int)
    requires n >= 1 && d > 0
    ensures n * d >= d
  {
  }

  lemma MulTwice(q: int, h: int)
    ensures 2 * (q * h) == q * (2 * h)
  {
  }

  lemma {:induction false} XorZero(a: nat)
    ensures Xor(a, 0) == a
    decreases a
  {
    if a != 0 {
      XorZero(a / 2);
    }
  }

  /** Halving commutes with splitting off the low `2 * h` part of a number. */
  lemma HalfSplit(a: nat, h: nat)
    requires h > 0
    ensures a / (2 * h) == (a / 2) / h
    ensures a % (2 * h) == 2 * ((a / 2) % h) + a % 2
  {
    var q, t := (a / 2) / h, (a / 2) % h;
    assert a / 2 == q * h + t;
    assert a == q * (2 * h) + (2 * t + a % 2);
    DivModBy(a, 2 * h, q, 2 * t + a % 2);
  }

  /** Exclusive or with a k-bit number leaves every bit of `a` above bit k alone. */
  lemma {:induction false} XorLowBits(a: nat, l: nat, k: nat)
    requires l < Pow2(k)
    ensures Xor(a, l) == (a / Pow2(k)) * Pow2(k) + Xor(a % Pow2(k), l)
  {
    if k == 0 {
      XorZero(a);
    } else {
      var h := Pow2(k - 1);
      var p := Pow2(k);
      assert p == 2 * h;
      HalfSplit(a, h);
      var q, lo := a / p, a % p;
      assert q == (a / 2) / h && lo == 2 * ((a / 2) % h) + a % 2;
      assert lo / 2 == (a / 2) % h && lo % 2 == a % 2;
      XorLowBits(a / 2, l / 2, k - 1);
      var y := Xor(lo / 2, l / 2);
      assert Xor(a / 2, l / 2) == q * h + y;
      var bit := if a % 2 == l % 2 then 0 else 1;
      assert Xor(a, l) == 2 * Xor(a / 2, l / 2) + bit;
      assert Xor(lo, l) == 2 * y + bit;
      MulTwice(q, h);
    }
  }

  /** On a non-negative int the label xor is the exclusive or of the two numbers. */
  lemma XorLabelNat(x: nat, l: Byte)
    ensures XorLabel(x, l) == Xor(x, l)
  {
    Pow2Eight();
    XorLowBits(x, l, 8);
  }

  /** `XorLabel` is Java's `x ^ l` on every int `x`, derived from the 32-bit patterns. */
  lemma XorLabelIsJavaXor(x: int, l: Byte)
    requires IsInt32(x)
    ensures JavaXor(x, l) == XorLabel(x, l)
  {
    Pow2Wide();
    if x >= 0 {
      XorLabelNat(x, l);
      XorBound(x, l, 31);
    } else {
      var a := -1 - x;
      XorLabelNat(a, l);
      XorBound(a, l, 31);
      XorComplement(a, l, 32);
      assert Bits32(x) == Pow2(32) - 1 - a;
    }
  }

  /** `XorSignExtended` is Java's `x ^ i32(b)`: the xor with the sign-extended byte. */
  lemma XorSignExtendedIsJavaXor(x: int, b: Byte)
    requires IsInt32(x)
    ensures JavaXor(x, Signed(b)) == XorSignExtended(x, b)
  {
    if b < 128 {
      XorLabelIsJavaXor(x, b);
    } else if x >= 0 {
      XorHighByteNat(x, b);
    } else {
      XorHighByteNeg(x, b);
    }
  }

  /** A byte of 128 or more, sign-extended, xored into a non-negative int. */
  lemma XorHighByteNat(x: int, b: Byte)
    requires IsInt32(x) && x >= 0 && b >= 128
    ensures JavaXor(x, Signed(b)) == XorSignExtended(x, b)
  {
    Pow2Wide();
    var c := 255 - b;
    assert Bits32(Signed(b)) == Pow2(32) - 1 - c;
    XorLabelNat(x, c);
    XorBound(x, c, 31);
    XorCommutes(Pow2(32) - 1 - c, x);
    XorComplement(c, x, 32);
    XorCommutes(c, x);
  }

  /** A byte of 128 or more, sign-extended, xored into a negative int. */
  lemma XorHighByteNeg(x: int, b: Byte)
    requires IsInt32(x) && x < 0 && b >= 128
    ensures JavaXor(x, Signed(b)) == XorSignExtended(x, b)
  {
    Pow2Wide();
    var c := 255 - b;
    assert Bits32(Signed(b)) == Pow2(32) - 1 - c;
    var a := -1 - x;
    assert Bits32(x) == Pow2(32) - 1 - a;
    XorLabelNat(a, c);
    XorBound(a, c, 31);
    XorBound(a, Pow2(32) - 1 - c, 32);
    XorComplement(a, Pow2(32) - 1 - c, 32);
    XorCommutes(a, Pow2(32) - 1 - c);
    XorComplement(c, a, 32);
    XorCommutes(c, a);
  }
}
