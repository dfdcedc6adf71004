/**
 * Machine-level integer conventions shared by the evaluators, the compiler
 * and the virtual machine: C++ `int` division (truncating toward zero),
 * 32-bit bounds, bytes, and the 4-byte little-endian operand format that
 * `append_number` writes and `OP_PUSH` reads back.
 */
module CInt {

  /** One byte of a `std::string` holding bytecode, read as unsigned. */
  type Byte = b: int | 0 <= b < 256

  const INT_MIN: int := -0x8000_0000
  const INT_MAX: int := 0x7FFF_FFFF
  const TWO_32: int := 0x1_0000_0000

  /** The range of a 32-bit C++ `int`. */
  predicate Int32(x: int) {
    INT_MIN <= x <= INT_MAX
  }

  function Abs(x: int): nat {
    if x < 0 then -x else x
  }

  /**
   * C++ `a / b`: the quotient truncated toward zero (Dafny's own `/` is
   * Euclidean and differs for negative operands).
   */
  function CDiv(a: int, b: int): (q: int)
    requires b != 0
    ensures Abs(b * q) <= Abs(a) < Abs(b * q) + Abs(b)
    ensures q == 0 || ((q < 0) <==> ((a < 0) != (b < 0)))
  {
    var m := Abs(a) / Abs(b);
    var q := if (a < 0) == (b < 0) then m else -m;
    TruncationBounds(a, b, q);
    q
  }

  /** C++ `a % b`: the remainder that goes with the truncating quotient. */
  function CMod(a: int, b: int): (r: int)
    requires b != 0
    ensures a == b * CDiv(a, b) + r
    ensures Abs(r) < Abs(b)
    ensures r == 0 || ((r < 0) <==> (a < 0))
  {
    var q := CDiv(a, b);
    SignOfRemainder(a, b, q);
    a - b * q
  }

  lemma TruncationBounds(a: int, b: int, q: int)
    requires b != 0 && Abs(q) == Abs(a) / Abs(b)
    ensures Abs(b * q) <= Abs(a) < Abs(b * q) + Abs(b)
  {
    DivBounds(Abs(a), Abs(b));
    AbsMul(b, q);
  }

  lemma DivBounds(x: nat, y: nat)
    requires y > 0
    ensures y * (x / y) <= x < y * (x / y) + y
  {
  }

  lemma AbsMul(x: int, y: int)
    ensures Abs(x * y) == Abs(x) * Abs(y)
  {
    if x < 0 && y < 0 {
      assert x * y == (-x) * (-y);
    } else if x < 0 {
      assert x * y == -((-x) * y);
    } else if y < 0 {
      assert x * y == -(x * (-y));
    }
  }

  /** The product b * q has the sign of a (or is zero), so a - b * q keeps the sign of a. */
  lemma SignOfRemainder(a: int, b: int, q: int)
    requires b != 0
    requires Abs(b * q) <= Abs(a) < Abs(b * q) + Abs(b)
    requires q == 0 || ((q < 0) <==> ((a < 0) != (b < 0)))
    ensures Abs(a - b * q) < Abs(b)
    ensures a - b * q == 0 || ((a - b * q < 0) <==> (a < 0))
  {
    if q != 0 {
      assert (b * q < 0) <==> (a < 0) by {
        if b < 0 && q < 0 { assert b * q == (-b) * (-q); }
        else if b < 0 { assert b * q == -((-b) * q); }
        else if q < 0 { assert b * q == -(b * (-q)); }
      }
    }
  }

  /** The two's-complement bit pattern of a 32-bit value, as an unsigned number. */
  function Unsigned32(v: int): (u: nat)
    requires Int32(v)
    ensures u < TWO_32
    ensures u == if v < 0 then v + TWO_32 else v
  {
    if v < 0 then v + TWO_32 else v
  }

  /**
   * The four bytes `append_number` stores for `num`: the bytes of the
   * machine word least significant first (little-endian).
   */
  function EncodeInt32(v: int): (bs: seq<Byte>)
    requires Int32(v)
    ensures |bs| == 4
  {
    var u0 := Unsigned32(v);
    var u1 := u0 / 256;
    var u2 := u1 / 256;
    var u3 := u2 / 256;
    [u0 % 256, u1 % 256, u2 % 256, u3]
  }

  /** Four bytes read least significant first, as an unsigned machine word. */
  function Word(bs: seq<Byte>): (u: nat)
    requires |bs| == 4
    ensures u < TWO_32
  {
    var b0, b1, b2, b3 := bs[0] as int, bs[1] as int, bs[2] as int, bs[3] as int;
    b0 + 256 * (b1 + 256 * (b2 + 256 * b3))
  }

  /** The `int` that `OP_PUSH` reads from four operand bytes. */
  function DecodeInt32(bs: seq<Byte>): (v: int)
    requires |bs| == 4
    ensures Int32(v)
  {
    var u := Word(bs);
    if u <= INT_MAX then u else u - TWO_32
  }

  /** Splitting off the low byte of a number and putting it back. */
  lemma LowByte(b: int, k: int)
    requires 0 <= b < 256 && 0 <= k
    ensures (b + 256 * k) % 256 == b && (b + 256 * k) / 256 == k
  {
  }

  /** Decoding what was encoded gives back the original `int`. */
  lemma DecodeEncode(v: int)
    requires Int32(v)
    ensures DecodeInt32(EncodeInt32(v)) == v
  {
    var u0 := Unsigned32(v);
    var u1 := u0 / 256;
    var u2 := u1 / 256;
    var u3 := u2 / 256;
    assert u2 == u2 % 256 + 256 * u3;
    assert u1 == u1 % 256 + 256 * u2;
    assert u0 == u0 % 256 + 256 * u1;
    assert Word(EncodeInt32(v)) == u0;
  }

  /** Every four-byte operand is the encoding of exactly one `int`. */
  lemma EncodeDecode(bs: seq<Byte>)
    requires |bs| == 4
    ensures EncodeInt32(DecodeInt32(bs)) == bs
  {
    var b0, b1, b2, b3 := bs[0] as int, bs[1] as int, bs[2] as int, bs[3] as int;
    var u0 := Word(bs);
    assert Unsigned32(DecodeInt32(bs)) == u0;
    LowByte(b0, b1 + 256 * (b2 + 256 * b3));
    LowByte(b1, b2 + 256 * b3);
    LowByte(b2, b3);
    assert EncodeInt32(DecodeInt32(bs)) == [b0, b1, b2, b3];
  }
}
