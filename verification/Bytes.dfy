/** Bytes, options and the fixed-width unsigned integers of the C sources. */
module Bytes {

  type byte = x: int | 0 <= x < 256

  type u16 = x: int | 0 <= x < 0x1_0000

  type u32 = x: int | 0 <= x < 0x1_0000_0000

  datatype Option<+T> = None | Some(value: T)

  function Min(a: int, b: int): int { if a < b then a else b }

  function Max(a: int, b: int): int { if a > b then a else b }

  /** The 16-bit little-endian number at `i` (LZ4_readLE16). */
  function ReadLE16(s: seq<byte>, i: nat): (n: u16)
    requires i + 2 <= |s|
  {
    (s[i] as int) + 256 * (s[i + 1] as int)
  }

  /** The two bytes LZ4_writeLE16 stores. */
  function LE16(n: u16): (s: seq<byte>)
  {
    [n % 256, n / 256]
  }

  // ---------- Bits ----------

  /** The binary digits of a byte, lowest first. */
  datatype Octet = Octet(b0: bool, b1: bool, b2: bool, b3: bool, b4: bool, b5: bool, b6: bool, b7: bool)

  function Digits(x: byte): Octet
  {
    var x1 := x - (if x >= 128 then 128 else 0);
    var x2 := x1 - (if x1 >= 64 then 64 else 0);
    var x3 := x2 - (if x2 >= 32 then 32 else 0);
    var x4 := x3 - (if x3 >= 16 then 16 else 0);
    var x5 := x4 - (if x4 >= 8 then 8 else 0);
    var x6 := x5 - (if x5 >= 4 then 4 else 0);
    var x7 := x6 - (if x6 >= 2 then 2 else 0);
    Octet(x7 >= 1, x6 >= 2, x5 >= 4, x4 >= 8, x3 >= 16, x2 >= 32, x1 >= 64, x >= 128)
  }

  function Value(o: Octet): byte
  {
    (if o.b0 then 1 else 0) + (if o.b1 then 2 else 0) + (if o.b2 then 4 else 0) + (if o.b3 then 8 else 0)
    + (if o.b4 then 16 else 0) + (if o.b5 then 32 else 0) + (if o.b6 then 64 else 0) + (if o.b7 then 128 else 0)
  }

  lemma DigitsValue(x: byte)
    ensures Value(Digits(x)) == x
  {
  }

  lemma ValueDigits(o: Octet)
    ensures Digits(Value(o)) == o
  {
  }

  function Pack(o: Octet): bv8
  {
    (if o.b0 then 1 else 0) | (if o.b1 then 2 else 0) | (if o.b2 then 4 else 0) | (if o.b3 then 8 else 0)
    | (if o.b4 then 16 else 0) | (if o.b5 then 32 else 0) | (if o.b6 then 64 else 0) | (if o.b7 then 128 else 0)
  }

  function Unpack(v: bv8): Octet
  {
    Octet(v & 1 != 0, v & 2 != 0, v & 4 != 0, v & 8 != 0, v & 16 != 0, v & 32 != 0, v & 64 != 0, v & 128 != 0)
  }

  lemma PackUnpack(v: bv8)
    ensures Pack(Unpack(v)) == v
  {
  }

  lemma UnpackPack(o: Octet)
    ensures Unpack(Pack(o)) == o
  {
  }

  /** A byte as the bit vector the C code computes with, and back. */
  function ToBits(x: byte): bv8
  {
    Pack(Digits(x))
  }

  function FromBits(v: bv8): byte
  {
    Value(Unpack(v))
  }

  lemma FromToBits(x: byte)
    ensures FromBits(ToBits(x)) == x
  {
    hide Pack, Unpack, Digits, Value;
    UnpackPack(Digits(x));
    DigitsValue(x);
  }

  lemma ToFromBits(v: bv8)
    ensures ToBits(FromBits(v)) == v
  {
    hide Pack, Unpack, Digits, Value;
    ValueDigits(Unpack(v));
    PackUnpack(v);
  }

  /** Exclusive or of two bytes. */
  function Xor(x: byte, y: byte): byte
  {
    FromBits(ToBits(x) ^ ToBits(y))
  }

  /** Which digits differ. */
  function Different(a: Octet, b: Octet): Octet
  {
    Octet(a.b0 != b.b0, a.b1 != b.b1, a.b2 != b.b2, a.b3 != b.b3,
          a.b4 != b.b4, a.b5 != b.b5, a.b6 != b.b6, a.b7 != b.b7)
  }

  function Bit(v: bv8, mask: bv8): bool
  {
    v & mask != 0
  }

  lemma UnpackIs(v: bv8)
    ensures Unpack(v) == Octet(Bit(v, 1), Bit(v, 2), Bit(v, 4), Bit(v, 8), Bit(v, 16), Bit(v, 32), Bit(v, 64),
                                Bit(v, 128))
  {
  }

  lemma XorBit0(v: bv8, w: bv8)
    ensures Bit(v ^ w, 1) == (Bit(v, 1) != Bit(w, 1))
  {
  }

  lemma XorBit1(v: bv8, w: bv8)
    ensures Bit(v ^ w, 2) == (Bit(v, 2) != Bit(w, 2))
  {
  }

  lemma XorBit2(v: bv8, w: bv8)
    ensures Bit(v ^ w, 4) == (Bit(v, 4) != Bit(w, 4))
  {
  }

  lemma XorBit3(v: bv8, w: bv8)
    ensures Bit(v ^ w, 8) == (Bit(v, 8) != Bit(w, 8))
  {
  }

  lemma XorBit4(v: bv8, w: bv8)
    ensures Bit(v ^ w, 16) == (Bit(v, 16) != Bit(w, 16))
  {
  }

  lemma XorBit5(v: bv8, w: bv8)
    ensures Bit(v ^ w, 32) == (Bit(v, 32) != Bit(w, 32))
  {
  }

  lemma XorBit6(v: bv8, w: bv8)
    ensures Bit(v ^ w, 64) == (Bit(v, 64) != Bit(w, 64))
  {
  }

  lemma XorBit7(v: bv8, w: bv8)
    ensures Bit(v ^ w, 128) == (Bit(v, 128) != Bit(w, 128))
  {
  }

  lemma UnpackXor(v: bv8, w: bv8)
    ensures Unpack(v ^ w) == Different(Unpack(v), Unpack(w))
  {
    hide Bit, Unpack;
    UnpackIs(v);
    UnpackIs(w);
    UnpackIs(v ^ w);
    XorBit0(v, w);
    XorBit1(v, w);
    XorBit2(v, w);
    XorBit3(v, w);
    XorBit4(v, w);
    XorBit5(v, w);
    XorBit6(v, w);
    XorBit7(v, w);
  }

  lemma XorDigits(x: byte, y: byte)
    ensures Digits(Xor(x, y)) == Different(Digits(x), Digits(y))
  {
    hide Pack, Unpack, Digits, Value, Different;
    var v, w := ToBits(x), ToBits(y);
    UnpackXor(v, w);
    UnpackPack(Digits(x));
    UnpackPack(Digits(y));
    ValueDigits(Unpack(v ^ w));
  }

  lemma XorTwice(x: byte, y: byte)
    ensures Xor(Xor(x, y), y) == x
  {
    ToFromBits(ToBits(x) ^ ToBits(y));
    FromToBits(x);
  }

  lemma SameBits(x: byte, y: byte)
    ensures ToBits(x) == ToBits(y) <==> x == y
  {
    hide ToBits, FromBits;
    FromToBits(x);
    FromToBits(y);
  }
}
