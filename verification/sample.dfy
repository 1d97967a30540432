/** Raw sample decoding: three signed 16-bit axes assembled from the six data bytes, and the
    milli-g scaling that accel_read applies to them. */
module Sample {
  import opened Registers

  /** A value of C type s16 / int16_t. */
  type Int16 = x: int | -0x8000 <= x < 0x8000

  /** A value of C type u16. */
  type Uint16 = x: int | 0 <= x < 0x10000

  /** `a` and `b` agree in their low 16 bits (are congruent modulo 2^16). */
  predicate SameLow16(a: int, b: int)
  {
    (a - b) % 0x10000 == 0
  }

  /** Storing an int in 0..0xFFFF into an s16 keeps its low 16 bits (two's complement). */
  function ToInt16(u: Uint16): (v: Int16)
    ensures (v - u) % 0x10000 == 0
  {
    if u < 0x8000 then u else u - 0x10000
  }

  /** Reading an s16 through a u16 lvalue. */
  function ToUint16(v: Int16): (u: Uint16)
    ensures (u - v) % 0x10000 == 0
  {
    if v < 0 then v + 0x10000 else v
  }

  lemma Int16RoundTrip(v: Int16, u: Uint16)
    ensures ToInt16(ToUint16(v)) == v
    ensures ToUint16(ToInt16(u)) == u
  {
  }

  /** The s16 whose low byte is `lo` and whose high byte is `hi`. */
  function Axis(lo: Byte, hi: Byte): Int16
  {
    ToInt16(hi * 0x100 + lo)
  }

  /** `(hi << 8) | lo` computed on the promoted bytes, then stored into an s16. */
  function AssembleAxis(lo: Byte, hi: Byte): (v: Int16)
    ensures v == Axis(lo, hi)
  {
    AssembleIsAxis(lo, hi);
    ToInt16((((hi as bv16) << 8) | (lo as bv16)) as int)
  }

  lemma AssembleIsAxis(lo: Byte, hi: Byte)
    ensures ToInt16((((hi as bv16) << 8) | (lo as bv16)) as int) == Axis(lo, hi)
  {
    var u := (((hi as bv16) << 8) | (lo as bv16)) as int;
    ShiftOrIsArithmetic(lo, hi);
    assert u == hi * 0x100 + lo;
  }

  lemma ShiftOrIsArithmetic(lo: Byte, hi: Byte)
    ensures (((hi as bv16) << 8) | (lo as bv16)) as int == hi * 0x100 + lo
  {
    ByteAsBv16(lo);
    ByteAsBv16(hi);
    ShiftOrBv(hi as bv16, lo as bv16);
  }

  lemma ShiftOrBv(hi: bv16, lo: bv16)
    requires hi < 0x100 && lo < 0x100
    ensures (hi << 8) | lo == hi * 0x100 + lo
    ensures (hi * 0x100 + lo) as int == hi as int * 0x100 + lo as int
  {
  }

  /** The three axes X, Y, Z, each with its low byte first, from the six bytes read at DATAX0. */
  function Decode(bytes: seq<Byte>): (xyz: seq<Int16>)
    requires |bytes| == 6
    ensures |xyz| == 3
  {
    [Axis(bytes[0], bytes[1]), Axis(bytes[2], bytes[3]), Axis(bytes[4], bytes[5])]
  }

  /** The bytes the ADXL345 sends for a sample: low byte, then high byte, per axis. */
  function Encode(xyz: seq<Int16>): (bytes: seq<Byte>)
    requires |xyz| == 3
    ensures |bytes| == 6
  {
    var u0, u1, u2 := ToUint16(xyz[0]), ToUint16(xyz[1]), ToUint16(xyz[2]);
    [u0 % 0x100, u0 / 0x100, u1 % 0x100, u1 / 0x100, u2 % 0x100, u2 / 0x100]
  }

  lemma DecodeEncode(xyz: seq<Int16>)
    requires |xyz| == 3
    ensures Decode(Encode(xyz)) == xyz
  {
    var d := Decode(Encode(xyz));
    forall i | 0 <= i < 3
      ensures d[i] == xyz[i]
    {
      var u := ToUint16(xyz[i]);
      assert (u / 0x100) * 0x100 + u % 0x100 == u;
      Int16RoundTrip(xyz[i], u);
    }
  }

  lemma EncodeDecode(bytes: seq<Byte>)
    requires |bytes| == 6
    ensures Encode(Decode(bytes)) == bytes
  {
    var xyz := Decode(bytes);
    AxisBytes(bytes[0], bytes[1], xyz[0]);
    AxisBytes(bytes[2], bytes[3], xyz[1]);
    AxisBytes(bytes[4], bytes[5], xyz[2]);
    assert Encode(xyz) == [bytes[0], bytes[1], bytes[2], bytes[3], bytes[4], bytes[5]];
  }

  /** The u16 view of an assembled axis splits back into its two bytes. */
  lemma AxisBytes(lo: Byte, hi: Byte, v: Int16)
    requires v == Axis(lo, hi)
    ensures ToUint16(v) % 0x100 == lo && ToUint16(v) / 0x100 == hi
  {
    var u := (hi as int) * 0x100 + lo;
    Int16RoundTrip(0, u);
    assert ToUint16(v) == u;
    SplitWord(u, lo, hi);
  }

  lemma SplitWord(u: int, lo: int, hi: int)
    requires 0 <= lo < 0x100 && u == hi * 0x100 + lo
    ensures u % 0x100 == lo && u / 0x100 == hi
  {
  }

  /** Worked examples: `10 00 20 00 30 00` and `FF FF 00 00 01 80`. */
  lemma DecodeExamples()
    ensures Decode([0x10, 0x00, 0x20, 0x00, 0x30, 0x00]) == [16, 32, 48]
    ensures Decode([0xFF, 0xFF, 0x00, 0x00, 0x01, 0x80]) == [-1, 0, -32767]
  {
  }

  /** `xmg = XYZ[i] * mg_per_lsb` in accel_read: XYZ is declared u16 although it holds the s16
      sample, the product is an int, and storing it into the s16 xmg keeps its low 16 bits. */
  function ScaleMg(raw: Int16, mgPerLsb: Byte): (mg: Int16)
    ensures (mg - raw * mgPerLsb) % 0x10000 == 0
    ensures -0x8000 <= raw * mgPerLsb < 0x8000 ==> mg == raw * mgPerLsb
  {
    var product := ToUint16(raw) * mgPerLsb;
    ScaleCongruent(raw, mgPerLsb);
    ToInt16(product % 0x10000)
  }

  lemma ScaleCongruent(raw: Int16, m: Byte)
    ensures (ToInt16((ToUint16(raw) * m) % 0x10000) - raw * m) % 0x10000 == 0
  {
    var u := ToUint16(raw);
    var p := u * m;
    var r := p % 0x10000;
    var v := ToInt16(r);
    // v == r - c1 * 0x10000, r == p - q * 0x10000, u == raw + c2 * 0x10000
    var c1 := if r < 0x8000 then 0 else 1;
    var c2 := if raw < 0 then 1 else 0;
    var q := p / 0x10000;
    assert v == r - c1 * 0x10000;
    assert r == p - q * 0x10000;
    assert u == raw + c2 * 0x10000;
    assert p == raw * m + (c2 * m) * 0x10000;
    assert v - raw * m == (c2 * m - q - c1) * 0x10000;
    MultipleIsSameLow16(v - raw * m, c2 * m - q - c1);
  }

  lemma MultipleIsSameLow16(d: int, k: int)
    requires d == k * 0x10000
    ensures d % 0x10000 == 0
  {
  }
}
