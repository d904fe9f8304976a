/** The compile-time bit helpers of 06barannik/BitUtils.h: how many bits and
    bytes a non-negative intmax_t needs, and the narrowest unsigned type of a
    given byte width.
 */
module BitUtils {
  import opened CppArith

  function Pow2(k: nat): (p: nat)
    ensures p >= 1
  {
    if k == 0 then 1 else 2 * Pow2(k - 1)
  }

  lemma {:induction false} Pow2Monotone(j: nat, k: nat)
    requires j <= k
    ensures Pow2(j) <= Pow2(k)
    decreases k - j
  {
    if j < k {
      Pow2Monotone(j, k - 1);
    }
  }

  /** The largest intmax_t, 2^63 - 1 on the 64-bit targets the draft is for. */
  const IntMaxBound: nat := 0x7FFF_FFFF_FFFF_FFFF

  /** bitcount<n>: 1 for 0 and 1, otherwise one more than for n >> 1. A
      negative argument never reaches 0 or 1 (the shift keeps it at -1) and
      the instantiation does not terminate, so only n >= 0 compiles. The
      result is the number of binary digits of n, with 0 written as one
      digit. */
  function BitCount(n: nat): (r: nat)
    ensures r >= 1
    ensures n <= 1 ==> r == 1
    ensures n >= 1 ==> Pow2(r - 1) <= n < Pow2(r)
  {
    if n <= 1 then 1 else 1 + BitCount(n / 2)
  }

  /** The bit count is the only width k with 2^(k-1) <= n < 2^k. */
  lemma BitCountUnique(n: nat, k: nat)
    requires k >= 1 && Pow2(k - 1) <= n < Pow2(k)
    ensures BitCount(n) == k
  {
    var r := BitCount(n);
    if r < k {
      Pow2Monotone(r, k - 1);
    } else if k < r {
      Pow2Monotone(k, r - 1);
    }
  }

  /** bits_to_bytes: (bits + 7) / 8 with C++ truncating division. For a
      non-negative bit count it is the least number of whole bytes holding
      that many bits. */
  function BitsToBytes(bits: int): (r: int)
    ensures bits >= 0 ==> r >= 0 && 8 * r >= bits && 8 * r < bits + 8
  {
    TDiv(bits + 7, 8)
  }

  /** No smaller number of bytes holds that many bits. */
  lemma BitsToBytesLeast(bits: nat, k: int)
    requires 8 * k >= bits
    ensures BitsToBytes(bits) <= k
  {
  }

  /** bytecount<n>: the whole bytes that hold n's binary digits. */
  function ByteCount(n: nat): (r: nat)
    ensures r >= 1
  {
    var bits := BitCount(n);
    BitsToBytes(bits)
  }

  /** n fits in ByteCount(n) bytes, and in no fewer. */
  lemma ByteCountTight(n: nat)
    ensures n < Pow2(8 * ByteCount(n))
    ensures ByteCount(n) >= 2 ==> Pow2(8 * (ByteCount(n) - 1)) <= n
  {
    var bits := BitCount(n);
    var r := BitsToBytes(bits);
    assert r == ByteCount(n);
    var top := 8 * r;
    assert bits <= top;
    Pow2Monotone(bits, top);
    if r >= 2 {
      var below := 8 * (r - 1);
      assert below <= bits - 1 && n >= 1;
      Pow2Monotone(below, bits - 1);
      assert Pow2(below) <= n;
    }
  }

  /** The integer types min_suitable_uint_type can name. */
  datatype IntType = UInt8 | UInt16 | UInt32 | IntMax
  {
    /** Bits in the type. */
    function Width(): (w: nat) {
      match this
      case UInt8 => 8
      case UInt16 => 16
      case UInt32 => 32
      case IntMax => 64
    }

    predicate Unsigned() {
      !IntMax?
    }

    /** The largest value the type holds. */
    function Max(): (m: nat) {
      if Unsigned() then Pow2(Width()) - 1 else IntMaxBound
    }
  }

  /** min_suitable_uint_type<bytes>: uint8_t for 1, uint16_t for 2, uint32_t
      for 3 and 4, intmax_t for every other count. For 1 to 4 bytes it is the
      narrowest unsigned type with at least that many bytes. */
  function MinSuitableUInt(bytes: int): (r: IntType)
    ensures 1 <= bytes <= 4 ==> r.Unsigned() && r.Width() >= 8 * bytes
    ensures 1 <= bytes <= 4 ==> forall t: IntType :: t.Unsigned() && t.Width() >= 8 * bytes ==> r.Width() <= t.Width()
    ensures !(1 <= bytes <= 4) ==> r == IntMax
  {
    if bytes == 1 then UInt8
    else if bytes == 2 then UInt16
    else if bytes == 3 || bytes == 4 then UInt32
    else IntMax
  }

  /** Every non-negative intmax_t fits in the type its byte count selects. */
  lemma ByteCountFits(n: nat)
    requires n <= IntMaxBound
    ensures n <= MinSuitableUInt(ByteCount(n)).Max()
  {
    var r := ByteCount(n);
    ByteCountTight(n);
    var t := MinSuitableUInt(r);
    if t.Unsigned() {
      Pow2Monotone(8 * r, t.Width());
    }
  }

  lemma BitCountExamples()
    ensures BitCount(0) == 1 && BitCount(1) == 1 && BitCount(2) == 2 && BitCount(255) == 8 && BitCount(256) == 9
  {
    assert Pow2(7) == 128 && Pow2(8) == 256 && Pow2(9) == 512;
    BitCountUnique(255, 8);
    BitCountUnique(256, 9);
  }

  /** 255 needs one byte and uint8_t, 256 two bytes and uint16_t, 70000
      three bytes and uint32_t. */
  lemma ByteCountExamples()
    ensures ByteCount(255) == 1 && ByteCount(256) == 2 && ByteCount(70000) == 3
    ensures MinSuitableUInt(ByteCount(255)) == UInt8 && MinSuitableUInt(ByteCount(256)) == UInt16
    ensures MinSuitableUInt(ByteCount(70000)) == UInt32
  {
    BitCountExamples();
    assert Pow2(16) == 65536 && Pow2(17) == 131072;
    BitCountUnique(70000, 17);
  }
}
