/**
 * Conversion of the fixed-width integer types to byte arrays in little-
 * or big-endian order and back.
 *
 * The eight C++ specialisations differ only in width and signedness, so
 * they are modelled by one pair of functions over an `IntType`.  Values
 * are mathematical integers in the type's range; a byte of the encoding
 * is the value shifted right (arithmetically, for negative values) and
 * cut to 8 bits, and decoding sums the bytes at their weights and wraps
 * the result into the type's range (the final `static_cast`).
 */
module Endian {
  import opened Common

  datatype ByteOrder = Little | Big

  datatype IntType = Int8 | UInt8 | Int16 | UInt16 | Int32 | UInt32 | Int64 | UInt64
  {
    /** sizeof(T), in bytes. */
    function Width(): nat
    {
      match this
      case Int8 | UInt8 => 1
      case Int16 | UInt16 => 2
      case Int32 | UInt32 => 4
      case Int64 | UInt64 => 8
    }

    predicate Signed()
    {
      this == Int8 || this == Int16 || this == Int32 || this == Int64
    }

    /** The values of the type: [0, 256^w) unsigned, [-256^w/2, 256^w/2) signed. */
    predicate InRange(x: int)
    {
      if Signed() then -(Pow256(Width()) as int / 2) <= x < Pow256(Width()) / 2
      else 0 <= x < Pow256(Width())
    }
  }

  function Pow256(k: nat): (p: nat)
    ensures p >= 1
    ensures k >= 1 ==> p >= 256 && p % 256 == 0
  {
    if k == 0 then 1 else 256 * Pow256(k - 1)
  }

  // ---------------------------------------------------------------------
  // Arithmetic helpers (Euclidean division by positive divisors)

  /** Quotient and remainder are determined by the division equation. */
  lemma DivModUnique(x: int, d: int, q: int, r: int)
    requires d > 0 && 0 <= r < d && x == d * q + r
    ensures x / d == q && x % d == r
  {
    var q0 := x / d;
    if q > q0 {
      MulAtLeast(d, q - q0);
    } else if q < q0 {
      MulAtLeast(d, q0 - q);
    }
  }

  lemma {:induction false} MulAtLeast(d: int, k: int)
    requires d > 0 && k >= 1
    ensures d * k >= d
    decreases k
  {
    if k > 1 {
      MulAtLeast(d, k - 1);
      assert d * k == d * (k - 1) + d;
    }
  }

  /** Splitting a remainder modulo 256 * p into its low byte and the rest. */
  lemma ModSplit(x: int, p: nat)
    requires p >= 1
    ensures x % (256 * p) == x % 256 + 256 * ((x / 256) % p)
  {
    var b, y := x % 256, x / 256;
    var q, r := y / p, y % p;
    assert x == 256 * y + b;
    assert y == p * q + r;
    assert x == (256 * p) * q + (256 * r + b);
    DivModUnique(x, 256 * p, q, 256 * r + b);
  }

  /** Dividing twice is dividing by the product. */
  lemma DivDiv(x: int, p: nat)
    requires p >= 1
    ensures (x / 256) / p == x / (256 * p)
  {
    var b, y := x % 256, x / 256;
    var q, r := y / p, y % p;
    assert x == (256 * p) * q + (256 * r + b);
    DivModUnique(x, 256 * p, q, 256 * r + b);
  }

  // ---------------------------------------------------------------------
  // Byte strings and values

  /** The w low bytes of x, least significant first. */
  function LeBytes(x: int, w: nat): (r: seq<byte>)
    ensures |r| == w
    decreases w
  {
    if w == 0 then [] else [(x % 256) as byte] + LeBytes(x / 256, w - 1)
  }

  /** The value of a byte string read least significant byte first. */
  function LeValue(a: seq<byte>): (v: nat)
    ensures v < Pow256(|a|)
  {
    if a == [] then 0 else a[0] as nat + 256 * LeValue(a[1..])
  }

  function Reverse(a: seq<byte>): (r: seq<byte>)
    ensures |r| == |a|
    ensures forall k :: 0 <= k < |a| ==> r[k] == a[|a| - 1 - k]
  {
    if a == [] then [] else Reverse(a[1..]) + [a[0]]
  }

  lemma {:induction false} ReverseReverse(a: seq<byte>)
    ensures Reverse(Reverse(a)) == a
  {
    var r := Reverse(Reverse(a));
    assert |r| == |a|;
    forall k | 0 <= k < |a| ensures r[k] == a[k] {
    }
  }

  /** Byte k of the encoding is x shifted right by 8k bits and cut to 8 bits. */
  lemma {:induction false} LeBytesAt(x: int, w: nat, k: nat)
    requires k < w
    ensures LeBytes(x, w)[k] as int == (x / Pow256(k)) % 256
    decreases k
  {
    if k > 0 {
      LeBytesAt(x / 256, w - 1, k - 1);
      DivDiv(x, Pow256(k - 1));
    }
  }

  /** Reading back the w low bytes of x gives x modulo 256^w. */
  lemma {:induction false} LeValueOfBytes(x: int, w: nat)
    ensures LeValue(LeBytes(x, w)) == x % Pow256(w)
    decreases w
  {
    if w > 0 {
      var a := LeBytes(x, w);
      assert a[1..] == LeBytes(x / 256, w - 1);
      LeValueOfBytes(x / 256, w - 1);
      ModSplit(x, Pow256(w - 1));
    }
  }

  /** Writing the value of a byte string gives the bytes back. */
  lemma {:induction false} LeBytesOfValue(a: seq<byte>)
    ensures LeBytes(LeValue(a), |a|) == a
  {
    if a != [] {
      var v := LeValue(a);
      var rest := LeValue(a[1..]);
      DivModUnique(v, 256, rest, a[0] as int);
      LeBytesOfValue(a[1..]);
      assert a == [a[0]] + a[1..];
    }
  }

  /** The w low bytes of x depend only on x modulo 256^w. */
  lemma {:induction false} LeBytesPeriodic(x: int, w: nat)
    ensures LeBytes(x + Pow256(w), w) == LeBytes(x, w)
    decreases w
  {
    if w > 0 {
      var p := Pow256(w - 1);
      var y := x + 256 * p;
      DivModUnique(y, 256, x / 256 + p, x % 256);
      LeBytesPeriodic(x / 256, w - 1);
    }
  }

  /** The w low bytes of x, most significant first. */
  function BeBytes(x: int, w: nat): (r: seq<byte>)
    ensures |r| == w
    decreases w
  {
    if w == 0 then [] else BeBytes(x / 256, w - 1) + [(x % 256) as byte]
  }

  /** The value of a byte string read most significant byte first. */
  function BeValue(a: seq<byte>): nat
  {
    if a == [] then 0 else 256 * BeValue(a[..|a| - 1]) + a[|a| - 1] as nat
  }

  lemma ReverseCons(b: byte, s: seq<byte>)
    ensures Reverse([b] + s) == Reverse(s) + [b]
  {
    assert ([b] + s)[1..] == s;
  }

  lemma ReverseSnoc(s: seq<byte>, b: byte)
    ensures Reverse(s + [b]) == [b] + Reverse(s)
  {
    var r := Reverse(s + [b]);
    forall k | 0 <= k < |s| + 1 ensures r[k] == ([b] + Reverse(s))[k] {
    }
  }

  /** The big-endian bytes of x are its little-endian bytes reversed. */
  lemma {:induction false} BeBytesReversed(x: int, w: nat)
    ensures BeBytes(x, w) == Reverse(LeBytes(x, w))
    decreases w
  {
    if w > 0 {
      BeBytesReversed(x / 256, w - 1);
      ReverseCons((x % 256) as byte, LeBytes(x / 256, w - 1));
    }
  }

  /** Reading most significant byte first is reading the reversed string least significant first. */
  lemma {:induction false} BeValueReversed(a: seq<byte>)
    ensures BeValue(a) == LeValue(Reverse(a))
  {
    if a != [] {
      var init, last := a[..|a| - 1], a[|a| - 1];
      assert a == init + [last];
      BeValueReversed(init);
      ReverseSnoc(init, last);
      assert ([last] + Reverse(init))[1..] == Reverse(init);
    }
  }

  // ---------------------------------------------------------------------
  // The conversions

  /** The value of an unsigned word reinterpreted in the type (the final static_cast). */
  function FromWord(t: IntType, u: int): int
  {
    if t.Signed() && u >= Pow256(t.Width()) / 2 then u - Pow256(t.Width()) else u
  }

  /** para_bin: the bytes of x in the requested order. */
  function ToBin(t: IntType, x: int, e: ByteOrder): (r: seq<byte>)
    requires t.InRange(x)
    ensures |r| == t.Width()
  {
    if e == Little then LeBytes(x, t.Width()) else BeBytes(x, t.Width())
  }

  /** bin_para as intended: the bytes summed at their weights, reinterpreted in the type. */
  function FromBin(t: IntType, a: seq<byte>, e: ByteOrder): (x: int)
    requires |a| == t.Width()
  {
    FromWord(t, if e == Little then LeValue(a) else BeValue(a))
  }

  /** The big-endian array is the little-endian one reversed. */
  lemma BigIsReversedLittle(t: IntType, x: int)
    requires t.InRange(x)
    ensures ToBin(t, x, Big) == Reverse(ToBin(t, x, Little))
  {
    BeBytesReversed(x, t.Width());
  }

  /** Each byte of the encoding is `static_cast<byte>(x >> 8k)`, in the requested order. */
  lemma ToBinBytes(t: IntType, x: int, e: ByteOrder, k: nat)
    requires t.InRange(x) && k < t.Width()
    ensures e == Little ==> ToBin(t, x, e)[k] as int == (x / Pow256(k)) % 256
    ensures e == Big ==> ToBin(t, x, e)[k] as int == (x / Pow256(t.Width() - 1 - k)) % 256
  {
    BeBytesReversed(x, t.Width());
    LeBytesAt(x, t.Width(), k);
    LeBytesAt(x, t.Width(), t.Width() - 1 - k);
  }

  /** Decoding gives a value of the type, whatever the bytes. */
  lemma FromBinInRange(t: IntType, a: seq<byte>, e: ByteOrder)
    requires |a| == t.Width()
    ensures t.InRange(FromBin(t, a, e))
  {
    BeValueReversed(a);
    WordInRange(t, if e == Little then LeValue(a) else BeValue(a));
  }

  /** The unsigned word of a value of the type, reinterpreted, is the value. */
  lemma FromWordOfMod(t: IntType, x: int)
    requires t.InRange(x)
    ensures FromWord(t, x % Pow256(t.Width())) == x
  {
    var p := Pow256(t.Width());
    if x >= 0 {
      DivModUnique(x, p, 0, x);
    } else {
      DivModUnique(x, p, -1, x + p);
    }
  }

  /** Decoding undoes encoding, for every type, value and byte order. */
  lemma RoundTrip(t: IntType, x: int, e: ByteOrder)
    requires t.InRange(x)
    ensures FromBin(t, ToBin(t, x, e), e) == x
  {
    var w := t.Width();
    if e == Big {
      BeBytesReversed(x, w);
      BeValueReversed(BeBytes(x, w));
      ReverseReverse(LeBytes(x, w));
    }
    LeValueOfBytes(x, w);
    FromWordOfMod(t, x);
  }

  /** Encoding a little-endian string's value, shifted into the type, gives the string back. */
  lemma LeBytesOfWord(t: IntType, a: seq<byte>)
    requires |a| == t.Width()
    ensures t.InRange(FromWord(t, LeValue(a)))
    ensures LeBytes(FromWord(t, LeValue(a)), |a|) == a
  {
    var u := LeValue(a);
    LeBytesOfValue(a);
    WordInRange(t, u);
    if FromWord(t, u) != u {
      LeBytesPeriodic(u - Pow256(|a|), |a|);
    }
  }

  /** Every unsigned word of the type's width reinterprets to a value of the type. */
  lemma WordInRange(t: IntType, u: int)
    requires 0 <= u < Pow256(t.Width())
    ensures t.InRange(FromWord(t, u))
  {
    var p := Pow256(t.Width());
    assert t.Width() >= 1;
    var h := p / 2;
    assert p == 2 * h;
  }

  /** Encoding undoes decoding: every byte array is the encoding of exactly one value. */
  lemma RoundTripBytes(t: IntType, a: seq<byte>, e: ByteOrder)
    requires |a| == t.Width()
    ensures t.InRange(FromBin(t, a, e))
    ensures ToBin(t, FromBin(t, a, e), e) == a
  {
    if e == Little {
      LeBytesOfWord(t, a);
    } else {
      var r := Reverse(a);
      BeValueReversed(a);
      LeBytesOfWord(t, r);
      BeBytesReversed(FromWord(t, LeValue(r)), |a|);
      ReverseReverse(a);
    }
  }

  // ---------------------------------------------------------------------
  // The little-endian uint32_t decode as written

  /**
   * A `std::byte` shifted left by n bits: the shift happens in the byte,
   * so only the low 8 bits survive.
   */
  function ShiftByte(b: byte, n: nat): byte
  {
    ((b as int * Pow2(n)) % 256) as byte
  }

  function Pow2(n: nat): (p: nat)
    ensures p >= 1
  {
    if n == 0 then 1 else 2 * Pow2(n - 1)
  }

  lemma {:induction false} ShiftTruncates(b: int, n: nat)
    requires n >= 8
    ensures (b * Pow2(n)) % 256 == 0
    decreases n
  {
    if n == 8 {
      assert Pow2(8) == 256;
    } else {
      ShiftTruncates(b * 2, n - 1);
      assert b * Pow2(n) == (b * 2) * Pow2(n - 1);
    }
  }

  /**
   * bin_para as written: identical to FromBin except for the little-endian
   * uint32_t case, which shifts bytes 1 to 3 inside `std::byte` before
   * widening them.
   */
  function FromBinAsWritten(t: IntType, a: seq<byte>, e: ByteOrder): int
    requires |a| == t.Width()
  {
    if t == UInt32 && e == Little then
      a[0] as int + ShiftByte(a[1], 8) as int + ShiftByte(a[2], 16) as int + ShiftByte(a[3], 24) as int
    else FromBin(t, a, e)
  }

  /** The written little-endian uint32_t decode keeps only the lowest byte. */
  lemma UInt32LittleKeepsLowByte(a: seq<byte>)
    requires |a| == 4
    ensures FromBinAsWritten(UInt32, a, Little) == a[0] as int
  {
    ShiftTruncates(a[1] as int, 8);
    ShiftTruncates(a[2] as int, 16);
    ShiftTruncates(a[3] as int, 24);
  }

  /** So the value 256 does not survive a round trip through it. */
  lemma UInt32LittleRoundTripFails()
    ensures UInt32.InRange(256)
    ensures ToBin(UInt32, 256, Little) == [0, 1, 0, 0]
    ensures FromBinAsWritten(UInt32, ToBin(UInt32, 256, Little), Little) == 0
    ensures FromBin(UInt32, ToBin(UInt32, 256, Little), Little) == 256
  {
    assert Pow256(4) == 4294967296;
    UInt32LittleKeepsLowByte(ToBin(UInt32, 256, Little));
    RoundTrip(UInt32, 256, Little);
  }

  /** Every other specialisation is the intended decode. */
  lemma AsWrittenElsewhere(t: IntType, a: seq<byte>, e: ByteOrder)
    requires |a| == t.Width() && (t != UInt32 || e != Little)
    ensures FromBinAsWritten(t, a, e) == FromBin(t, a, e)
  {
  }
}
