/**
 * PLAIN encoding of Parquet primitive values (Parquet format, Encodings,
 * "Plain (PLAIN = 0)"): booleans bit-packed least significant bit first,
 * INT32 and INT64 as fixed-width little-endian two's complement, values
 * concatenated in input order, no header and no length prefix.
 *
 * The decoders are the inverse partners of the encoders: the encoded buffer
 * does not say how many booleans it holds, so DecodeBools takes the count.
 */
module PlainEncoding {
  import opened Prelude

  /** Go's int32 and int64. */
  type Int32 = x: int | -0x8000_0000 <= x < 0x8000_0000
  type Int64 = x: int | -0x8000_0000_0000_0000 <= x < 0x8000_0000_0000_0000

  /** The buffer cannot hold the requested values. */
  datatype DecodeError = MalformedBuffer

  // ---------------------------------------------------------------------
  // Bits of a number
  // ---------------------------------------------------------------------

  function Pow2(k: nat): (p: nat)
    ensures p >= 1
  {
    if k == 0 then 1 else 2 * Pow2(k - 1)
  }

  lemma {:induction false} Pow2AtMost256(k: nat)
    requires k <= 8
    ensures Pow2(k) <= 256
    decreases 8 - k
  {
    if k < 8 {
      Pow2AtMost256(k + 1);
    }
  }

  /** Bit k of n, counting from the least significant bit. */
  predicate Bit(n: nat, k: nat)
  {
    if k == 0 then n % 2 == 1 else Bit(n / 2, k - 1)
  }

  lemma {:induction false} ZeroHasNoBits(k: nat)
    ensures !Bit(0, k)
  {
    if k > 0 {
      ZeroHasNoBits(k - 1);
    }
  }

  /** 1 << k has exactly bit k set. */
  lemma {:induction false} Pow2Bit(k: nat, j: nat)
    ensures Bit(Pow2(k), j) == (j == k)
  {
    if j == 0 {
      if k > 0 {
        assert Pow2(k) == 2 * Pow2(k - 1);
      }
    } else if k == 0 {
      ZeroHasNoBits(j - 1);
    } else {
      assert Pow2(k) / 2 == Pow2(k - 1);
      Pow2Bit(k - 1, j - 1);
    }
  }

  /** Two numbers below 2^n that agree on their n low bits are equal. */
  lemma {:induction false} BitsDetermine(x: nat, y: nat, n: nat)
    requires x < Pow2(n) && y < Pow2(n)
    requires forall k :: 0 <= k < n ==> Bit(x, k) == Bit(y, k)
    ensures x == y
  {
    if n > 0 {
      assert Bit(x, 0) == Bit(y, 0);
      forall k | 0 <= k < n - 1
        ensures Bit(x / 2, k) == Bit(y / 2, k)
      {
        assert Bit(x, k + 1) == Bit(y, k + 1);
      }
      BitsDetermine(x / 2, y / 2, n - 1);
    }
  }

  /** Go's bitwise or, a | c, on non-negative numbers. */
  function Or(a: nat, c: nat): (r: nat)
    decreases a + c
  {
    if a == 0 && c == 0 then 0
    else (if a % 2 == 1 || c % 2 == 1 then 1 else 0) + 2 * Or(a / 2, c / 2)
  }

  lemma {:induction false} OrBit(a: nat, c: nat, k: nat)
    ensures Bit(Or(a, c), k) == (Bit(a, k) || Bit(c, k))
    decreases a + c
  {
    if a == 0 && c == 0 {
      ZeroHasNoBits(k);
    } else {
      var low := if a % 2 == 1 || c % 2 == 1 then 1 else 0;
      var high := Or(a / 2, c / 2);
      assert Or(a, c) == low + 2 * high;
      HalveOddEven(low, high);
      if k > 0 {
        assert Bit(Or(a, c), k) == Bit(high, k - 1);
        OrBit(a / 2, c / 2, k - 1);
      }
    }
  }

  lemma HalveOddEven(low: nat, high: nat)
    requires low < 2
    ensures (low + 2 * high) / 2 == high && (low + 2 * high) % 2 == low
  {
  }

  lemma {:induction false} OrBelow(a: nat, c: nat, n: nat)
    requires a < Pow2(n) && c < Pow2(n)
    ensures Or(a, c) < Pow2(n)
    decreases a + c
  {
    if !(a == 0 && c == 0) {
      OrBelow(a / 2, c / 2, n - 1);
    }
  }

  // ---------------------------------------------------------------------
  // Booleans
  // ---------------------------------------------------------------------

  /** The number whose binary digits, least significant first, are bs. */
  function PackBits(bs: seq<bool>): (n: nat)
    ensures n < Pow2(|bs|)
  {
    if bs == [] then 0 else (if bs[0] then 1 else 0) + 2 * PackBits(bs[1..])
  }

  lemma {:induction false} PackBitsBit(bs: seq<bool>, k: nat)
    ensures Bit(PackBits(bs), k) == (k < |bs| && bs[k])
  {
    if bs == [] {
      ZeroHasNoBits(k);
    } else if k > 0 {
      var rest := PackBits(bs[1..]);
      assert ((if bs[0] then 1 else 0) + 2 * rest) / 2 == rest;
      PackBitsBit(bs[1..], k - 1);
    }
  }

  function Min(a: int, b: int): (m: int)
  {
    if a < b then a else b
  }

  /** plainEncodeBools: eight booleans per byte, the last byte zero-padded. */
  function EncodeBools(bs: seq<bool>): (r: seq<byte>)
    ensures |r| == (|bs| + 7) / 8
    decreases |bs|
  {
    if bs == [] then []
    else if |bs| <= 8 then
      Pow2AtMost256(|bs|);
      [PackBits(bs)]
    else
      Pow2AtMost256(8);
      [PackBits(bs[..8])] + EncodeBools(bs[8..])
  }

  /** Output byte j packs the inputs 8*j up to 8*j+7. */
  lemma {:induction false} EncodeBoolsByte(bs: seq<bool>, j: nat)
    requires j < (|bs| + 7) / 8
    ensures EncodeBools(bs)[j] == PackBits(bs[8 * j .. Min(8 * j + 8, |bs|)])
    decreases |bs|
  {
    if |bs| <= 8 {
      assert bs[0 .. |bs|] == bs;
    } else if j > 0 {
      EncodeBoolsByte(bs[8..], j - 1);
      var lo, hi := 8 * j, Min(8 * j + 8, |bs|);
      assert 8 * (j - 1) == lo - 8 && Min(8 * (j - 1) + 8, |bs| - 8) == hi - 8;
      var shifted, direct := bs[8..][lo - 8 .. hi - 8], bs[lo .. hi];
      assert |shifted| == |direct|;
      forall k | 0 <= k < |shifted|
        ensures shifted[k] == direct[k]
      {
        assert shifted[k] == bs[8..][lo - 8 + k] == bs[lo + k];
      }
      assert shifted == direct;
    }
  }

  /** Bit b of output byte j is the boolean at index 8*j + b, or clear past the inputs. */
  lemma EncodeBoolsBitAt(bs: seq<bool>, j: nat, b: nat)
    requires j < (|bs| + 7) / 8 && b < 8
    ensures Bit(EncodeBools(bs)[j], b) == (8 * j + b < |bs| && bs[8 * j + b])
  {
    EncodeBoolsByte(bs, j);
    PackBitsBit(bs[8 * j .. Min(8 * j + 8, |bs|)], b);
  }

  /**
   * Bit i mod 8 of output byte i / 8 is the boolean at index i, and every
   * bit of the output past the last input is clear.
   */
  lemma EncodeBoolsBit(bs: seq<bool>, i: nat)
    requires i < 8 * ((|bs| + 7) / 8)
    ensures Bit(EncodeBools(bs)[i / 8], i % 8) == (i < |bs| && bs[i])
  {
    EncodeBoolsBitAt(bs, i / 8, i % 8);
  }

  /** A byte carrying bit for bit the inputs of group j, then zeros, is output byte j. */
  lemma EncodedByte(bs: seq<bool>, j: nat, x: byte)
    requires j < (|bs| + 7) / 8
    requires forall b :: 0 <= b < 8 ==> Bit(x, b) == (8 * j + b < |bs| && bs[8 * j + b])
    ensures x == EncodeBools(bs)[j]
  {
    var y := EncodeBools(bs)[j];
    forall b | 0 <= b < 8
      ensures Bit(x, b) == Bit(y, b)
    {
      EncodeBoolsBitAt(bs, j, b);
    }
    assert Pow2(8) == 256;
    BitsDetermine(x, y, 8);
  }

  /** Setting bit k of a byte with |= 1 << k keeps it a byte and changes only bit k. */
  lemma SetBit(x: byte, k: nat)
    requires k < 8
    ensures Or(x, Pow2(k)) < 256
    ensures forall b :: 0 <= b < 8 ==> Bit(Or(x, Pow2(k)), b) == (Bit(x, b) || b == k)
  {
    Pow2AtMost256(k);
    OrBelow(x, Pow2(k), 8);
    forall b | 0 <= b < 8
      ensures Bit(Or(x, Pow2(k)), b) == (Bit(x, b) || b == k)
    {
      OrBit(x, Pow2(k), b);
      Pow2Bit(k, b);
    }
  }

  /** A buffer of the encoding's size carrying bit for bit the inputs, then zeros, is the encoding. */
  lemma SameBitsAsEncoding(r: seq<byte>, bs: seq<bool>)
    requires |r| == (|bs| + 7) / 8
    requires forall j, b :: 0 <= j < |r| && 0 <= b < 8 ==> Bit(r[j], b) == (8 * j + b < |bs| && bs[8 * j + b])
    ensures r == EncodeBools(bs)
  {
    forall j | 0 <= j < |r|
      ensures r[j] == EncodeBools(bs)[j]
    {
      EncodedByte(bs, j, r[j]);
    }
  }

  /**
   * An array-filling loop of the usual shape for this encoder: a zeroed byte
   * array of the final size, with data[i / 8] |= 1 << (i % 8) for each true
   * input; proved equal to EncodeBools.
   */
  method PackBools(bs: seq<bool>) returns (r: seq<byte>)
    ensures r == EncodeBools(bs)
  {
    var data := new byte[(|bs| + 7) / 8](_ => 0);
    forall b: nat
      ensures !Bit(0, b)
    {
      ZeroHasNoBits(b);
    }
    for i := 0 to |bs|
      invariant forall j, b :: 0 <= j < data.Length && 0 <= b < 8 ==>
        Bit(data[j], b) == (8 * j + b < i && bs[8 * j + b])
    {
      if bs[i] {
        var j, k := i / 8, i % 8;
        SetBit(data[j], k);
        data[j] := Or(data[j], Pow2(k));
      }
    }
    r := data[..];
    SameBitsAsEncoding(r, bs);
  }

  /** The first `count` booleans held in data; MalformedBuffer if it is too short. */
  function DecodeBools(data: seq<byte>, count: nat): (r: Result<seq<bool>, DecodeError>)
    ensures r.Success? <==> count <= 8 * |data|
    ensures r.Success? ==> |r.value| == count
  {
    if count > 8 * |data| then Failure(MalformedBuffer)
    else Success(seq(count, i requires 0 <= i < count => Bit(data[i / 8], i % 8)))
  }

  /** The padding bits after the first `count` booleans are clear. */
  ghost predicate PaddingClear(data: seq<byte>, count: nat)
  {
    forall j, b :: 0 <= j < |data| && 0 <= b < 8 && count <= 8 * j + b ==> !Bit(data[j], b)
  }

  /** Decoding the encoding of bs with its length gives bs back. */
  lemma BoolsRoundTrip(bs: seq<bool>)
    ensures DecodeBools(EncodeBools(bs), |bs|) == Success(bs)
  {
    var data := EncodeBools(bs);
    var n := |bs|;
    assert n <= 8 * |data|;
    var decoded := seq(n, i requires 0 <= i < n => Bit(data[i / 8], i % 8));
    forall i | 0 <= i < n
      ensures decoded[i] == bs[i]
    {
      EncodeBoolsBit(bs, i);
    }
    assert decoded == bs;
  }

  /**
   * A buffer of the right size whose padding is clear is the encoding of the
   * booleans it decodes to: the encoder reaches every such buffer.
   */
  lemma BoolsReverseRoundTrip(data: seq<byte>, count: nat)
    requires |data| == (count + 7) / 8
    requires PaddingClear(data, count)
    ensures DecodeBools(data, count).Success?
    ensures EncodeBools(DecodeBools(data, count).value) == data
  {
    var bs := DecodeBools(data, count).value;
    forall j | 0 <= j < |data|
      ensures data[j] == EncodeBools(bs)[j]
    {
      forall b | 0 <= b < 8
        ensures Bit(data[j], b) == (8 * j + b < |bs| && bs[8 * j + b])
      {
        assert (8 * j + b) / 8 == j && (8 * j + b) % 8 == b;
      }
      EncodedByte(bs, j, data[j]);
    }
  }

  /** The test vectors of plainEncodeBools. */
  lemma BoolVectors()
    ensures EncodeBools([]) == []
    ensures EncodeBools([true]) == [1]
    ensures EncodeBools([false]) == [0]
    ensures EncodeBools([true, true]) == [3]
    ensures EncodeBools([false, false]) == [0]
    ensures EncodeBools([false, true]) == [2]
    ensures EncodeBools([true, false]) == [1]
    ensures EncodeBools([false, false, false, false, false, false, false, true, true]) == [128, 1]
  {
    var nine := [false, false, false, false, false, false, false, true, true];
    assert nine[..8] == [false, false, false, false, false, false, false, true];
    assert nine[8..] == [true];
  }

  // ---------------------------------------------------------------------
  // Fixed-width integers
  // ---------------------------------------------------------------------

  function Pow256(width: nat): (p: nat)
    ensures p >= 1
  {
    if width == 0 then 1 else 256 * Pow256(width - 1)
  }

  /** The low `width` bytes of u, least significant first. */
  function LittleEndian(u: nat, width: nat): (r: seq<byte>)
    ensures |r| == width
  {
    if width == 0 then [] else [u % 256] + LittleEndian(u / 256, width - 1)
  }

  /** The number whose little-endian bytes are bs. */
  function Unsigned(bs: seq<byte>): (u: nat)
    ensures u < Pow256(|bs|)
  {
    if bs == [] then 0 else bs[0] + 256 * Unsigned(bs[1..])
  }

  lemma {:induction false} UnsignedOfLittleEndian(u: nat, width: nat)
    requires u < Pow256(width)
    ensures Unsigned(LittleEndian(u, width)) == u
  {
    if width > 0 {
      UnsignedOfLittleEndian(u / 256, width - 1);
      assert LittleEndian(u, width)[1..] == LittleEndian(u / 256, width - 1);
    }
  }

  lemma {:induction false} LittleEndianOfUnsigned(bs: seq<byte>)
    ensures LittleEndian(Unsigned(bs), |bs|) == bs
  {
    if bs != [] {
      var u := Unsigned(bs);
      assert u % 256 == bs[0] && u / 256 == Unsigned(bs[1..]);
      LittleEndianOfUnsigned(bs[1..]);
    }
  }

  /** 2^(8*width) is even, so its two halves are equal. */
  lemma HalvesOfPow256(width: nat)
    requires 0 < width
    ensures Pow256(width) == 2 * (Pow256(width) / 2)
  {
    assert Pow256(width) == 2 * (128 * Pow256(width - 1));
  }

  /** x is representable in `width` bytes of two's complement. */
  predicate Fits(x: int, width: nat)
  {
    0 < width && -(Pow256(width) / 2) <= x < Pow256(width) / 2
  }

  /** The unsigned reinterpretation of x, as Go's uint32(x) or uint64(x) conversion. */
  function TwosComplement(x: int, width: nat): (u: nat)
    requires Fits(x, width)
    ensures u < Pow256(width)
    ensures (u >= Pow256(width) / 2) == (x < 0)
  {
    HalvesOfPow256(width);
    if x < 0 then x + Pow256(width) else x
  }

  /** The signed reading of an unsigned `width`-byte value. */
  function FromTwosComplement(u: nat, width: nat): (x: int)
    requires 0 < width && u < Pow256(width)
    ensures Fits(x, width)
    ensures (x < 0) == (u >= Pow256(width) / 2)
  {
    HalvesOfPow256(width);
    if u < Pow256(width) / 2 then u else u - Pow256(width)
  }

  /** One value as `width` little-endian two's-complement bytes. */
  function EncodeInt(x: int, width: nat): (r: seq<byte>)
    requires Fits(x, width)
    ensures |r| == width
  {
    LittleEndian(TwosComplement(x, width), width)
  }

  /** The bytes of one value, read back as a number, are x modulo 2^(8*width). */
  lemma EncodeIntValue(x: int, width: nat)
    requires Fits(x, width)
    ensures Unsigned(EncodeInt(x, width)) == if x < 0 then x + Pow256(width) else x
    ensures FromTwosComplement(Unsigned(EncodeInt(x, width)), width) == x
  {
    UnsignedOfLittleEndian(TwosComplement(x, width), width);
  }

  ghost predicate AllFit(xs: seq<int>, width: nat)
  {
    forall i :: 0 <= i < |xs| ==> Fits(xs[i], width)
  }

  /** Each value as `width` bytes, concatenated in input order. */
  function EncodeInts(xs: seq<int>, width: nat): (r: seq<byte>)
    requires AllFit(xs, width)
    ensures |r| == width * |xs|
  {
    if xs == [] then [] else EncodeInt(xs[0], width) + EncodeInts(xs[1..], width)
  }

  /** The values at consecutive `width`-byte offsets; MalformedBuffer for a partial value. */
  function DecodeInts(data: seq<byte>, width: nat): (r: Result<seq<int>, DecodeError>)
    requires 0 < width
    decreases |data|
  {
    if data == [] then Success([])
    else if |data| < width then Failure(MalformedBuffer)
    else
      match DecodeInts(data[width..], width)
      case Failure(e) => Failure(e)
      case Success(rest) => Success([FromTwosComplement(Unsigned(data[..width]), width)] + rest)
  }

  lemma {:induction false} ModStep(n: nat, w: nat)
    requires 0 < w <= n
    ensures n % w == (n - w) % w
  {
    var q, r := (n - w) / w, (n - w) % w;
    assert n - w == w * q + r;
    assert n == w * (q + 1) + r;
    ModUnique(n, w, q + 1, r);
  }

  lemma ModUnique(n: int, w: int, q: int, r: int)
    requires 0 < w && n == w * q + r && 0 <= r < w
    ensures n % w == r
  {
    var q0, r0 := n / w, n % w;
    assert n == w * q0 + r0;
    assert w * (q - q0) == r0 - r;
    if q > q0 {
      MulAtLeast(w, q - q0);
    } else if q < q0 {
      MulAtLeast(w, q0 - q);
    }
  }

  lemma MulAtLeast(w: int, k: int)
    requires 0 < w && 1 <= k
    ensures w * k >= w
  {
    assert w * k == w * (k - 1) + w;
  }

  /** The decoder fails exactly on buffers that end in a partial value. */
  lemma {:induction false} DecodeIntsSucceeds(data: seq<byte>, width: nat)
    requires 0 < width
    ensures DecodeInts(data, width).Success? <==> |data| % width == 0
    decreases |data|
  {
    var n := |data|;
    if n == 0 {
    } else if n < width {
      ModUnique(n, width, 0, n);
    } else {
      DecodeIntsSucceeds(data[width..], width);
      ModStep(n, width);
    }
  }

  /** Decoding the encoding gives the values back. */
  lemma {:induction false} IntsRoundTrip(xs: seq<int>, width: nat)
    requires 0 < width && AllFit(xs, width)
    ensures DecodeInts(EncodeInts(xs, width), width) == Success(xs)
  {
    if xs != [] {
      var head := EncodeInt(xs[0], width);
      var data := EncodeInts(xs, width);
      assert data[..width] == head && data[width..] == EncodeInts(xs[1..], width);
      EncodeIntValue(xs[0], width);
      IntsRoundTrip(xs[1..], width);
      assert [xs[0]] + xs[1..] == xs;
    }
  }

  /** Encoding what a well-sized buffer decodes to gives the buffer back. */
  lemma {:induction false} IntsReverseRoundTrip(data: seq<byte>, width: nat)
    requires 0 < width && DecodeInts(data, width).Success?
    ensures AllFit(DecodeInts(data, width).value, width)
    ensures EncodeInts(DecodeInts(data, width).value, width) == data
    decreases |data|
  {
    if data != [] {
      var xs := DecodeInts(data, width).value;
      IntsReverseRoundTrip(data[width..], width);
      var u := Unsigned(data[..width]);
      assert xs[0] == FromTwosComplement(u, width) && xs[1..] == DecodeInts(data[width..], width).value;
      assert TwosComplement(xs[0], width) == u;
      LittleEndianOfUnsigned(data[..width]);
      assert data == data[..width] + data[width..];
    }
  }

  /** Encoding preserves order: the encoding of a + b is that of a, then that of b. */
  lemma {:induction false} EncodeIntsAppend(a: seq<int>, b: seq<int>, width: nat)
    requires AllFit(a, width) && AllFit(b, width)
    ensures AllFit(a + b, width)
    ensures EncodeInts(a + b, width) == EncodeInts(a, width) + EncodeInts(b, width)
  {
    assert AllFit(a + b, width) by {
      forall i | 0 <= i < |a + b| ensures Fits((a + b)[i], width) {
        if i < |a| { assert Fits(a[i], width); } else { assert Fits(b[i - |a|], width); }
      }
    }
    if a == [] {
      assert a + b == b;
    } else {
      assert (a + b)[0] == a[0];
      assert (a + b)[1..] == a[1..] + b;
      EncodeIntsAppend(a[1..], b, width);
    }
  }

  /** Value i occupies bytes width*i up to width*i + width - 1 of the output. */
  lemma {:induction false} EncodeIntsAt(xs: seq<int>, width: nat, i: nat)
    requires AllFit(xs, width) && i < |xs|
    ensures width * i + width <= |EncodeInts(xs, width)|
    ensures EncodeInts(xs, width)[width * i .. width * i + width] == EncodeInt(xs[i], width)
  {
    var r := EncodeInts(xs, width);
    if i == 0 {
      assert r[..width] == EncodeInt(xs[0], width);
    } else {
      EncodeIntsAt(xs[1..], width, i - 1);
      assert width * i == width + width * (i - 1);
      assert r[width..] == EncodeInts(xs[1..], width);
    }
  }

  // --------------------------- INT32 ---------------------------------

  lemma Int32Fits(x: Int32)
    ensures Fits(x, 4)
  {
    assert Pow256(4) == 0x1_0000_0000;
  }

  lemma Int32sFit(xs: seq<Int32>)
    ensures AllFit(xs, 4)
  {
    forall i | 0 <= i < |xs| ensures Fits(xs[i], 4) {
      Int32Fits(xs[i]);
    }
  }

  /** plainEncodeInt32s: four little-endian two's-complement bytes per value. */
  function EncodeInt32s(xs: seq<Int32>): (r: seq<byte>)
    ensures |r| == 4 * |xs|
  {
    Int32sFit(xs);
    EncodeInts(xs, 4)
  }

  /** The INT32 values held in data; MalformedBuffer when its length is not a multiple of 4. */
  function DecodeInt32s(data: seq<byte>): (r: Result<seq<Int32>, DecodeError>)
    ensures r.Success? <==> |data| % 4 == 0
  {
    DecodeIntsSucceeds(data, 4);
    match DecodeInts(data, 4)
    case Failure(e) => Failure(e)
    case Success(xs) =>
      assert Pow256(4) == 0x1_0000_0000;
      IntsReverseRoundTrip(data, 4);
      Success(xs)
  }

  lemma Int32sRoundTrip(xs: seq<Int32>)
    ensures DecodeInt32s(EncodeInt32s(xs)) == Success(xs)
  {
    Int32sFit(xs);
    IntsRoundTrip(xs, 4);
  }

  lemma Int32sReverseRoundTrip(data: seq<byte>)
    requires |data| % 4 == 0
    ensures DecodeInt32s(data).Success? && EncodeInt32s(DecodeInt32s(data).value) == data
  {
    DecodeIntsSucceeds(data, 4);
    IntsReverseRoundTrip(data, 4);
  }

  /** The INT32 values of the input appear in the output in order, four bytes each. */
  lemma Int32sLayout(xs: seq<Int32>, i: nat)
    requires i < |xs|
    ensures Unsigned(EncodeInt32s(xs)[4 * i .. 4 * i + 4]) == if xs[i] < 0 then xs[i] as int + 0x1_0000_0000 else xs[i] as int
  {
    Int32sFit(xs);
    EncodeIntsAt(xs, 4, i);
    EncodeIntValue(xs[i], 4);
    assert Pow256(4) == 0x1_0000_0000;
  }

  lemma Int32sAppend(a: seq<Int32>, b: seq<Int32>)
    ensures EncodeInt32s(a + b) == EncodeInt32s(a) + EncodeInt32s(b)
  {
    Int32sFit(a);
    Int32sFit(b);
    EncodeIntsAppend(a, b, 4);
  }

  /** The test vectors of plainEncodeInt32s. */
  lemma Int32Vectors()
    ensures EncodeInt32s([]) == []
    ensures EncodeInt32s([1]) == [1, 0, 0, 0]
    ensures EncodeInt32s([-1]) == [255, 255, 255, 255]
    ensures EncodeInt32s([256]) == [0, 1, 0, 0]
    ensures EncodeInt32s([-0x8000_0000]) == [0, 0, 0, 128]
    ensures EncodeInt32s([0x7FFF_FFFF]) == [255, 255, 255, 127]
    ensures EncodeInt32s([257, -2]) == [1, 1, 0, 0, 254, 255, 255, 255]
  {
    assert Pow256(4) == 0x1_0000_0000;
    assert [257, -2][1..] == [-2];
  }

  // --------------------------- INT64 ---------------------------------

  lemma Int64Fits(x: Int64)
    ensures Fits(x, 8)
  {
    assert Pow256(8) == 0x1_0000_0000_0000_0000;
  }

  lemma Int64sFit(xs: seq<Int64>)
    ensures AllFit(xs, 8)
  {
    forall i | 0 <= i < |xs| ensures Fits(xs[i], 8) {
      Int64Fits(xs[i]);
    }
  }

  /** plainEncodeInt64s: eight little-endian two's-complement bytes per value. */
  function EncodeInt64s(xs: seq<Int64>): (r: seq<byte>)
    ensures |r| == 8 * |xs|
  {
    Int64sFit(xs);
    EncodeInts(xs, 8)
  }

  /** The INT64 values held in data; MalformedBuffer when its length is not a multiple of 8. */
  function DecodeInt64s(data: seq<byte>): (r: Result<seq<Int64>, DecodeError>)
    ensures r.Success? <==> |data| % 8 == 0
  {
    DecodeIntsSucceeds(data, 8);
    match DecodeInts(data, 8)
    case Failure(e) => Failure(e)
    case Success(xs) =>
      assert Pow256(8) == 0x1_0000_0000_0000_0000;
      IntsReverseRoundTrip(data, 8);
      Success(xs)
  }

  lemma Int64sRoundTrip(xs: seq<Int64>)
    ensures DecodeInt64s(EncodeInt64s(xs)) == Success(xs)
  {
    Int64sFit(xs);
    IntsRoundTrip(xs, 8);
  }

  lemma Int64sReverseRoundTrip(data: seq<byte>)
    requires |data| % 8 == 0
    ensures DecodeInt64s(data).Success? && EncodeInt64s(DecodeInt64s(data).value) == data
  {
    DecodeIntsSucceeds(data, 8);
    IntsReverseRoundTrip(data, 8);
  }

  /** The INT64 values of the input appear in the output in order, eight bytes each. */
  lemma Int64sLayout(xs: seq<Int64>, i: nat)
    requires i < |xs|
    ensures Unsigned(EncodeInt64s(xs)[8 * i .. 8 * i + 8]) == if xs[i] < 0 then xs[i] as int + 0x1_0000_0000_0000_0000 else xs[i] as int
  {
    Int64sFit(xs);
    EncodeIntsAt(xs, 8, i);
    EncodeIntValue(xs[i], 8);
    assert Pow256(8) == 0x1_0000_0000_0000_0000;
  }

  lemma Int64sAppend(a: seq<Int64>, b: seq<Int64>)
    ensures EncodeInt64s(a + b) == EncodeInt64s(a) + EncodeInt64s(b)
  {
    Int64sFit(a);
    Int64sFit(b);
    EncodeIntsAppend(a, b, 8);
  }

  /** The test vectors of plainEncodeInt64s for small values. */
  lemma Int64Vectors()
    ensures EncodeInt64s([]) == []
    ensures EncodeInt64s([1]) == [1, 0, 0, 0, 0, 0, 0, 0]
    ensures EncodeInt64s([-1]) == [255, 255, 255, 255, 255, 255, 255, 255]
    ensures EncodeInt64s([256]) == [0, 1, 0, 0, 0, 0, 0, 0]
  {
    assert Pow256(8) == 0x1_0000_0000_0000_0000;
  }

  /** The test vectors of plainEncodeInt64s at the limits of int64. */
  lemma Int64LimitVectors()
    ensures EncodeInt64s([-0x8000_0000_0000_0000]) == [0, 0, 0, 0, 0, 0, 0, 128]
    ensures EncodeInt64s([0x7FFF_FFFF_FFFF_FFFF]) == [255, 255, 255, 255, 255, 255, 255, 127]
  {
    assert Pow256(8) == 0x1_0000_0000_0000_0000;
  }

  /** The two-value test vector of plainEncodeInt64s: values in input order. */
  lemma Int64PairVector()
    ensures EncodeInt64s([257, -2]) == [1, 1, 0, 0, 0, 0, 0, 0, 254, 255, 255, 255, 255, 255, 255, 255]
  {
    Int64PairHalves();
    Int64sAppend([257], [-2]);
    assert [257] + [-2] == [257, -2];
  }

  lemma Int64PairHalves()
    ensures EncodeInt64s([257]) == [1, 1, 0, 0, 0, 0, 0, 0]
    ensures EncodeInt64s([-2]) == [254, 255, 255, 255, 255, 255, 255, 255]
  {
    assert Pow256(8) == 0x1_0000_0000_0000_0000;
  }
}
