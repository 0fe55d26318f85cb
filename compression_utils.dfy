/**
 * compression_utils.py: the signed integer <-> bytes codec used for every
 * TIFF field the tool writes, the list of compression codes it can write,
 * and the split of an image into strips of RowsPerStrip rows.
 * The zlib and LZW codecs are foreign and appear as opaque functions.
 */
module CompressionUtils {
  import opened Wrappers

  type byte = b: int | 0 <= b < 256

  /** Values of the TIFF Compression tag (259) the tool can produce. */
  const NONE: int := 1
  const LZW: int := 5
  const ADOBE_DEFLATE: int := 8

  /** COMPRESSION.values() */
  function CompressionValues(): seq<int> { [NONE, LZW, ADOBE_DEFLATE] }

  // ---------------------------------------------------------------------
  // Powers and bit lengths
  // ---------------------------------------------------------------------

  function Pow2(n: nat): (r: nat)
    ensures r >= 1
  {
    if n == 0 then 1 else 2 * Pow2(n - 1)
  }

  function Pow256(n: nat): (r: nat)
    ensures r >= 1
  {
    if n == 0 then 1 else 256 * Pow256(n - 1)
  }

  /** Python's int.bit_length() of a non-negative number. */
  function BitLength(m: nat): nat
  {
    if m == 0 then 0 else 1 + BitLength(m / 2)
  }

  lemma {:induction false} Pow256IsPow2(n: nat)
    ensures Pow256(n) == Pow2(8 * n)
  {
    if n > 0 {
      Pow256IsPow2(n - 1);
      assert Pow2(8 * n) == 256 * Pow2(8 * (n - 1)) by {
        var k := 8 * (n - 1);
        assert 8 * n == k + 8;
        Pow2Add(k, 8);
      }
    }
  }

  lemma {:induction false} Pow2Add(a: nat, b: nat)
    ensures Pow2(a + b) == Pow2(a) * Pow2(b)
  {
    if b > 0 {
      Pow2Add(a, b - 1);
    }
  }

  lemma {:induction false} BitLengthBound(m: nat, k: nat)
    ensures m < Pow2(k) <==> BitLength(m) <= k
  {
    if m == 0 {
    } else if k == 0 {
    } else {
      BitLengthBound(m / 2, k - 1);
    }
  }

  // ---------------------------------------------------------------------
  // Signed two's complement encoding (int_to_bytes / int_from_bytes)
  // ---------------------------------------------------------------------

  /** Half of 256^length: the size of the negative part of the signed range. */
  function Half(length: nat): nat { Pow256(length) / 2 }

  /** The integers that `to_bytes(length, signed=True)` accepts. */
  predicate InSignedRange(n: int, length: nat)
  {
    if length == 0 then n == 0 else -(Half(length) as int) <= n < Half(length)
  }

  /** Most significant byte first. */
  function UnsignedBE(u: nat, length: nat): (r: seq<byte>)
    requires u < Pow256(length)
    ensures |r| == length
  {
    if length == 0 then [] else UnsignedBE(u / 256, length - 1) + [u % 256]
  }

  /** Least significant byte first. */
  function UnsignedLE(u: nat, length: nat): (r: seq<byte>)
    requires u < Pow256(length)
    ensures |r| == length
  {
    if length == 0 then [] else [u % 256] + UnsignedLE(u / 256, length - 1)
  }

  function FromUnsignedBE(bs: seq<byte>): (r: nat)
    ensures r < Pow256(|bs|)
  {
    if bs == [] then 0
    else
      var hi := FromUnsignedBE(bs[..|bs| - 1]);
      assert hi * 256 + bs[|bs| - 1] < Pow256(|bs|) by {
        assert hi <= Pow256(|bs| - 1) - 1;
        MulLeft(256, hi, Pow256(|bs| - 1) - 1);
      }
      hi * 256 + bs[|bs| - 1]
  }

  function FromUnsignedLE(bs: seq<byte>): (r: nat)
    ensures r < Pow256(|bs|)
  {
    if bs == [] then 0
    else
      var hi := FromUnsignedLE(bs[1..]);
      assert bs[0] + 256 * hi < Pow256(|bs|) by {
        assert hi <= Pow256(|bs| - 1) - 1;
        MulLeft(256, hi, Pow256(|bs| - 1) - 1);
      }
      bs[0] + 256 * hi
  }

  lemma MulLeft(k: nat, a: nat, b: nat)
    requires a <= b
    ensures k * a <= k * b
  {
  }

  /** The unsigned value whose bytes represent n in two's complement. */
  function TwosComplement(n: int, length: nat): (u: nat)
    requires InSignedRange(n, length)
    ensures u < Pow256(length)
  {
    if n >= 0 then n else n + Pow256(length)
  }

  /** Python's `(number + (number < 0)).bit_length()` base: the magnitude to fit. */
  function Magnitude(n: int): nat
  {
    if n < 0 then -(n + 1) else n
  }

  /** The length int_to_bytes chooses when called with length -1. */
  function MinSignedLength(n: int): nat
  {
    (8 + BitLength(Magnitude(n))) / 8
  }

  datatype CodecError = NegativeLength | Overflow

  /**
   * int_to_bytes(number, length, is_big_endian): signed=True, so a number
   * outside the signed range of `length` bytes is an OverflowError, and a
   * negative length other than -1 is a ValueError.
   */
  function IntToBytes(number: int, length: int, isBigEndian: bool): (r: Result<seq<byte>, CodecError>)
  {
    var len := if length == -1 then MinSignedLength(number) else length;
    if len < 0 then Failure(NegativeLength)
    else if !InSignedRange(number, len) then Failure(Overflow)
    else
      var u := TwosComplement(number, len);
      Success(if isBigEndian then UnsignedBE(u, len) else UnsignedLE(u, len))
  }

  /** int_from_bytes(bytes_data, is_big_endian) with signed=True. */
  function IntFromBytes(bs: seq<byte>, isBigEndian: bool): int
  {
    var u := if isBigEndian then FromUnsignedBE(bs) else FromUnsignedLE(bs);
    var msb := if bs == [] then 0 else if isBigEndian then bs[0] else bs[|bs| - 1];
    if msb >= 128 then u - Pow256(|bs|) else u
  }

  function Reverse<T>(s: seq<T>): (r: seq<T>)
    ensures |r| == |s|
  {
    if s == [] then [] else Reverse(s[1..]) + [s[0]]
  }

  lemma {:induction false} ReverseSnoc<T>(s: seq<T>, x: T)
    ensures Reverse(s + [x]) == [x] + Reverse(s)
  {
    if s == [] {
      assert s + [x] == [x];
    } else {
      assert (s + [x])[1..] == s[1..] + [x];
      ReverseSnoc(s[1..], x);
    }
  }

  lemma {:induction false} BERoundTrip(u: nat, length: nat)
    requires u < Pow256(length)
    ensures FromUnsignedBE(UnsignedBE(u, length)) == u
  {
    if length > 0 {
      var bs := UnsignedBE(u, length);
      assert bs[..length - 1] == UnsignedBE(u / 256, length - 1);
      BERoundTrip(u / 256, length - 1);
    }
  }

  lemma {:induction false} BEFromRoundTrip(bs: seq<byte>)
    ensures UnsignedBE(FromUnsignedBE(bs), |bs|) == bs
  {
    if bs != [] {
      var init := bs[..|bs| - 1];
      var v := FromUnsignedBE(bs);
      assert v / 256 == FromUnsignedBE(init) && v % 256 == bs[|bs| - 1];
      BEFromRoundTrip(init);
      assert bs == init + [bs[|bs| - 1]];
    }
  }

  /** The little-endian encoding is the byte reverse of the big-endian one. */
  lemma {:induction false} LEIsReversedBE(u: nat, length: nat)
    requires u < Pow256(length)
    ensures UnsignedLE(u, length) == Reverse(UnsignedBE(u, length))
  {
    if length > 0 {
      var init := UnsignedBE(u / 256, length - 1);
      assert UnsignedBE(u, length) == init + [u % 256];
      assert UnsignedLE(u, length) == [u % 256] + UnsignedLE(u / 256, length - 1);
      LEIsReversedBE(u / 256, length - 1);
      ReverseSnoc<byte>(init, u % 256);
    }
  }

  lemma {:induction false} LEReadsReversedBE(bs: seq<byte>)
    ensures FromUnsignedLE(bs) == FromUnsignedBE(Reverse(bs))
  {
    if bs != [] {
      LEReadsReversedBE(bs[1..]);
      var r := Reverse(bs);
      assert r[..|r| - 1] == Reverse(bs[1..]);
    }
  }

  /** The first byte of a big-endian encoding carries the sign bit. */
  lemma {:induction false} SignByteBE(u: nat, length: nat)
    requires length >= 1 && u < Pow256(length)
    ensures UnsignedBE(u, length)[0] >= 128 <==> u >= Half(length)
  {
    if length > 1 {
      SignByteBE(u / 256, length - 1);
      assert UnsignedBE(u, length)[0] == UnsignedBE(u / 256, length - 1)[0];
      var p := Pow256(length - 1);
      assert Pow256(length - 1) == 256 * Pow256(length - 2);
      assert Half(length - 1) == 128 * Pow256(length - 2);
      assert Half(length) == 256 * Half(length - 1);
      assert u / 256 >= Half(length - 1) <==> u >= 256 * Half(length - 1);
    }
  }

  lemma {:induction false} SignByteFromBE(bs: seq<byte>)
    requires |bs| >= 1
    ensures bs[0] >= 128 <==> FromUnsignedBE(bs) >= Half(|bs|)
  {
    BEFromRoundTrip(bs);
    SignByteBE(FromUnsignedBE(bs), |bs|);
  }

  /** The result of int_to_bytes on a length L >= 0 (the check it performs). */
  lemma EncodeSucceedsIffInRange(n: int, length: nat, isBigEndian: bool)
    ensures IntToBytes(n, length, isBigEndian).Success? <==> InSignedRange(n, length)
    ensures IntToBytes(n, length, isBigEndian).Success? ==> |IntToBytes(n, length, isBigEndian).value| == length
  {
  }

  /** int_from_bytes(int_to_bytes(n, L, e), e) == n on the whole signed range. */
  lemma {:induction false} IntRoundTrip(n: int, length: nat, isBigEndian: bool)
    requires InSignedRange(n, length)
    ensures IntToBytes(n, length, isBigEndian).Success?
    ensures IntFromBytes(IntToBytes(n, length, isBigEndian).value, isBigEndian) == n
  {
    var u := TwosComplement(n, length);
    var be := UnsignedBE(u, length);
    BERoundTrip(u, length);
    if length > 0 {
      SignByteBE(u, length);
      assert Pow256(length) == 2 * Half(length);
    }
    if !isBigEndian {
      LEIsReversedBE(u, length);
      LEReadsReversedBE(Reverse(be));
      ReverseTwice(be);
      if length > 0 {
        assert Reverse(be)[length - 1] == be[0];
      }
    }
  }

  lemma {:induction false} ReverseTwice<T>(s: seq<T>)
    ensures Reverse(Reverse(s)) == s
  {
    if s != [] {
      ReverseTwice(s[1..]);
      ReverseSnoc(Reverse(s[1..]), s[0]);
    }
  }

  /** Every byte string of length L is the encoding of exactly the value int_from_bytes reads. */
  lemma {:induction false} BytesRoundTrip(bs: seq<byte>, isBigEndian: bool)
    ensures InSignedRange(IntFromBytes(bs, isBigEndian), |bs|)
    ensures IntToBytes(IntFromBytes(bs, isBigEndian), |bs|, isBigEndian) == Success(bs)
  {
    var be := if isBigEndian then bs else Reverse(bs);
    ReverseTwice(bs);
    if !isBigEndian {
      LEReadsReversedBE(bs);
      if bs != [] {
        FirstOfReverse(bs);
      }
    }
    var u := FromUnsignedBE(be);
    BEFromRoundTrip(be);
    if |bs| > 0 {
      SignByteFromBE(be);
      assert Pow256(|bs|) == 2 * Half(|bs|);
    }
    var n := IntFromBytes(bs, isBigEndian);
    assert (if isBigEndian then FromUnsignedBE(bs) else FromUnsignedLE(bs)) == u;
    assert bs != [] ==> (if isBigEndian then bs[0] else bs[|bs| - 1]) == be[0];
    assert |bs| > 0 ==> n == (if u >= Half(|bs|) then u - Pow256(|bs|) else u);
    assert TwosComplement(n, |bs|) == u;
    if !isBigEndian {
      LEIsReversedBE(u, |bs|);
    }
  }

  lemma {:induction false} FirstOfReverse<T>(s: seq<T>)
    requires s != []
    ensures Reverse(s)[0] == s[|s| - 1]
  {
    if |s| > 1 {
      FirstOfReverse(s[1..]);
    }
  }

  lemma {:induction false} SignedRangeByBits(n: int, length: nat)
    requires length >= 1
    ensures InSignedRange(n, length) <==> BitLength(Magnitude(n)) <= 8 * length - 1
  {
    Pow256IsPow2(length);
    assert Pow2(8 * length) == 2 * Pow2(8 * length - 1);
    BitLengthBound(Magnitude(n), 8 * length - 1);
  }

  /**
   * With length -1, int_to_bytes picks (8 + bitlen(n + (n < 0))) // 8 bytes:
   * at least one byte, enough to hold n signed, and no more than needed.
   */
  lemma MinSignedLengthIsLeast(n: int)
    ensures MinSignedLength(n) >= 1
    ensures InSignedRange(n, MinSignedLength(n))
    ensures MinSignedLength(n) == 1 || !InSignedRange(n, MinSignedLength(n) - 1)
    ensures IntToBytes(n, -1, true).Success?
  {
    var b := BitLength(Magnitude(n));
    var len := MinSignedLength(n);
    SignedRangeByBits(n, len);
    if len > 1 {
      SignedRangeByBits(n, len - 1);
    }
  }

  /** The signed range of four bytes is [-2^31, 2^31). */
  lemma Signed32(n: int)
    ensures InSignedRange(n, 4) <==> -0x8000_0000 <= n < 0x8000_0000
  {
    assert Pow256(4) == 0x1_0000_0000;
  }

  /** A file offset of 2^31 or more cannot be written as a signed 4-byte integer. */
  lemma FourByteOffsetLimit(offset: int, isBigEndian: bool)
    ensures IntToBytes(offset, 4, isBigEndian).Success? <==> -0x8000_0000 <= offset < 0x8000_0000
  {
    assert Pow256(4) == 0x1_0000_0000;
  }

  // ---------------------------------------------------------------------
  // Strip partition (compression_image)
  // ---------------------------------------------------------------------

  /** IMGTile: one strip of an image, with count == len(data). */
  datatype ImgTile = ImgTile(index: nat, data: seq<byte>, count: nat)

  /** StripsPerImage = floor((ImageLength + RowsPerStrip - 1) / RowsPerStrip), section 3 of TIFF 6.0. */
  function StripsPerImage(imageLength: nat, rowsPerStrip: nat): nat
    requires rowsPerStrip > 0
  {
    (imageLength + rowsPerStrip - 1) / rowsPerStrip
  }

  /** The row after the last row of strip i. */
  function StripEnd(i: nat, rowsPerStrip: nat, height: nat): nat
  {
    if (i + 1) * rowsPerStrip <= height then (i + 1) * rowsPerStrip else height
  }

  lemma MulMono(a: nat, b: nat, c: nat)
    requires a <= b
    ensures a * c <= b * c
  {
  }

  lemma DivMod(a: nat, d: nat)
    requires d > 0
    ensures a == (a / d) * d + a % d && 0 <= a % d < d
  {
  }

  lemma MulSign(k: int, d: nat)
    requires d > 0
    ensures k >= 1 ==> k * d >= d
    ensures k <= -1 ==> k * d + d <= 0
  {
  }

  lemma DivUnique(a: nat, d: nat, q: nat, r: nat)
    requires d > 0 && r < d && a == q * d + r
    ensures a / d == q && a % d == r
  {
    DivMod(a, d);
    var k := q - a / d;
    assert k * d == a % d - r;
    MulSign(k, d);
  }

  /** The doc-comment formula counts the full strips plus one partial strip. */
  lemma StripCount(height: nat, rowsPerStrip: nat)
    requires rowsPerStrip > 0
    ensures StripsPerImage(height, rowsPerStrip)
            == height / rowsPerStrip + (if height % rowsPerStrip > 0 then 1 else 0)
  {
    var q, r := height / rowsPerStrip, height % rowsPerStrip;
    DivMod(height, rowsPerStrip);
    if r == 0 {
      DivUnique(height + rowsPerStrip - 1, rowsPerStrip, q, rowsPerStrip - 1);
    } else {
      assert (q + 1) * rowsPerStrip == q * rowsPerStrip + rowsPerStrip;
      DivUnique(height + rowsPerStrip - 1, rowsPerStrip, q + 1, r - 1);
    }
  }

  /** Each strip holds rows_per_strip rows, except a shorter last strip of height % rows_per_strip rows. */
  lemma StripHeights(height: nat, rowsPerStrip: nat, i: nat)
    requires rowsPerStrip > 0 && i < StripsPerImage(height, rowsPerStrip)
    ensures i * rowsPerStrip < StripEnd(i, rowsPerStrip, height) <= height
    ensures StripEnd(i, rowsPerStrip, height) - i * rowsPerStrip
            == if i == height / rowsPerStrip then height % rowsPerStrip else rowsPerStrip
  {
    var q, r := height / rowsPerStrip, height % rowsPerStrip;
    DivMod(height, rowsPerStrip);
    StripCount(height, rowsPerStrip);
    assert (i + 1) * rowsPerStrip == i * rowsPerStrip + rowsPerStrip;
    if i < q {
      MulMono(i + 1, q, rowsPerStrip);
    } else {
      assert i == q && r > 0;
    }
  }

  /** Strips before the last one end where the next one starts. */
  lemma StripsAdjacent(height: nat, rowsPerStrip: nat, i: nat)
    requires rowsPerStrip > 0 && 0 < i < StripsPerImage(height, rowsPerStrip)
    ensures StripEnd(i - 1, rowsPerStrip, height) == i * rowsPerStrip
  {
    StripHeights(height, rowsPerStrip, i);
    assert (i - 1 + 1) * rowsPerStrip == i * rowsPerStrip;
  }

  /** The last strip ends at the last row of the image. */
  lemma LastStripEnd(height: nat, rowsPerStrip: nat)
    requires rowsPerStrip > 0 && StripsPerImage(height, rowsPerStrip) > 0
    ensures StripEnd(StripsPerImage(height, rowsPerStrip) - 1, rowsPerStrip, height) == height
  {
    var n := StripsPerImage(height, rowsPerStrip);
    DivMod(height, rowsPerStrip);
    StripCount(height, rowsPerStrip);
    StripHeights(height, rowsPerStrip, n - 1);
    assert (n - 1 + 1) * rowsPerStrip == n * rowsPerStrip;
  }

  /** Rows [i * rowsPerStrip, StripEnd(i)) of a row-major image, flattened. */
  function RawStrip(img: seq<byte>, height: nat, rowLen: nat, rowsPerStrip: nat, i: nat): (r: seq<byte>)
    requires rowsPerStrip > 0 && i < StripsPerImage(height, rowsPerStrip)
    requires |img| == height * rowLen
    ensures |r| == (StripEnd(i, rowsPerStrip, height) - i * rowsPerStrip) * rowLen
    ensures forall j :: 0 <= j < |r| ==> r[j] == img[i * rowsPerStrip * rowLen + j]
  {
    StripBytes(height, rowLen, rowsPerStrip, i);
    img[i * rowsPerStrip * rowLen .. StripEnd(i, rowsPerStrip, height) * rowLen]
  }

  /** The byte range of strip i lies inside the image. */
  lemma StripBytes(height: nat, rowLen: nat, rowsPerStrip: nat, i: nat)
    requires rowsPerStrip > 0 && i < StripsPerImage(height, rowsPerStrip)
    ensures var lo, hi := i * rowsPerStrip, StripEnd(i, rowsPerStrip, height);
      && lo * rowLen <= hi * rowLen <= height * rowLen
      && (hi - lo) * rowLen == hi * rowLen - lo * rowLen
  {
    var lo, hi := i * rowsPerStrip, StripEnd(i, rowsPerStrip, height);
    StripHeights(height, rowsPerStrip, i);
    MulMono(lo, hi, rowLen);
    MulMono(hi, height, rowLen);
    MulSub(hi, lo, rowLen);
  }

  lemma MulSub(a: nat, b: nat, c: nat)
    requires b <= a
    ensures (a - b) * c == a * c - b * c
  {
  }

  /** Number of values of the strips before strip i. */
  function DoneLength(height: nat, rowLen: nat, rowsPerStrip: nat, i: nat): nat
  {
    if i == 0 then 0 else StripEnd(i - 1, rowsPerStrip, height) * rowLen
  }

  lemma DoneLengthBound(height: nat, rowLen: nat, rowsPerStrip: nat, i: nat)
    requires rowsPerStrip > 0 && i <= StripsPerImage(height, rowsPerStrip)
    ensures DoneLength(height, rowLen, rowsPerStrip, i) <= height * rowLen
  {
    if i > 0 {
      StripHeights(height, rowsPerStrip, i - 1);
      MulMono(StripEnd(i - 1, rowsPerStrip, height), height, rowLen);
    }
  }

  /** The slice compression_image takes for strip i is the raw strip. */
  lemma StripSlice(img: seq<byte>, height: nat, rowLen: nat, rowsPerStrip: nat, i: nat, start: nat, rows: nat)
    requires rowsPerStrip > 0 && i < StripsPerImage(height, rowsPerStrip)
    requires |img| == height * rowLen
    requires start == i * rowsPerStrip
    requires rows == if i == height / rowsPerStrip then height % rowsPerStrip else rowsPerStrip
    ensures start * rowLen <= (start + rows) * rowLen <= |img|
    ensures img[start * rowLen .. (start + rows) * rowLen] == RawStrip(img, height, rowLen, rowsPerStrip, i)
  {
    StripHeights(height, rowsPerStrip, i);
    MulMono(start, start + rows, rowLen);
    MulMono(start + rows, height, rowLen);
  }

  /** All strips together cover the whole image. */
  lemma StripsCoverImage(img: seq<byte>, height: nat, rowLen: nat, rowsPerStrip: nat)
    requires rowsPerStrip > 0
    requires |img| == height * rowLen
    ensures img[..DoneLength(height, rowLen, rowsPerStrip, StripsPerImage(height, rowsPerStrip))] == img
  {
    if StripsPerImage(height, rowsPerStrip) > 0 {
      LastStripEnd(height, rowsPerStrip);
    } else {
      StripCount(height, rowsPerStrip);
      DivMod(height, rowsPerStrip);
    }
  }

  /** Appending raw strip i to the first i strips extends the prefix of the image they cover. */
  lemma ConcatStep(img: seq<byte>, height: nat, rowLen: nat, rowsPerStrip: nat, i: nat,
                    rs: seq<ImgTile>, t: ImgTile)
    requires rowsPerStrip > 0 && i < StripsPerImage(height, rowsPerStrip)
    requires |img| == height * rowLen
    requires ConcatData(rs) == img[..DoneLength(height, rowLen, rowsPerStrip, i)]
    requires t.data == RawStrip(img, height, rowLen, rowsPerStrip, i)
    ensures ConcatData(rs + [t]) == img[..DoneLength(height, rowLen, rowsPerStrip, i + 1)]
  {
    var raw := t.data;
    assert (rs + [t])[..|rs + [t]| - 1] == rs;
    var lo, hi := i * rowsPerStrip, StripEnd(i, rowsPerStrip, height);
    StripHeights(height, rowsPerStrip, i);
    if i > 0 {
      StripsAdjacent(height, rowsPerStrip, i);
    }
    assert DoneLength(height, rowLen, rowsPerStrip, i) == lo * rowLen;
    MulMono(hi, height, rowLen);
    MulMono(lo, hi, rowLen);
    assert raw == img[lo * rowLen .. hi * rowLen];
    assert img[..lo * rowLen] + raw == img[..hi * rowLen];
  }

  /** The encoder compression_image applies to a flattened strip. */
  function EncodeStrip(compression: int, raw: seq<byte>,
                       deflate: seq<byte> -> seq<byte>, lzw: seq<byte> -> seq<byte>): seq<byte>
  {
    if compression == ADOBE_DEFLATE then deflate(raw)
    else if compression == LZW then lzw(raw)
    else raw
  }

  function ConcatData(rs: seq<ImgTile>): seq<byte>
  {
    if rs == [] then [] else ConcatData(rs[..|rs| - 1]) + rs[|rs| - 1].data
  }

  /**
   * compression_image: split `img` (row-major, rowLen = width * samples_per_pixel
   * values per row) into strips of rowsPerStrip rows and encode each one.
   */
  method CompressionImage(img: seq<byte>, height: nat, width: nat, samplesPerPixel: nat,
                          rowsPerStrip: nat, compression: int,
                          deflate: seq<byte> -> seq<byte>, lzw: seq<byte> -> seq<byte>)
    returns (rs: seq<ImgTile>)
    requires rowsPerStrip > 0
    requires |img| == height * (width * samplesPerPixel)
    ensures |rs| == StripsPerImage(height, rowsPerStrip)
    ensures forall i :: 0 <= i < |rs| ==>
      && rs[i].index == i
      && rs[i].count == |rs[i].data|
      && rs[i].data == EncodeStrip(compression,
                                   RawStrip(img, height, width * samplesPerPixel, rowsPerStrip, i),
                                   deflate, lzw)
    ensures compression == NONE ==> ConcatData(rs) == img
  {
    var rowLen := width * samplesPerPixel;
    var stripNum := height / rowsPerStrip;
    var fullRowStripNum := stripNum;
    var remainder := height % rowsPerStrip;
    if remainder > 0 {
      stripNum := stripNum + 1;
    }
    StripCount(height, rowsPerStrip);
    rs := [];
    for i := 0 to stripNum
      invariant |rs| == i
      invariant forall k :: 0 <= k < i ==>
        && rs[k].index == k
        && rs[k].count == |rs[k].data|
        && rs[k].data == EncodeStrip(compression, RawStrip(img, height, rowLen, rowsPerStrip, k), deflate, lzw)
      invariant DoneLength(height, rowLen, rowsPerStrip, i) <= |img|
      invariant compression == NONE ==> ConcatData(rs) == img[..DoneLength(height, rowLen, rowsPerStrip, i)]
    {
      var start := i * rowsPerStrip;
      var rows := if i == fullRowStripNum then remainder else rowsPerStrip;
      StripSlice(img, height, rowLen, rowsPerStrip, i, start, rows);
      var raw := img[start * rowLen .. (start + rows) * rowLen];
      var tile := EncodeStrip(compression, raw, deflate, lzw);
      ghost var before := rs;
      rs := rs + [ImgTile(i, tile, |tile|)];
      assert rs[..|rs| - 1] == before;
      DoneLengthBound(height, rowLen, rowsPerStrip, i + 1);
      if compression == NONE {
        ConcatStep(img, height, rowLen, rowsPerStrip, i, before, rs[i]);
      }
    }
    StripsCoverImage(img, height, rowLen, rowsPerStrip);
  }
}
