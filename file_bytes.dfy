/**
 * The slide file as the tool sees it through `open(path, "r+b")`: a byte
 * string that seek/write pairs overwrite, that grows when a write passes
 * the end (the gap reads as zero bytes), and whose 4-byte fields are signed
 * two's complement integers in the header's byte order ("MM" big-endian,
 * otherwise little-endian, section 2 of TIFF 6.0).
 */
module FileBytes {
  import opened Wrappers
  import opened CompressionUtils

  function Max(a: nat, b: nat): nat { if a >= b then a else b }

  function Zeros(n: nat): (r: seq<byte>)
    ensures |r| == n && forall i :: 0 <= i < n ==> r[i] == 0
  {
    if n == 0 then [] else Zeros(n - 1) + [0]
  }

  /** The ASCII space, the padding byte of str.ljust. */
  const SPACE: byte := 32

  /** "".ljust(n).encode() */
  function Spaces(n: nat): (r: seq<byte>)
    ensures |r| == n && forall i :: 0 <= i < n ==> r[i] == SPACE
  {
    if n == 0 then [] else Spaces(n - 1) + [SPACE]
  }

  /** text.ljust(width): text padded with spaces on the right up to `width` bytes. */
  function Ljust(text: seq<byte>, width: int): (r: seq<byte>)
    ensures |r| == if width > |text| then width else |text|
    ensures forall i :: 0 <= i < |text| ==> r[i] == text[i]
    ensures forall i :: |text| <= i < |r| ==> r[i] == SPACE
  {
    if width > |text| then text + Spaces(width - |text|) else text
  }

  /**
   * f.seek(pos); f.write(d): the bytes of `d` replace those at pos.., the file
   * grows to pos + |d| if needed, and a gap past the old end reads as zeros.
   * Writing nothing leaves the file as it is, wherever the position is.
   */
  function Overwrite(s: seq<byte>, pos: nat, d: seq<byte>): (r: seq<byte>)
    ensures |r| == if d == [] then |s| else Max(|s|, pos + |d|)
  {
    seq(if d == [] then |s| else Max(|s|, pos + |d|),
        i => if pos <= i < pos + |d| then d[i - pos] else if 0 <= i < |s| then s[i] else 0)
  }

  /**
   * Byte i after the write: from `d` inside the written range, as before
   * elsewhere, zero in a gap past the old end. Stated apart from Overwrite so
   * that proofs about several writes in a row unfold only the ones they need.
   */
  lemma OverwriteAt(s: seq<byte>, pos: nat, d: seq<byte>)
    ensures forall i :: 0 <= i < |Overwrite(s, pos, d)| ==>
      Overwrite(s, pos, d)[i] == if pos <= i < pos + |d| then d[i - pos] else if i < |s| then s[i] else 0
  {
  }

  /** What was written can be read back at the same place. */
  lemma OverwriteReadBack(s: seq<byte>, pos: nat, d: seq<byte>)
    requires d != [] || pos <= |s|
    ensures pos + |d| <= |Overwrite(s, pos, d)|
    ensures Overwrite(s, pos, d)[pos .. pos + |d|] == d
  {
  }

  /** Two writes that follow each other are one write of both byte strings. */
  lemma OverwriteAdjacent(s: seq<byte>, pos: nat, a: seq<byte>, b: seq<byte>)
    ensures Overwrite(Overwrite(s, pos, a), pos + |a|, b) == Overwrite(s, pos, a + b)
  {
    var lhs, rhs := Overwrite(Overwrite(s, pos, a), pos + |a|, b), Overwrite(s, pos, a + b);
    assert |lhs| == |rhs|;
    forall i | 0 <= i < |lhs|
      ensures lhs[i] == rhs[i]
    {
      if pos <= i < pos + |a| {
        assert (a + b)[i - pos] == a[i - pos];
      } else if pos + |a| <= i < pos + |a| + |b| {
        assert (a + b)[i - pos] == b[i - pos - |a|];
      }
    }
  }

  /** A later write that covers an earlier one hides it completely. */
  lemma OverwriteCovers(s: seq<byte>, pos: nat, a: seq<byte>, b: seq<byte>)
    requires |a| <= |b|
    ensures Overwrite(Overwrite(s, pos, a), pos, b) == Overwrite(s, pos, b)
  {
    var lhs, rhs := Overwrite(Overwrite(s, pos, a), pos, b), Overwrite(s, pos, b);
    assert |lhs| == |rhs|;
    forall i | 0 <= i < |lhs|
      ensures lhs[i] == rhs[i]
    {
    }
  }

  /** Writing back the bytes already there changes nothing. */
  lemma OverwriteSame(s: seq<byte>, pos: nat, n: nat)
    requires pos + n <= |s|
    ensures Overwrite(s, pos, s[pos .. pos + n]) == s
  {
    var r := Overwrite(s, pos, s[pos .. pos + n]);
    assert |r| == |s|;
    forall i | 0 <= i < |s|
      ensures r[i] == s[i]
    {
    }
  }

  /** f.seek(pos); f.read(n): at most n bytes, fewer when the end of the file comes first. */
  function Read(s: seq<byte>, pos: nat, n: nat): (r: seq<byte>)
    ensures |r| == if pos >= |s| then 0 else if pos + n <= |s| then n else |s| - pos
    ensures forall j :: 0 <= j < |r| ==> r[j] == s[pos + j]
  {
    if pos >= |s| then [] else if pos + n <= |s| then s[pos .. pos + n] else s[pos..]
  }

  /** The ASCII byte 'M'. */
  const ASCII_M: byte := 0x4D

  /** big_endian = f.read(2) == b"MM" */
  function IsBigEndian(s: seq<byte>): (r: bool)
    ensures r <==> Read(s, 0, 2) == [ASCII_M, ASCII_M]
  {
    |s| >= 2 && s[0] == ASCII_M && s[1] == ASCII_M
  }

  /** The 4-byte signed field at pos, as int_from_bytes reads it. */
  function Read32(s: seq<byte>, pos: nat, isBigEndian: bool): int
    requires pos + 4 <= |s|
  {
    IntFromBytes(s[pos .. pos + 4], isBigEndian)
  }

  /** The bytes of the numbers, 4 signed bytes each, as one run of writes produces them. */
  function EncodeInts(ns: seq<int>, isBigEndian: bool): (r: seq<byte>)
    requires forall k :: 0 <= k < |ns| ==> InSignedRange(ns[k], 4)
    ensures |r| == 4 * |ns|
  {
    if ns == [] then []
    else
      EncodeSucceedsIffInRange(ns[0], 4, isBigEndian);
      IntToBytes(ns[0], 4, isBigEndian).value + EncodeInts(ns[1..], isBigEndian)
  }

  /** The file after a run of writes, and whether the run completed. */
  datatype Written = Written(bytes: seq<byte>, ok: bool)

  /**
   * f.seek(pos); for n in ns: f.write(int_to_bytes(n, length=4, ...)):
   * the first number outside the signed 32-bit range raises, after the
   * numbers before it have been written.
   */
  function IntsWritten(s: seq<byte>, pos: nat, ns: seq<int>, isBigEndian: bool): (r: Written)
    ensures r.ok <==> forall k :: 0 <= k < |ns| ==> InSignedRange(ns[k], 4)
    decreases |ns|
  {
    if ns == [] then Written(s, true)
    else
      match IntToBytes(ns[0], 4, isBigEndian)
      case Failure(_) =>
        EncodeSucceedsIffInRange(ns[0], 4, isBigEndian);
        Written(s, false)
      case Success(b) =>
        var rest := IntsWritten(Overwrite(s, pos, b), pos + 4, ns[1..], isBigEndian);
        EncodeSucceedsIffInRange(ns[0], 4, isBigEndian);
        assert forall k :: 1 <= k < |ns| ==> ns[k] == ns[1..][k - 1];
        rest
  }

  /** A complete run of 4-byte writes is one write of the concatenated encodings. */
  lemma {:induction false} WriteIntsIsOverwrite(s: seq<byte>, pos: nat, ns: seq<int>, isBigEndian: bool)
    requires forall k :: 0 <= k < |ns| ==> InSignedRange(ns[k], 4)
    ensures IntsWritten(s, pos, ns, isBigEndian) == Written(Overwrite(s, pos, EncodeInts(ns, isBigEndian)), true)
    decreases |ns|
  {
    if ns != [] {
      EncodeSucceedsIffInRange(ns[0], 4, isBigEndian);
      var b := IntToBytes(ns[0], 4, isBigEndian).value;
      WriteIntsIsOverwrite(Overwrite(s, pos, b), pos + 4, ns[1..], isBigEndian);
      OverwriteAdjacent(s, pos, b, EncodeInts(ns[1..], isBigEndian));
    }
  }

  /** The k-th 4-byte group of EncodeInts is the encoding of the k-th number. */
  lemma {:induction false} EncodeIntsAt(ns: seq<int>, isBigEndian: bool, k: nat)
    requires forall j :: 0 <= j < |ns| ==> InSignedRange(ns[j], 4)
    requires k < |ns|
    ensures IntToBytes(ns[k], 4, isBigEndian).Success?
    ensures EncodeInts(ns, isBigEndian)[4 * k .. 4 * k + 4] == IntToBytes(ns[k], 4, isBigEndian).value
  {
    EncodeSucceedsIffInRange(ns[k], 4, isBigEndian);
    if k > 0 {
      EncodeIntsAt(ns[1..], isBigEndian, k - 1);
      EncodeSucceedsIffInRange(ns[0], 4, isBigEndian);
      var head := IntToBytes(ns[0], 4, isBigEndian).value;
      var tail := EncodeInts(ns[1..], isBigEndian);
      assert (head + tail)[4 * k .. 4 * k + 4] == tail[4 * (k - 1) .. 4 * (k - 1) + 4];
    }
  }

  lemma OverwriteSlice(s: seq<byte>, pos: nat, d: seq<byte>, a: nat, b: nat)
    requires a < b <= |d|
    ensures pos + b <= |Overwrite(s, pos, d)|
    ensures Overwrite(s, pos, d)[pos + a .. pos + b] == d[a..b]
  {
  }

  /** After a complete run of 4-byte writes, field k reads back the k-th number. */
  lemma WriteIntsField(s: seq<byte>, pos: nat, ns: seq<int>, isBigEndian: bool, k: nat)
    requires forall j :: 0 <= j < |ns| ==> InSignedRange(ns[j], 4)
    requires k < |ns|
    ensures pos + 4 * k + 4 <= |IntsWritten(s, pos, ns, isBigEndian).bytes|
    ensures Read32(IntsWritten(s, pos, ns, isBigEndian).bytes, pos + 4 * k, isBigEndian) == ns[k]
  {
    WriteIntsIsOverwrite(s, pos, ns, isBigEndian);
    var e := EncodeInts(ns, isBigEndian);
    var r := Overwrite(s, pos, e);
    var a := 4 * k;
    EncodeIntsAt(ns, isBigEndian, k);
    OverwriteSlice(s, pos, e, a, a + 4);
    IntRoundTrip(ns[k], 4, isBigEndian);
    assert r[pos + a .. pos + a + 4] == IntToBytes(ns[k], 4, isBigEndian).value;
  }

  /** A write that misses the range [a, b) leaves it as it was. */
  lemma OverwriteKeeps(s: seq<byte>, pos: nat, d: seq<byte>, a: nat, b: nat)
    requires a <= b <= |s|
    requires pos + |d| <= a || b <= pos
    ensures b <= |Overwrite(s, pos, d)|
    ensures Overwrite(s, pos, d)[a..b] == s[a..b]
  {
    OverwriteAt(s, pos, d);
    assert Overwrite(s, pos, d)[a..b] == s[a..b];
  }

  /** A slice of a slice is a slice. */
  lemma SliceOfSlice(s: seq<byte>, a: nat, b: nat, c: nat, d: nat)
    requires a <= b <= |s| && c <= d <= b - a
    ensures s[a..b][c..d] == s[a + c .. a + d]
  {
    assert |s[a..b][c..d]| == d - c == |s[a + c .. a + d]|;
    forall i | 0 <= i < d - c
      ensures s[a..b][c..d][i] == s[a + c .. a + d][i]
    {
      assert s[a..b][c..d][i] == s[a..b][c + i] == s[a + c + i];
    }
  }

  /** Bytes holding the encodings of some numbers read back those numbers, field by field. */
  lemma ReadEncoded(s: seq<byte>, pos: nat, ns: seq<int>, isBigEndian: bool)
    requires forall j :: 0 <= j < |ns| ==> InSignedRange(ns[j], 4)
    requires pos + 4 * |ns| <= |s| && s[pos .. pos + 4 * |ns|] == EncodeInts(ns, isBigEndian)
    ensures forall k :: 0 <= k < |ns| ==> Read32(s, pos + 4 * k, isBigEndian) == ns[k]
  {
    forall k | 0 <= k < |ns|
      ensures Read32(s, pos + 4 * k, isBigEndian) == ns[k]
    {
      EncodeIntsAt(ns, isBigEndian, k);
      IntRoundTrip(ns[k], 4, isBigEndian);
      SliceOfSlice(s, pos, pos + 4 * |ns|, 4 * k, 4 * k + 4);
    }
  }

  /** The fields after the first read the numbers after the first. */
  lemma TableTail(s: seq<byte>, pos: nat, next: nat, ns: seq<int>, isBigEndian: bool)
    requires ns != [] && pos + 4 * |ns| <= |s| && next == pos + 4
    requires forall j :: 0 <= j < |ns| ==> Read32(s, pos + 4 * j, isBigEndian) == ns[j]
    ensures forall j :: 0 <= j < |ns[1..]| ==> Read32(s, next + 4 * j, isBigEndian) == ns[1..][j]
  {
    forall j | 0 <= j < |ns[1..]|
      ensures Read32(s, next + 4 * j, isBigEndian) == ns[1..][j]
    {
      var j' := j + 1;
      assert ns[j'] == ns[1..][j];
      assert pos + 4 * j' == pos + 4 + 4 * j;
    }
  }

  /** Fields that read some numbers are exactly the encodings of those numbers. */
  lemma {:induction false} TableReEncode(s: seq<byte>, pos: nat, ns: seq<int>, isBigEndian: bool)
    requires pos + 4 * |ns| <= |s|
    requires forall j :: 0 <= j < |ns| ==> Read32(s, pos + 4 * j, isBigEndian) == ns[j]
    ensures forall j :: 0 <= j < |ns| ==> InSignedRange(ns[j], 4)
    ensures EncodeInts(ns, isBigEndian) == s[pos .. pos + 4 * |ns|]
    decreases |ns|
  {
    if ns != [] {
      var a := s[pos .. pos + 4];
      BytesRoundTrip(a, isBigEndian);
      assert Read32(s, pos + 4 * 0, isBigEndian) == ns[0];
      var next := pos + 4;
      TableTail(s, pos, next, ns, isBigEndian);
      TableReEncode(s, next, ns[1..], isBigEndian);
      assert s[pos .. pos + 4 * |ns|] == a + s[next .. next + 4 * |ns[1..]|];
      forall j | 0 <= j < |ns|
        ensures InSignedRange(ns[j], 4)
      {
        if j > 0 {
          assert ns[j] == ns[1..][j - 1];
        }
      }
    }
  }

  /** After a complete run of 4-byte writes, every byte outside the run is as it was. */
  lemma WriteIntsFrame(s: seq<byte>, pos: nat, ns: seq<int>, isBigEndian: bool)
    requires forall j :: 0 <= j < |ns| ==> InSignedRange(ns[j], 4)
    ensures |IntsWritten(s, pos, ns, isBigEndian).bytes| == if ns == [] then |s| else Max(|s|, pos + 4 * |ns|)
    ensures forall i :: 0 <= i < |s| && !(pos <= i < pos + 4 * |ns|) ==>
      IntsWritten(s, pos, ns, isBigEndian).bytes[i] == s[i]
  {
    WriteIntsIsOverwrite(s, pos, ns, isBigEndian);
  }

  /** The slide file opened with "r+b": its bytes change in place under writes. */
  class SlideFile {
    var bytes: seq<byte>

    constructor(content: seq<byte>)
      ensures bytes == content
    {
      bytes := content;
    }

    /** f.seek(pos); f.write(d) */
    method Write(pos: nat, d: seq<byte>)
      modifies this
      ensures bytes == Overwrite(old(bytes), pos, d)
    {
      bytes := Overwrite(bytes, pos, d);
    }

    /** f.seek(0, 2); offset = f.tell(); f.write(d) */
    method Append(d: seq<byte>) returns (offset: nat)
      modifies this
      ensures offset == |old(bytes)|
      ensures bytes == old(bytes) + d
    {
      offset := |bytes|;
      bytes := bytes + d;
    }

    /** f.seek(pos); then one 4-byte int_to_bytes write per number, stopping at the first that raises. */
    method WriteInts(pos: nat, ns: seq<int>, isBigEndian: bool) returns (ok: bool)
      modifies this
      ensures Written(bytes, ok) == IntsWritten(old(bytes), pos, ns, isBigEndian)
    {
      var i := 0;
      while i < |ns|
        invariant 0 <= i <= |ns|
        invariant IntsWritten(old(bytes), pos, ns, isBigEndian)
                  == IntsWritten(bytes, pos + 4 * i, ns[i..], isBigEndian)
      {
        var enc := IntToBytes(ns[i], 4, isBigEndian);
        assert ns[i..][0] == ns[i] && ns[i..][1..] == ns[i + 1..];
        if enc.Failure? {
          return false;
        }
        bytes := Overwrite(bytes, pos + 4 * i, enc.value);
        i := i + 1;
      }
      ok := true;
    }
  }
}
