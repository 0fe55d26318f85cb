/**
 * Swapping the label image of an Aperio slide inside the file:
 * replace_label_with_pseudonym_svs zeroes the old label strips, rewrites
 * Compression (259) when the label's code cannot be produced, appends the
 * new strips at the end of the file and points StripByteCounts (279) and
 * StripOffsets (273) at them; back_up_image_svs writes the saved tables and
 * strip bytes back. Tag numbers and field layout follow section 8 and
 * section 2 of TIFF 6.0.
 */
module LabelStrips {
  import opened Wrappers
  import opened CompressionUtils
  import opened FileBytes

  const COMPRESSION_TAG: int := 259
  const STRIP_OFFSETS_TAG: int := 273
  const STRIP_BYTE_COUNTS_TAG: int := 279

  /**
   * What the tool reads from the label's image file directory: its
   * compression code, the offsets and byte counts of its strips, and for
   * each tag present the offset of its value (ifd.tags.get(code).valueoffset).
   */
  datatype LabelIfd = LabelIfd(compression: int, dataOffsets: seq<nat>, dataByteCounts: seq<nat>, tags: map<int, nat>)

  /**
   * The code the new label is compressed with: the label's own when the
   * tool can produce it, otherwise Adobe Deflate.
   */
  function ChosenCompression(code: int): (r: int)
    ensures r in CompressionValues()
    ensures r == code <==> code in CompressionValues()
    ensures r != code ==> r == ADOBE_DEFLATE
  {
    if code in CompressionValues() then code else ADOBE_DEFLATE
  }

  /** sum(xs) */
  function SumOf(xs: seq<nat>): nat
  {
    if xs == [] then 0 else SumOf(xs[..|xs| - 1]) + xs[|xs| - 1]
  }

  /** [strip.count for strip in img_data] */
  function Counts(tiles: seq<ImgTile>): (r: seq<nat>)
    ensures |r| == |tiles| && forall k :: 0 <= k < |tiles| ==> r[k] == tiles[k].count
  {
    seq(|tiles|, k requires 0 <= k < |tiles| => tiles[k].count)
  }

  /** new_strip_offsets: f.tell() before each strip is appended to a file of `base` bytes. */
  function StripOffsets(base: nat, tiles: seq<ImgTile>): (r: seq<nat>)
    ensures |r| == |tiles|
  {
    seq(|tiles|, k requires 0 <= k < |tiles| => base + |ConcatData(tiles[..k])|)
  }

  lemma ConcatSnoc(tiles: seq<ImgTile>, k: nat)
    requires k < |tiles|
    ensures ConcatData(tiles[..k + 1]) == ConcatData(tiles[..k]) + tiles[k].data
  {
    assert tiles[..k + 1][..k] == tiles[..k];
  }

  lemma StripOffsetsSnoc(base: nat, tiles: seq<ImgTile>, k: nat)
    requires k < |tiles|
    ensures StripOffsets(base, tiles[..k + 1]) == StripOffsets(base, tiles[..k]) + [base + |ConcatData(tiles[..k])|]
  {
    forall j | 0 <= j < k
      ensures StripOffsets(base, tiles[..k + 1])[j] == StripOffsets(base, tiles[..k])[j]
    {
      assert tiles[..k + 1][..j] == tiles[..k][..j];
    }
    assert tiles[..k + 1][..k] == tiles[..k];
  }

  /**
   * The new strips lie end to end: the first at `base`, each next one right
   * after the previous, the last ending where the appended bytes end.
   */
  lemma StripOffsetsContiguous(base: nat, tiles: seq<ImgTile>)
    ensures |tiles| > 0 ==> StripOffsets(base, tiles)[0] == base
    ensures forall k :: 0 <= k < |tiles| - 1 ==>
              StripOffsets(base, tiles)[k + 1] == StripOffsets(base, tiles)[k] + |tiles[k].data|
    ensures |tiles| > 0 ==>
              StripOffsets(base, tiles)[|tiles| - 1] + |tiles[|tiles| - 1].data| == base + |ConcatData(tiles)|
  {
    if |tiles| > 0 {
      assert tiles[..0] == [];
      ConcatSnoc(tiles, |tiles| - 1);
      assert tiles[..|tiles|] == tiles;
    }
    forall k | 0 <= k < |tiles| - 1
      ensures StripOffsets(base, tiles)[k + 1] == StripOffsets(base, tiles)[k] + |tiles[k].data|
    {
      ConcatSnoc(tiles, k);
    }
  }

  /** Strip k of the appended bytes starts after the strips before it and holds that strip's data. */
  lemma {:induction false} ConcatAt(tiles: seq<ImgTile>, k: nat)
    requires k < |tiles|
    ensures |ConcatData(tiles[..k])| + |tiles[k].data| <= |ConcatData(tiles)|
    ensures ConcatData(tiles)[|ConcatData(tiles[..k])| .. |ConcatData(tiles[..k])| + |tiles[k].data|] == tiles[k].data
    decreases |tiles|
  {
    var n := |tiles|;
    var init := tiles[..n - 1];
    var o := |ConcatData(tiles[..k])|;
    if k == n - 1 {
      assert tiles[..k] == init;
    } else {
      ConcatAt(init, k);
      assert init[..k] == tiles[..k] && init[k] == tiles[k];
      var c := ConcatData(init);
      assert ConcatData(tiles) == c + tiles[n - 1].data;
      assert ConcatData(tiles)[o .. o + |tiles[k].data|] == c[o .. o + |tiles[k].data|];
    }
  }

  // ---------------------------------------------------------------------
  // replace_label_with_pseudonym_svs
  // ---------------------------------------------------------------------

  /** The old strips, sum(databytecounts) bytes from dataoffsets[0], overwritten with zeros. */
  function WipeLabel(s: seq<byte>, ifd: LabelIfd): seq<byte>
    requires |ifd.dataOffsets| > 0
  {
    Overwrite(s, ifd.dataOffsets[0], Zeros(SumOf(ifd.dataByteCounts)))
  }

  /** The Compression field is written only when the chosen code differs from the label's. */
  function WriteCompression(s: seq<byte>, isBigEndian: bool, ifd: LabelIfd): Written
  {
    var chosen := ChosenCompression(ifd.compression);
    if chosen == ifd.compression then Written(s, true)
    else if COMPRESSION_TAG !in ifd.tags then Written(s, false)
    else IntsWritten(s, ifd.tags[COMPRESSION_TAG], [chosen], isBigEndian)
  }

  /**
   * replace_label_with_pseudonym_svs for the compressed strips `tiles` of the
   * new label: wipe the old strips, write the Compression field if needed,
   * the new byte counts into the StripByteCounts table, append the strips,
   * and write where they start into the StripOffsets table. A missing first
   * offset or tag, or a number that does not fit a signed 4-byte field,
   * raises, which the source reports as False.
   */
  function ReplaceLabel(s: seq<byte>, isBigEndian: bool, ifd: LabelIfd, tiles: seq<ImgTile>): Written
  {
    if |ifd.dataOffsets| == 0 then Written(s, false)
    else
      var c := WriteCompression(WipeLabel(s, ifd), isBigEndian, ifd);
      if !c.ok then c
      else if STRIP_BYTE_COUNTS_TAG !in ifd.tags then Written(c.bytes, false)
      else
        var w := IntsWritten(c.bytes, ifd.tags[STRIP_BYTE_COUNTS_TAG], Counts(tiles), isBigEndian);
        if !w.ok then w
        else
          var appended := w.bytes + ConcatData(tiles);
          if STRIP_OFFSETS_TAG !in ifd.tags then Written(appended, false)
          else IntsWritten(appended, ifd.tags[STRIP_OFFSETS_TAG], StripOffsets(|w.bytes|, tiles), isBigEndian)
  }

  /** The loop that appends each strip at the end of the file and records where it starts. */
  method AppendStrips(f: SlideFile, tiles: seq<ImgTile>) returns (offsets: seq<nat>)
    modifies f
    ensures f.bytes == old(f.bytes) + ConcatData(tiles)
    ensures offsets == StripOffsets(|old(f.bytes)|, tiles)
  {
    offsets := [];
    for k := 0 to |tiles|
      invariant f.bytes == old(f.bytes) + ConcatData(tiles[..k])
      invariant offsets == StripOffsets(|old(f.bytes)|, tiles[..k])
    {
      var at := f.Append(tiles[k].data);
      ConcatSnoc(tiles, k);
      StripOffsetsSnoc(|old(f.bytes)|, tiles, k);
      offsets := offsets + [at];
    }
    assert tiles[..|tiles|] == tiles;
  }

  /** replace_label_with_pseudonym_svs on the open file; `ok` is false where the source raises. */
  method ReplaceLabelWithPseudonymSvs(f: SlideFile, ifd: LabelIfd, tiles: seq<ImgTile>) returns (ok: bool)
    modifies f
    ensures Written(f.bytes, ok) == ReplaceLabel(old(f.bytes), IsBigEndian(old(f.bytes)), ifd, tiles)
  {
    var isBigEndian := IsBigEndian(f.bytes);
    if |ifd.dataOffsets| == 0 {
      return false;
    }
    f.Write(ifd.dataOffsets[0], Zeros(SumOf(ifd.dataByteCounts)));
    var chosen := ChosenCompression(ifd.compression);
    if chosen != ifd.compression {
      if COMPRESSION_TAG !in ifd.tags {
        return false;
      }
      ok := f.WriteInts(ifd.tags[COMPRESSION_TAG], [chosen], isBigEndian);
      if !ok {
        return;
      }
    }
    if STRIP_BYTE_COUNTS_TAG !in ifd.tags {
      return false;
    }
    ok := f.WriteInts(ifd.tags[STRIP_BYTE_COUNTS_TAG], Counts(tiles), isBigEndian);
    if !ok {
      return;
    }
    var offsets := AppendStrips(f, tiles);
    if STRIP_OFFSETS_TAG !in ifd.tags {
      return false;
    }
    ok := f.WriteInts(ifd.tags[STRIP_OFFSETS_TAG], offsets, isBigEndian);
  }

  // ---------------------------------------------------------------------
  // back_up_image_svs
  // ---------------------------------------------------------------------

  /** The saved image data as read back from the store: each of the four keys may be missing. */
  datatype SavedImage = SavedImage(dataByteCounts: Option<seq<int>>, dataOffsets: Option<seq<int>>,
                                   compression: Option<int>, data: Option<seq<byte>>)

  /** The record has data_byte_counts, data_offsets, compression and data. */
  predicate HasImageKeys(saved: SavedImage)
  {
    saved.dataByteCounts.Some? && saved.dataOffsets.Some? && saved.compression.Some? && saved.data.Some?
  }

  /**
   * back_up_image_svs: with all four keys present, wipe the strips the IFD
   * now points at, write the saved compression, byte counts and offsets into
   * tags 259, 279 and 273, and the saved bytes from the first saved offset.
   */
  function BackUpImage(s: seq<byte>, isBigEndian: bool, ifd: LabelIfd, saved: SavedImage): (r: Written)
    ensures !HasImageKeys(saved) ==> r == Written(s, false)
  {
    if !HasImageKeys(saved) || |ifd.dataOffsets| == 0 then Written(s, false)
    else
      var z := WipeLabel(s, ifd);
      if COMPRESSION_TAG !in ifd.tags then Written(z, false)
      else
        var c := IntsWritten(z, ifd.tags[COMPRESSION_TAG], [saved.compression.value], isBigEndian);
        if !c.ok then c
        else if STRIP_BYTE_COUNTS_TAG !in ifd.tags then Written(c.bytes, false)
        else
          var w := IntsWritten(c.bytes, ifd.tags[STRIP_BYTE_COUNTS_TAG], saved.dataByteCounts.value, isBigEndian);
          if !w.ok then w
          else if STRIP_OFFSETS_TAG !in ifd.tags then Written(w.bytes, false)
          else
            var o := IntsWritten(w.bytes, ifd.tags[STRIP_OFFSETS_TAG], saved.dataOffsets.value, isBigEndian);
            var offsets := saved.dataOffsets.value;
            if !o.ok then o
            else if |offsets| == 0 || offsets[0] < 0 then Written(o.bytes, false)
            else Written(Overwrite(o.bytes, offsets[0], saved.data.value), true)
  }

  /** back_up_image_svs on the open file; `ok` is false where the source returns False or raises. */
  method BackUpImageSvs(f: SlideFile, saved: SavedImage, ifd: LabelIfd) returns (ok: bool)
    modifies f
    ensures Written(f.bytes, ok) == BackUpImage(old(f.bytes), IsBigEndian(old(f.bytes)), ifd, saved)
  {
    if !HasImageKeys(saved) {
      return false;
    }
    var isBigEndian := IsBigEndian(f.bytes);
    if |ifd.dataOffsets| == 0 {
      return false;
    }
    f.Write(ifd.dataOffsets[0], Zeros(SumOf(ifd.dataByteCounts)));
    if COMPRESSION_TAG !in ifd.tags {
      return false;
    }
    ok := f.WriteInts(ifd.tags[COMPRESSION_TAG], [saved.compression.value], isBigEndian);
    if !ok {
      return;
    }
    if STRIP_BYTE_COUNTS_TAG !in ifd.tags {
      return false;
    }
    ok := f.WriteInts(ifd.tags[STRIP_BYTE_COUNTS_TAG], saved.dataByteCounts.value, isBigEndian);
    if !ok {
      return;
    }
    if STRIP_OFFSETS_TAG !in ifd.tags {
      return false;
    }
    ok := f.WriteInts(ifd.tags[STRIP_OFFSETS_TAG], saved.dataOffsets.value, isBigEndian);
    if !ok {
      return;
    }
    var offsets := saved.dataOffsets.value;
    if |offsets| == 0 || offsets[0] < 0 {
      return false;
    }
    f.Write(offsets[0], saved.data.value);
  }

  // ---------------------------------------------------------------------
  // Where the writes land
  // ---------------------------------------------------------------------

  /** The byte range [at, at + len) of the file. */
  datatype Region = Region(at: nat, len: nat)

  /** Byte i lies in one of the regions. */
  predicate InAny(i: int, gs: seq<Region>)
    decreases |gs|
  {
    gs != [] && (gs[0].at <= i < gs[0].at + gs[0].len || InAny(i, gs[1..]))
  }

  lemma {:induction false} InAnyAt(i: int, gs: seq<Region>, k: nat)
    requires k < |gs| && gs[k].at <= i < gs[k].at + gs[k].len
    ensures InAny(i, gs)
    decreases k
  {
    if k > 0 {
      InAnyAt(i, gs[1..], k - 1);
    }
  }

  /** x extends the file s and agrees with it on every byte of s outside the regions. */
  predicate SameOutside(x: seq<byte>, s: seq<byte>, gs: seq<Region>)
  {
    |s| <= |x| && forall i | 0 <= i < |s| && !InAny(i, gs) :: x[i] == s[i]
  }

  /** Every byte of x from n on is zero. */
  predicate ZeroPast(x: seq<byte>, n: nat)
  {
    n <= |x| && forall i | n <= i < |x| :: x[i] == 0
  }

  /** A write inside one of the regions keeps agreement outside them. */
  lemma WriteWithin(x: seq<byte>, s: seq<byte>, gs: seq<Region>, k: nat, p: nat, d: seq<byte>)
    requires SameOutside(x, s, gs)
    requires k < |gs| && gs[k].at <= p && p + |d| <= gs[k].at + gs[k].len
    ensures SameOutside(Overwrite(x, p, d), s, gs)
  {
    OverwriteAt(x, p, d);
    forall i | 0 <= i < |s| && p <= i < p + |d|
      ensures InAny(i, gs)
    {
      InAnyAt(i, gs, k);
    }
  }

  /** A run of 4-byte writes inside one of the regions succeeds and keeps agreement outside them. */
  lemma IntsWithin(x: seq<byte>, s: seq<byte>, gs: seq<Region>, k: nat, p: nat, ns: seq<int>, isBigEndian: bool)
    requires forall j :: 0 <= j < |ns| ==> InSignedRange(ns[j], 4)
    requires SameOutside(x, s, gs)
    requires k < |gs| && gs[k].at <= p && p + 4 * |ns| <= gs[k].at + gs[k].len
    ensures IntsWritten(x, p, ns, isBigEndian).ok
    ensures SameOutside(IntsWritten(x, p, ns, isBigEndian).bytes, s, gs)
    ensures p + 4 * |ns| <= |x| ==> |IntsWritten(x, p, ns, isBigEndian).bytes| == |x|
  {
    WriteIntsIsOverwrite(x, p, ns, isBigEndian);
    WriteWithin(x, s, gs, k, p, EncodeInts(ns, isBigEndian));
  }

  /**
   * Writing back the original bytes of the first region takes it off the
   * list, and leaves the length and the zeros past the old end alone.
   */
  lemma WriteBack(x: seq<byte>, s: seq<byte>, g: Region, rest: seq<Region>, d: seq<byte>)
    requires g.at + g.len <= |s| && d == s[g.at .. g.at + g.len]
    requires SameOutside(x, s, [g] + rest) && ZeroPast(x, |s|)
    ensures var r := Overwrite(x, g.at, d);
      |r| == |x| && SameOutside(r, s, rest) && ZeroPast(r, |s|)
  {
    OverwriteAt(x, g.at, d);
    assert ([g] + rest)[1..] == rest;
  }

  /** Encoding the numbers a region of the original holds gives back its bytes, so writing them takes it off the list. */
  lemma IntsBack(x: seq<byte>, s: seq<byte>, g: Region, rest: seq<Region>, ns: seq<int>, isBigEndian: bool)
    requires g.len == 4 * |ns| && g.at + g.len <= |s|
    requires forall j :: 0 <= j < |ns| ==> Read32(s, g.at + 4 * j, isBigEndian) == ns[j]
    requires SameOutside(x, s, [g] + rest) && ZeroPast(x, |s|)
    ensures forall j :: 0 <= j < |ns| ==> InSignedRange(ns[j], 4)
    ensures var r := Overwrite(x, g.at, EncodeInts(ns, isBigEndian));
      |r| == |x| && SameOutside(r, s, rest) && ZeroPast(r, |s|)
  {
    TableReEncode(s, g.at, ns, isBigEndian);
    WriteBack(x, s, g, rest, EncodeInts(ns, isBigEndian));
  }

  /**
   * The Compression field, the StripByteCounts and StripOffsets tables for n
   * strips, and the old strips, in the order back_up_image_svs rewrites them.
   */
  function LabelRegions(ifd: LabelIfd, n: nat): seq<Region>
    requires |ifd.dataOffsets| > 0
    requires COMPRESSION_TAG in ifd.tags && STRIP_BYTE_COUNTS_TAG in ifd.tags && STRIP_OFFSETS_TAG in ifd.tags
  {
    [Region(ifd.tags[COMPRESSION_TAG], 4), Region(ifd.tags[STRIP_BYTE_COUNTS_TAG], 4 * n),
     Region(ifd.tags[STRIP_OFFSETS_TAG], 4 * n), Region(ifd.dataOffsets[0], SumOf(ifd.dataByteCounts))]
  }

  /** The region lies in the file after the 2-byte byte-order mark. */
  predicate Inside(g: Region, s: seq<byte>)
  {
    2 <= g.at && g.at + g.len <= |s|
  }

  predicate Apart(g: Region, h: Region)
  {
    g.at + g.len <= h.at || h.at + h.len <= g.at
  }

  /**
   * A label IFD with n strips whose three tags are present, and whose
   * Compression field, tables and strips lie inside the file and apart from
   * one another.
   */
  predicate Placed(s: seq<byte>, ifd: LabelIfd, n: nat)
  {
    && |ifd.dataOffsets| > 0
    && COMPRESSION_TAG in ifd.tags && STRIP_BYTE_COUNTS_TAG in ifd.tags && STRIP_OFFSETS_TAG in ifd.tags
    && var gs := LabelRegions(ifd, n);
       && Inside(gs[0], s) && Inside(gs[1], s) && Inside(gs[2], s) && Inside(gs[3], s)
       && Apart(gs[0], gs[1]) && Apart(gs[0], gs[2]) && Apart(gs[0], gs[3])
       && Apart(gs[1], gs[2]) && Apart(gs[1], gs[3]) && Apart(gs[2], gs[3])
  }

  /** New strips whose counts and offsets fit signed 4-byte fields. */
  predicate Fits(s: seq<byte>, tiles: seq<ImgTile>)
  {
    && (forall k :: 0 <= k < |tiles| ==> tiles[k].count < 0x8000_0000)
    && |s| + |ConcatData(tiles)| < 0x8000_0000
  }

  /** The numbers written into the tables fit signed 4-byte fields. */
  lemma TablesFit(s: seq<byte>, tiles: seq<ImgTile>)
    requires Fits(s, tiles)
    ensures forall k :: 0 <= k < |tiles| ==> InSignedRange(Counts(tiles)[k], 4)
    ensures forall k :: 0 <= k < |tiles| ==> InSignedRange(StripOffsets(|s|, tiles)[k], 4)
  {
    forall k | 0 <= k < |tiles|
      ensures InSignedRange(Counts(tiles)[k], 4) && InSignedRange(StripOffsets(|s|, tiles)[k], 4)
    {
      ConcatAt(tiles, k);
      Signed32(Counts(tiles)[k]);
      Signed32(StripOffsets(|s|, tiles)[k]);
    }
  }

  /**
   * For a placed IFD and strips that fit, every step of the replacement
   * succeeds: the file keeps its length until the strips are appended, and
   * each step is one overwrite of the previous bytes (z after the wipe, c
   * after the Compression field, w after the StripByteCounts table, r after
   * the append and the StripOffsets table).
   */
  lemma ReplaceLabelStages(s: seq<byte>, isBigEndian: bool, ifd: LabelIfd, tiles: seq<ImgTile>)
    returns (z: seq<byte>, c: seq<byte>, w: seq<byte>, t: seq<byte>, r: seq<byte>,
             enc: seq<byte>, ec: seq<byte>, eo: seq<byte>)
    requires Placed(s, ifd, |tiles|) && Fits(s, tiles)
    ensures forall k :: 0 <= k < |tiles| ==> InSignedRange(Counts(tiles)[k], 4)
    ensures forall k :: 0 <= k < |tiles| ==> InSignedRange(StripOffsets(|s|, tiles)[k], 4)
    ensures InSignedRange(ChosenCompression(ifd.compression), 4)
    ensures z == WipeLabel(s, ifd) && t == ConcatData(tiles)
    ensures enc == EncodeInts([ChosenCompression(ifd.compression)], isBigEndian) && |enc| == 4
    ensures ec == EncodeInts(Counts(tiles), isBigEndian) && |ec| == 4 * |tiles|
    ensures eo == EncodeInts(StripOffsets(|s|, tiles), isBigEndian) && |eo| == 4 * |tiles|
    ensures |z| == |s| && |c| == |s| && |w| == |s|
    ensures c == if ChosenCompression(ifd.compression) == ifd.compression then z
                 else Overwrite(z, ifd.tags[COMPRESSION_TAG], enc)
    ensures w == Overwrite(c, ifd.tags[STRIP_BYTE_COUNTS_TAG], ec)
    ensures r == Overwrite(w + t, ifd.tags[STRIP_OFFSETS_TAG], eo)
    ensures ReplaceLabel(s, isBigEndian, ifd, tiles) == Written(r, true)
  {
    z := WipeLabel(s, ifd);
    var chosen := ChosenCompression(ifd.compression);
    Signed32(chosen);
    enc := EncodeInts([chosen], isBigEndian);
    WriteIntsIsOverwrite(z, ifd.tags[COMPRESSION_TAG], [chosen], isBigEndian);
    c := WriteCompression(z, isBigEndian, ifd).bytes;
    TablesFit(s, tiles);
    ec := EncodeInts(Counts(tiles), isBigEndian);
    WriteIntsIsOverwrite(c, ifd.tags[STRIP_BYTE_COUNTS_TAG], Counts(tiles), isBigEndian);
    w := IntsWritten(c, ifd.tags[STRIP_BYTE_COUNTS_TAG], Counts(tiles), isBigEndian).bytes;
    t := ConcatData(tiles);
    eo := EncodeInts(StripOffsets(|s|, tiles), isBigEndian);
    WriteIntsIsOverwrite(w + t, ifd.tags[STRIP_OFFSETS_TAG], StripOffsets(|s|, tiles), isBigEndian);
    r := Overwrite(w + t, ifd.tags[STRIP_OFFSETS_TAG], eo);
  }

  /** Appending keeps every slice of the old bytes. */
  lemma AppendKeeps(w: seq<byte>, t: seq<byte>, a: nat, b: nat)
    requires a <= b <= |w|
    ensures (w + t)[a..b] == w[a..b]
  {
  }

  /** Bytes placed at a survive a later write at q and an append. */
  lemma Survives(c: seq<byte>, a: nat, e: seq<byte>, q: nat, eo: seq<byte>, t: seq<byte>)
    requires a + |e| <= |c| && c[a .. a + |e|] == e
    requires q + |eo| <= |c| && (q + |eo| <= a || a + |e| <= q)
    ensures a + |e| <= |Overwrite(c + t, q, eo)|
    ensures Overwrite(c + t, q, eo)[a .. a + |e|] == e
  {
    AppendKeeps(c, t, a, a + |e|);
    OverwriteKeeps(c + t, q, eo, a, a + |e|);
  }

  /** Bytes already in place survive the compression write, the table writes and the append. */
  lemma KeptThrough(x: seq<byte>, c: seq<byte>, w: seq<byte>, t: seq<byte>, r: seq<byte>, at: nat, e: seq<byte>,
                    cp: nat, enc: seq<byte>, p: nat, ec: seq<byte>, q: nat, eo: seq<byte>)
    requires at + |e| <= |x| && x[at .. at + |e|] == e
    requires cp + |enc| <= |x| && p + |ec| <= |x| && q + |eo| <= |x|
    requires c == x || (c == Overwrite(x, cp, enc) && (cp + |enc| <= at || at + |e| <= cp))
    requires p + |ec| <= at || at + |e| <= p
    requires q + |eo| <= at || at + |e| <= q
    requires w == Overwrite(c, p, ec) && r == Overwrite(w + t, q, eo)
    ensures at + |e| <= |r| && r[at .. at + |e|] == e
  {
    if c != x {
      OverwriteKeeps(x, cp, enc, at, at + |e|);
    }
    OverwriteKeeps(c, p, ec, at, at + |e|);
    Survives(w, at, e, q, eo, t);
  }

  // ---------------------------------------------------------------------
  // What replace_label_with_pseudonym_svs leaves in the file
  // ---------------------------------------------------------------------

  /** The new strips follow the old end of the file, and nothing else is appended. */
  lemma ReplaceLabelAppends(s: seq<byte>, isBigEndian: bool, ifd: LabelIfd, tiles: seq<ImgTile>)
    requires Placed(s, ifd, |tiles|) && Fits(s, tiles)
    ensures var r := ReplaceLabel(s, isBigEndian, ifd, tiles);
      r.ok && |r.bytes| == |s| + |ConcatData(tiles)| && r.bytes[|s|..] == ConcatData(tiles)
  {
    var w, t, eo, r := ReplaceLabelTail(s, isBigEndian, ifd, tiles);
    OverwriteKeeps(w + t, ifd.tags[STRIP_OFFSETS_TAG], eo, |w|, |w| + |t|);
  }

  lemma ReplaceLabelTail(s: seq<byte>, isBigEndian: bool, ifd: LabelIfd, tiles: seq<ImgTile>)
    returns (w: seq<byte>, t: seq<byte>, eo: seq<byte>, r: seq<byte>)
    requires Placed(s, ifd, |tiles|) && Fits(s, tiles)
    ensures |w| == |s| && t == ConcatData(tiles) && |eo| == 4 * |tiles|
    ensures r == Overwrite(w + t, ifd.tags[STRIP_OFFSETS_TAG], eo)
    ensures ReplaceLabel(s, isBigEndian, ifd, tiles) == Written(r, true)
  {
    var z, c, enc, ec;
    z, c, w, t, r, enc, ec, eo := ReplaceLabelStages(s, isBigEndian, ifd, tiles);
  }

  /** Strip k lies at the offset recorded for it. */
  lemma ReplaceLabelStripAt(s: seq<byte>, isBigEndian: bool, ifd: LabelIfd, tiles: seq<ImgTile>, k: nat)
    requires Placed(s, ifd, |tiles|) && Fits(s, tiles) && k < |tiles|
    ensures var r := ReplaceLabel(s, isBigEndian, ifd, tiles).bytes;
      var at := StripOffsets(|s|, tiles)[k];
      at + |tiles[k].data| <= |r| && r[at .. at + |tiles[k].data|] == tiles[k].data
  {
    ReplaceLabelAppends(s, isBigEndian, ifd, tiles);
    StripAt(ReplaceLabel(s, isBigEndian, ifd, tiles).bytes, |s|, tiles, k);
  }

  /** Bytes ending in the strips' concatenation hold strip k at its offset. */
  lemma StripAt(r: seq<byte>, base: nat, tiles: seq<ImgTile>, k: nat)
    requires |r| == base + |ConcatData(tiles)| && r[base..] == ConcatData(tiles) && k < |tiles|
    ensures StripOffsets(base, tiles)[k] + |tiles[k].data| <= |r|
    ensures r[StripOffsets(base, tiles)[k] .. StripOffsets(base, tiles)[k] + |tiles[k].data|] == tiles[k].data
  {
    ConcatAt(tiles, k);
    var o := |ConcatData(tiles[..k])|;
    SliceOfSlice(r, base, |r|, o, o + |tiles[k].data|);
  }

  /** Entry k of the StripByteCounts table reads the byte count of strip k. */
  lemma ReplaceLabelCountAt(s: seq<byte>, isBigEndian: bool, ifd: LabelIfd, tiles: seq<ImgTile>, k: nat)
    requires Placed(s, ifd, |tiles|) && Fits(s, tiles) && k < |tiles|
    ensures var r := ReplaceLabel(s, isBigEndian, ifd, tiles).bytes;
      ifd.tags[STRIP_BYTE_COUNTS_TAG] + 4 * |tiles| <= |r| &&
      Read32(r, ifd.tags[STRIP_BYTE_COUNTS_TAG] + 4 * k, isBigEndian) == Counts(tiles)[k]
  {
    var z, c, w, t, r, enc, ec, eo := ReplaceLabelStages(s, isBigEndian, ifd, tiles);
    TablesPlaced(s, ifd, |tiles|);
    FirstTableLands(c, w, t, r, ifd.tags[STRIP_BYTE_COUNTS_TAG], ec, ifd.tags[STRIP_OFFSETS_TAG], eo,
                    Counts(tiles), isBigEndian, k);
  }

  /** Entry k of the StripOffsets table reads where strip k starts. */
  lemma ReplaceLabelOffsetAt(s: seq<byte>, isBigEndian: bool, ifd: LabelIfd, tiles: seq<ImgTile>, k: nat)
    requires Placed(s, ifd, |tiles|) && Fits(s, tiles) && k < |tiles|
    ensures var r := ReplaceLabel(s, isBigEndian, ifd, tiles).bytes;
      ifd.tags[STRIP_OFFSETS_TAG] + 4 * |tiles| <= |r| &&
      Read32(r, ifd.tags[STRIP_OFFSETS_TAG] + 4 * k, isBigEndian) == StripOffsets(|s|, tiles)[k]
  {
    var z, c, w, t, r, enc, ec, eo := ReplaceLabelStages(s, isBigEndian, ifd, tiles);
    LastTableLands(w, t, r, ifd.tags[STRIP_OFFSETS_TAG], eo, StripOffsets(|s|, tiles), isBigEndian, k);
  }

  /** The two strip tables of a placed IFD lie inside the file and apart. */
  lemma TablesPlaced(s: seq<byte>, ifd: LabelIfd, n: nat)
    requires Placed(s, ifd, n)
    ensures ifd.tags[STRIP_BYTE_COUNTS_TAG] + 4 * n <= |s| && ifd.tags[STRIP_OFFSETS_TAG] + 4 * n <= |s|
    ensures Apart(Region(ifd.tags[STRIP_BYTE_COUNTS_TAG], 4 * n), Region(ifd.tags[STRIP_OFFSETS_TAG], 4 * n))
  {
    var gs := LabelRegions(ifd, n);
    assert gs[1] == Region(ifd.tags[STRIP_BYTE_COUNTS_TAG], 4 * n);
    assert gs[2] == Region(ifd.tags[STRIP_OFFSETS_TAG], 4 * n);
  }

  /** A table written before the append and another write reads back entry k. */
  lemma FirstTableLands(c: seq<byte>, w: seq<byte>, t: seq<byte>, r: seq<byte>,
                        p: nat, ec: seq<byte>, q: nat, eo: seq<byte>, ns: seq<int>, isBigEndian: bool, k: nat)
    requires forall j :: 0 <= j < |ns| ==> InSignedRange(ns[j], 4)
    requires ec == EncodeInts(ns, isBigEndian) && |ec| == 4 * |ns| && k < |ns|
    requires p + |ec| <= |c| && q + |eo| <= |c| && (p + |ec| <= q || q + |eo| <= p)
    requires w == Overwrite(c, p, ec) && r == Overwrite(w + t, q, eo)
    ensures p + 4 * |ns| <= |r| && Read32(r, p + 4 * k, isBigEndian) == ns[k]
  {
    OverwriteReadBack(c, p, ec);
    Survives(w, p, ec, q, eo, t);
    ReadAt(r, p, ns, isBigEndian, k);
  }

  /** A table written after the append reads back entry k. */
  lemma LastTableLands(w: seq<byte>, t: seq<byte>, r: seq<byte>, q: nat, eo: seq<byte>,
                       ns: seq<int>, isBigEndian: bool, k: nat)
    requires forall j :: 0 <= j < |ns| ==> InSignedRange(ns[j], 4)
    requires eo == EncodeInts(ns, isBigEndian) && |eo| == 4 * |ns| && k < |ns|
    requires q + |eo| <= |w| && r == Overwrite(w + t, q, eo)
    ensures q + 4 * |ns| <= |r| && Read32(r, q + 4 * k, isBigEndian) == ns[k]
  {
    OverwriteReadBack(w + t, q, eo);
    ReadAt(r, q, ns, isBigEndian, k);
  }

  /** Number k of an encoded table reads back. */
  lemma ReadAt(r: seq<byte>, pos: nat, ns: seq<int>, isBigEndian: bool, k: nat)
    requires forall j :: 0 <= j < |ns| ==> InSignedRange(ns[j], 4)
    requires pos + 4 * |ns| <= |r| && r[pos .. pos + 4 * |ns|] == EncodeInts(ns, isBigEndian)
    requires k < |ns|
    ensures Read32(r, pos + 4 * k, isBigEndian) == ns[k]
  {
    ReadEncoded(r, pos, ns, isBigEndian);
  }

  /**
   * The Compression field reads the chosen code: the label's own when it
   * can be produced, Adobe Deflate otherwise.
   */
  lemma ReplaceLabelCompression(s: seq<byte>, isBigEndian: bool, ifd: LabelIfd, tiles: seq<ImgTile>)
    requires Placed(s, ifd, |tiles|) && Fits(s, tiles)
    requires Read32(s, ifd.tags[COMPRESSION_TAG], isBigEndian) == ifd.compression
    ensures var r := ReplaceLabel(s, isBigEndian, ifd, tiles).bytes;
      ifd.tags[COMPRESSION_TAG] + 4 <= |r| &&
      Read32(r, ifd.tags[COMPRESSION_TAG], isBigEndian) == ChosenCompression(ifd.compression)
  {
    var z, c, w, t, r, enc, ec, eo := ReplaceLabelStages(s, isBigEndian, ifd, tiles);
    if ChosenCompression(ifd.compression) == ifd.compression {
      FieldKept(s, z, c, w, t, r, ifd.dataOffsets[0], SumOf(ifd.dataByteCounts), ifd.tags[COMPRESSION_TAG],
                ifd.tags[STRIP_BYTE_COUNTS_TAG], ec, ifd.tags[STRIP_OFFSETS_TAG], eo, isBigEndian);
    } else {
      FieldLands(z, c, w, t, r, ifd.tags[COMPRESSION_TAG], ChosenCompression(ifd.compression), enc,
                 ifd.tags[STRIP_BYTE_COUNTS_TAG], ec, ifd.tags[STRIP_OFFSETS_TAG], eo, isBigEndian);
    }
  }

  /** A field the wipe, the table writes and the append do not touch reads as before. */
  lemma FieldKept(s: seq<byte>, z: seq<byte>, c: seq<byte>, w: seq<byte>, t: seq<byte>, r: seq<byte>,
                  d: nat, n: nat, cp: nat, p: nat, ec: seq<byte>, q: nat, eo: seq<byte>, isBigEndian: bool)
    requires d + n <= |s| && cp + 4 <= |s| && p + |ec| <= |s| && q + |eo| <= |s|
    requires cp + 4 <= d || d + n <= cp
    requires cp + 4 <= p || p + |ec| <= cp
    requires cp + 4 <= q || q + |eo| <= cp
    requires z == Overwrite(s, d, Zeros(n)) && c == z
    requires w == Overwrite(c, p, ec) && r == Overwrite(w + t, q, eo)
    ensures cp + 4 <= |r| && Read32(r, cp, isBigEndian) == Read32(s, cp, isBigEndian)
  {
    OverwriteKeeps(s, d, Zeros(n), cp, cp + 4);
    KeptThrough(z, c, w, t, r, cp, s[cp .. cp + 4], cp, [], p, ec, q, eo);
    SameRead(s, r, cp, isBigEndian);
  }

  /** The code written into the Compression field survives the table writes and the append. */
  lemma FieldLands(z: seq<byte>, c: seq<byte>, w: seq<byte>, t: seq<byte>, r: seq<byte>,
                   cp: nat, v: int, enc: seq<byte>, p: nat, ec: seq<byte>, q: nat, eo: seq<byte>, isBigEndian: bool)
    requires InSignedRange(v, 4) && enc == EncodeInts([v], isBigEndian) && |enc| == 4
    requires cp + 4 <= |z| && p + |ec| <= |z| && q + |eo| <= |z|
    requires cp + 4 <= p || p + |ec| <= cp
    requires cp + 4 <= q || q + |eo| <= cp
    requires c == Overwrite(z, cp, enc)
    requires w == Overwrite(c, p, ec) && r == Overwrite(w + t, q, eo)
    ensures cp + 4 <= |r| && Read32(r, cp, isBigEndian) == v
  {
    OverwriteReadBack(z, cp, enc);
    KeptThrough(c, c, w, t, r, cp, enc, cp, enc, p, ec, q, eo);
    ReadOne(r, cp, v, isBigEndian);
  }

  /** A single encoded number reads back. */
  lemma ReadOne(r: seq<byte>, pos: nat, v: int, isBigEndian: bool)
    requires InSignedRange(v, 4)
    requires pos + 4 <= |r| && r[pos .. pos + 4] == EncodeInts([v], isBigEndian)
    ensures Read32(r, pos, isBigEndian) == v
  {
    ReadEncoded(r, pos, [v], isBigEndian);
    assert Read32(r, pos + 4 * 0, isBigEndian) == [v][0];
  }

  /** The same four bytes read the same number. */
  lemma SameRead(s: seq<byte>, r: seq<byte>, pos: nat, isBigEndian: bool)
    requires pos + 4 <= |s| && pos + 4 <= |r| && r[pos .. pos + 4] == s[pos .. pos + 4]
    ensures Read32(r, pos, isBigEndian) == Read32(s, pos, isBigEndian)
  {
  }

  /** The old strips read as zeros afterwards. */
  lemma ReplaceLabelWipes(s: seq<byte>, isBigEndian: bool, ifd: LabelIfd, tiles: seq<ImgTile>)
    requires Placed(s, ifd, |tiles|) && Fits(s, tiles)
    ensures ZeroRun(ReplaceLabel(s, isBigEndian, ifd, tiles).bytes, ifd.dataOffsets[0], SumOf(ifd.dataByteCounts))
  {
    var z, c, w, t, r, enc, ec, eo := ReplaceLabelStages(s, isBigEndian, ifd, tiles);
    ZerosKept(s, z, c, w, t, r, ifd.dataOffsets[0], SumOf(ifd.dataByteCounts), ifd.tags[COMPRESSION_TAG], enc,
              ifd.tags[STRIP_BYTE_COUNTS_TAG], ec, ifd.tags[STRIP_OFFSETS_TAG], eo);
  }

  /** The zeros the wipe puts down survive the later writes and the append. */
  lemma ZerosKept(s: seq<byte>, z: seq<byte>, c: seq<byte>, w: seq<byte>, t: seq<byte>, r: seq<byte>,
                  d: nat, n: nat, cp: nat, enc: seq<byte>, p: nat, ec: seq<byte>, q: nat, eo: seq<byte>)
    requires d + n <= |s| && cp + |enc| <= |s| && p + |ec| <= |s| && q + |eo| <= |s|
    requires cp + |enc| <= d || d + n <= cp
    requires p + |ec| <= d || d + n <= p
    requires q + |eo| <= d || d + n <= q
    requires z == Overwrite(s, d, Zeros(n)) && (c == z || c == Overwrite(z, cp, enc))
    requires w == Overwrite(c, p, ec) && r == Overwrite(w + t, q, eo)
    ensures ZeroRun(r, d, n)
  {
    OverwriteReadBack(s, d, Zeros(n));
    KeptThrough(z, c, w, t, r, d, Zeros(n), cp, enc, p, ec, q, eo);
    assert r[d .. d + n] == Zeros(n);
    forall i | d <= i < d + n
      ensures r[i] == 0
    {
      assert r[i] == r[d .. d + n][i - d];
    }
  }

  /** The n bytes from d are all zero. */
  predicate ZeroRun(r: seq<byte>, d: nat, n: nat)
  {
    d + n <= |r| && forall i | d <= i < d + n :: r[i] == 0
  }

  /**
   * Every byte of the old file outside the Compression field, the two
   * tables and the old strips is unchanged.
   */
  lemma ReplaceLabelFrame(s: seq<byte>, isBigEndian: bool, ifd: LabelIfd, tiles: seq<ImgTile>)
    requires Placed(s, ifd, |tiles|) && Fits(s, tiles)
    ensures SameOutside(ReplaceLabel(s, isBigEndian, ifd, tiles).bytes, s, LabelRegions(ifd, |tiles|))
  {
    var z, c, w, t, r, enc, ec, eo := ReplaceLabelStages(s, isBigEndian, ifd, tiles);
    WithinThrough(s, LabelRegions(ifd, |tiles|), z, c, w, t, r, ifd.dataOffsets[0], SumOf(ifd.dataByteCounts),
                  ifd.tags[COMPRESSION_TAG], enc, ifd.tags[STRIP_BYTE_COUNTS_TAG], ec, ifd.tags[STRIP_OFFSETS_TAG], eo);
  }

  /** The byte-order mark, and with it the byte order, is unchanged. */
  lemma ReplaceLabelKeepsOrder(s: seq<byte>, isBigEndian: bool, ifd: LabelIfd, tiles: seq<ImgTile>)
    requires Placed(s, ifd, |tiles|) && Fits(s, tiles)
    ensures IsBigEndian(ReplaceLabel(s, isBigEndian, ifd, tiles).bytes) == IsBigEndian(s)
  {
    ReplaceLabelFrame(s, isBigEndian, ifd, tiles);
    MarkKept(ReplaceLabel(s, isBigEndian, ifd, tiles).bytes, s, LabelRegions(ifd, |tiles|));
  }

  /** The wipe, the compression write, the table writes and the append keep agreement outside the regions. */
  lemma WithinThrough(s: seq<byte>, gs: seq<Region>, z: seq<byte>, c: seq<byte>, w: seq<byte>, t: seq<byte>, r: seq<byte>,
                      d: nat, n: nat, cp: nat, enc: seq<byte>, p: nat, ec: seq<byte>, q: nat, eo: seq<byte>)
    requires |gs| == 4
    requires gs[0].at <= cp && cp + |enc| <= gs[0].at + gs[0].len
    requires gs[1].at <= p && p + |ec| <= gs[1].at + gs[1].len
    requires gs[2].at <= q && q + |eo| <= gs[2].at + gs[2].len
    requires gs[3].at <= d && d + n <= gs[3].at + gs[3].len
    requires z == Overwrite(s, d, Zeros(n)) && (c == z || c == Overwrite(z, cp, enc))
    requires w == Overwrite(c, p, ec) && r == Overwrite(w + t, q, eo)
    ensures SameOutside(r, s, gs)
  {
    WriteWithin(s, s, gs, 3, d, Zeros(n));
    if c != z {
      WriteWithin(z, s, gs, 0, cp, enc);
    }
    WriteWithin(c, s, gs, 1, p, ec);
    AppendWithin(w, t, s, gs);
    WriteWithin(w + t, s, gs, 2, q, eo);
  }

  /** Appending keeps agreement outside the regions. */
  lemma AppendWithin(w: seq<byte>, t: seq<byte>, s: seq<byte>, gs: seq<Region>)
    requires SameOutside(w, s, gs)
    ensures SameOutside(w + t, s, gs)
  {
  }

  /** Regions that start after the byte-order mark leave it alone. */
  lemma MarkKept(r: seq<byte>, s: seq<byte>, gs: seq<Region>)
    requires SameOutside(r, s, gs) && 2 <= |s|
    requires forall k :: 0 <= k < |gs| ==> 2 <= gs[k].at
    ensures IsBigEndian(r) == IsBigEndian(s)
  {
    NotInAny(0, gs);
    NotInAny(1, gs);
  }

  lemma {:induction false} NotInAny(i: int, gs: seq<Region>)
    requires forall k :: 0 <= k < |gs| ==> i < gs[k].at
    ensures !InAny(i, gs)
    decreases |gs|
  {
    if gs != [] {
      NotInAny(i, gs[1..]);
    }
  }

  // ---------------------------------------------------------------------
  // back_up_image_svs after replace_label_with_pseudonym_svs
  // ---------------------------------------------------------------------

  /** sum([strip.count for strip in img_data]) is the number of bytes appended. */
  lemma {:induction false} SumCounts(tiles: seq<ImgTile>)
    requires forall k :: 0 <= k < |tiles| ==> tiles[k].count == |tiles[k].data|
    ensures SumOf(Counts(tiles)) == |ConcatData(tiles)|
    decreases |tiles|
  {
    if tiles != [] {
      var init := tiles[..|tiles| - 1];
      SumCounts(init);
      assert Counts(tiles)[..|tiles| - 1] == Counts(init);
    }
  }

  /**
   * For a saved record with all four keys whose numbers fit signed 4-byte
   * fields, every step of back_up_image_svs succeeds, and each is one
   * overwrite of the previous bytes.
   */
  lemma BackUpStages(s: seq<byte>, isBigEndian: bool, ifd: LabelIfd, saved: SavedImage, at: nat, data: seq<byte>)
    returns (z: seq<byte>, c: seq<byte>, w: seq<byte>, o: seq<byte>)
    requires HasImageKeys(saved) && |ifd.dataOffsets| > 0
    requires COMPRESSION_TAG in ifd.tags && STRIP_BYTE_COUNTS_TAG in ifd.tags && STRIP_OFFSETS_TAG in ifd.tags
    requires InSignedRange(saved.compression.value, 4)
    requires forall k :: 0 <= k < |saved.dataByteCounts.value| ==> InSignedRange(saved.dataByteCounts.value[k], 4)
    requires forall k :: 0 <= k < |saved.dataOffsets.value| ==> InSignedRange(saved.dataOffsets.value[k], 4)
    requires |saved.dataOffsets.value| > 0 && saved.dataOffsets.value[0] == at && saved.data.value == data
    ensures z == WipeLabel(s, ifd)
    ensures c == Overwrite(z, ifd.tags[COMPRESSION_TAG], EncodeInts([saved.compression.value], isBigEndian))
    ensures w == Overwrite(c, ifd.tags[STRIP_BYTE_COUNTS_TAG], EncodeInts(saved.dataByteCounts.value, isBigEndian))
    ensures o == Overwrite(w, ifd.tags[STRIP_OFFSETS_TAG], EncodeInts(saved.dataOffsets.value, isBigEndian))
    ensures BackUpImage(s, isBigEndian, ifd, saved) == Written(Overwrite(o, at, data), true)
  {
    z := WipeLabel(s, ifd);
    WriteIntsIsOverwrite(z, ifd.tags[COMPRESSION_TAG], [saved.compression.value], isBigEndian);
    c := Overwrite(z, ifd.tags[COMPRESSION_TAG], EncodeInts([saved.compression.value], isBigEndian));
    WriteIntsIsOverwrite(c, ifd.tags[STRIP_BYTE_COUNTS_TAG], saved.dataByteCounts.value, isBigEndian);
    w := Overwrite(c, ifd.tags[STRIP_BYTE_COUNTS_TAG], EncodeInts(saved.dataByteCounts.value, isBigEndian));
    WriteIntsIsOverwrite(w, ifd.tags[STRIP_OFFSETS_TAG], saved.dataOffsets.value, isBigEndian);
    o := Overwrite(w, ifd.tags[STRIP_OFFSETS_TAG], EncodeInts(saved.dataOffsets.value, isBigEndian));
  }

  /** The saved bytes end up at the first saved offset, whatever else the restore wrote. */
  lemma BackUpImageData(s: seq<byte>, isBigEndian: bool, ifd: LabelIfd, saved: SavedImage)
    requires HasImageKeys(saved) && |ifd.dataOffsets| > 0
    requires COMPRESSION_TAG in ifd.tags && STRIP_BYTE_COUNTS_TAG in ifd.tags && STRIP_OFFSETS_TAG in ifd.tags
    requires InSignedRange(saved.compression.value, 4)
    requires forall k :: 0 <= k < |saved.dataByteCounts.value| ==> InSignedRange(saved.dataByteCounts.value[k], 4)
    requires forall k :: 0 <= k < |saved.dataOffsets.value| ==> InSignedRange(saved.dataOffsets.value[k], 4)
    requires |saved.dataOffsets.value| > 0 && saved.dataOffsets.value[0] >= 0
    ensures var r := BackUpImage(s, isBigEndian, ifd, saved);
      var at := saved.dataOffsets.value[0];
      && r.ok
      && (saved.data.value != [] ==>
            at + |saved.data.value| <= |r.bytes| && r.bytes[at .. at + |saved.data.value|] == saved.data.value)
  {
    var z, c, w, o := BackUpStages(s, isBigEndian, ifd, saved, saved.dataOffsets.value[0], saved.data.value);
    if saved.data.value != [] {
      OverwriteReadBack(o, saved.dataOffsets.value[0], saved.data.value);
    }
  }

  /** The IFD of the label as it stands after replace_label_with_pseudonym_svs. */
  function IfdAfterReplace(s: seq<byte>, ifd: LabelIfd, tiles: seq<ImgTile>): (r: LabelIfd)
    ensures r.tags == ifd.tags && |r.dataOffsets| == |tiles| && |r.dataByteCounts| == |tiles|
  {
    LabelIfd(ChosenCompression(ifd.compression), StripOffsets(|s|, tiles), Counts(tiles), ifd.tags)
  }

  /**
   * What the pseudonymisation stores for the label before replacing it:
   * its tables, its compression and its strip bytes as get_image_data
   * reads them.
   */
  function SavedLabel(s: seq<byte>, ifd: LabelIfd): (r: SavedImage)
    requires |ifd.dataOffsets| > 0 && ifd.dataOffsets[0] + SumOf(ifd.dataByteCounts) <= |s|
    ensures HasImageKeys(r)
  {
    var at := ifd.dataOffsets[0];
    SavedImage(Some(ifd.dataByteCounts), Some(ifd.dataOffsets), Some(ifd.compression),
               Some(s[at .. at + SumOf(ifd.dataByteCounts)]))
  }

  /**
   * The label IFD as found in the file: placed, with as many byte counts as
   * offsets, and its Compression field and tables reading what the IFD says.
   */
  predicate LabelInFile(s: seq<byte>, isBigEndian: bool, ifd: LabelIfd)
  {
    && Placed(s, ifd, |ifd.dataOffsets|)
    && |ifd.dataByteCounts| == |ifd.dataOffsets|
    && Read32(s, ifd.tags[COMPRESSION_TAG], isBigEndian) == ifd.compression
    && TableReads(s, ifd.tags[STRIP_BYTE_COUNTS_TAG], ifd.dataByteCounts, isBigEndian)
    && TableReads(s, ifd.tags[STRIP_OFFSETS_TAG], ifd.dataOffsets, isBigEndian)
  }

  /** The 4-byte fields from at on read the numbers ns, in order. */
  predicate TableReads(s: seq<byte>, at: nat, ns: seq<int>, isBigEndian: bool)
  {
    at + 4 * |ns| <= |s| && forall k :: 0 <= k < |ns| ==> Read32(s, at + 4 * k, isBigEndian) == ns[k]
  }

  /** A field that reads v holds a number that fits, and reads it as a table of one. */
  lemma FieldAsTable(s: seq<byte>, pos: nat, v: int, isBigEndian: bool)
    requires pos + 4 <= |s| && Read32(s, pos, isBigEndian) == v
    ensures InSignedRange(v, 4)
    ensures forall j :: 0 <= j < |[v]| ==> Read32(s, pos + 4 * j, isBigEndian) == [v][j]
  {
    assert pos + 4 * 0 == pos;
    TableReEncode(s, pos, [v], isBigEndian);
  }

  /**
   * The restore after the replacement: the tail appended for the new
   * strips is zeroed, then the Compression field, the two tables and the
   * old strips are written back as the original file held them; so the
   * original file comes back, followed by zeros.
   */
  lemma RestoreChain(s: seq<byte>, g0: Region, g1: Region, g2: Region, g3: Region, x: seq<byte>, n: nat,
                     z: seq<byte>, c: seq<byte>, w: seq<byte>, o: seq<byte>, f: seq<byte>,
                     comp: int, counts: seq<int>, offsets: seq<int>, data: seq<byte>, isBigEndian: bool)
    requires g0.len == 4 && g0.at + 4 <= |s| && Read32(s, g0.at, isBigEndian) == comp
    requires g1.len == 4 * |counts| && TableReads(s, g1.at, counts, isBigEndian)
    requires g2.len == 4 * |offsets| && TableReads(s, g2.at, offsets, isBigEndian)
    requires g3.at + g3.len <= |s| && data == s[g3.at .. g3.at + g3.len]
    requires InSignedRange(comp, 4)
    requires forall j :: 0 <= j < |counts| ==> InSignedRange(counts[j], 4)
    requires forall j :: 0 <= j < |offsets| ==> InSignedRange(offsets[j], 4)
    requires SameOutside(x, s, [g0] + ([g1] + ([g2] + [g3]))) && |x| == |s| + n
    requires z == Overwrite(x, |s|, Zeros(n))
    requires c == Overwrite(z, g0.at, EncodeInts([comp], isBigEndian))
    requires w == Overwrite(c, g1.at, EncodeInts(counts, isBigEndian))
    requires o == Overwrite(w, g2.at, EncodeInts(offsets, isBigEndian))
    requires f == Overwrite(o, g3.at, data)
    ensures |f| == |s| + n && f[..|s|] == s && ZeroPast(f, |s|)
  {
    TailZeroed(x, s, [g0] + ([g1] + ([g2] + [g3])), n);
    FieldAsTable(s, g0.at, comp, isBigEndian);
    IntsBack(z, s, g0, [g1] + ([g2] + [g3]), [comp], isBigEndian);
    IntsBack(c, s, g1, [g2] + [g3], counts, isBigEndian);
    IntsBack(w, s, g2, [g3], offsets, isBigEndian);
    LastBack(o, s, g3, data);
    NoneLeft(f, s);
  }

  /** Writing back the last region leaves agreement on the whole original. */
  lemma LastBack(o: seq<byte>, s: seq<byte>, g: Region, data: seq<byte>)
    requires g.at + g.len <= |s| && data == s[g.at .. g.at + g.len]
    requires SameOutside(o, s, [g]) && ZeroPast(o, |s|)
    ensures var f := Overwrite(o, g.at, data);
      |f| == |o| && f[..|s|] == s && ZeroPast(f, |s|)
  {
    assert [g] == [g] + [];
    WriteBack(o, s, g, [], data);
    NoneLeft(Overwrite(o, g.at, data), s);
  }

  /** Zeroing what was appended keeps agreement with the original, and zeros follow it. */
  lemma TailZeroed(x: seq<byte>, s: seq<byte>, gs: seq<Region>, n: nat)
    requires SameOutside(x, s, gs) && |x| == |s| + n
    ensures var z := Overwrite(x, |s|, Zeros(n));
      |z| == |x| && SameOutside(z, s, gs) && ZeroPast(z, |s|)
  {
    OverwriteAt(x, |s|, Zeros(n));
  }

  /** Agreement outside no region at all is agreement on the whole original. */
  lemma NoneLeft(f: seq<byte>, s: seq<byte>)
    requires SameOutside(f, s, [])
    ensures f[..|s|] == s
  {
    assert forall i | 0 <= i < |s| :: !InAny(i, []);
  }

  /**
   * back_up_image_svs with the record saved before the replacement undoes
   * replace_label_with_pseudonym_svs: the original file comes back, and the
   * bytes appended for the new strips read as zeros. The new label must
   * have as many strips as the old one, since the tables are rewritten in
   * place without changing their counts.
   */
  lemma ReplaceThenBackUp(s: seq<byte>, isBigEndian: bool, ifd: LabelIfd, tiles: seq<ImgTile>)
    requires LabelInFile(s, isBigEndian, ifd) && |tiles| == |ifd.dataOffsets|
    requires Fits(s, tiles) && forall k :: 0 <= k < |tiles| ==> tiles[k].count == |tiles[k].data|
    ensures var r1 := ReplaceLabel(s, isBigEndian, ifd, tiles);
      var r2 := BackUpImage(r1.bytes, isBigEndian, IfdAfterReplace(s, ifd, tiles), SavedLabel(s, ifd));
      && r1.ok && r2.ok
      && |r2.bytes| == |s| + |ConcatData(tiles)|
      && r2.bytes[..|s|] == s
      && ZeroPast(r2.bytes, |s|)
  {
    var r1, f := RoundTripBytes(s, isBigEndian, ifd, tiles);
  }

  /** The bytes after each of the two operations of ReplaceThenBackUp. */
  lemma RoundTripBytes(s: seq<byte>, isBigEndian: bool, ifd: LabelIfd, tiles: seq<ImgTile>) returns (r1: seq<byte>, f: seq<byte>)
    requires LabelInFile(s, isBigEndian, ifd) && |tiles| == |ifd.dataOffsets|
    requires Fits(s, tiles) && forall k :: 0 <= k < |tiles| ==> tiles[k].count == |tiles[k].data|
    ensures ReplaceLabel(s, isBigEndian, ifd, tiles) == Written(r1, true)
    ensures BackUpImage(r1, isBigEndian, IfdAfterReplace(s, ifd, tiles), SavedLabel(s, ifd)) == Written(f, true)
    ensures |f| == |s| + |ConcatData(tiles)| && f[..|s|] == s && ZeroPast(f, |s|)
  {
    r1 := ReplacedFile(s, isBigEndian, ifd, tiles);
    var at := ifd.dataOffsets[0];
    var data := s[at .. at + SumOf(ifd.dataByteCounts)];
    LabelNumbersFit(s, isBigEndian, ifd);
    var z, c, w, o := RestoreStages(s, r1, isBigEndian, ifd, tiles, IfdAfterReplace(s, ifd, tiles), SavedLabel(s, ifd), at, data);
    f := Overwrite(o, at, data);
    RestoredFile(s, isBigEndian, ifd, |tiles|, r1, |ConcatData(tiles)|, z, c, w, o, at, data, f);
  }

  /** The four writes of the restore undo what the replacement changed. */
  lemma RestoredFile(s: seq<byte>, isBigEndian: bool, ifd: LabelIfd, m: nat, x: seq<byte>, n: nat,
                     z: seq<byte>, c: seq<byte>, w: seq<byte>, o: seq<byte>, at: nat, data: seq<byte>, f: seq<byte>)
    requires LabelInFile(s, isBigEndian, ifd) && m == |ifd.dataOffsets|
    requires |x| == |s| + n
    requires SameOutside(x, s, [Region(ifd.tags[COMPRESSION_TAG], 4)] + ([Region(ifd.tags[STRIP_BYTE_COUNTS_TAG], 4 * m)] +
                                ([Region(ifd.tags[STRIP_OFFSETS_TAG], 4 * m)] +
                                 [Region(ifd.dataOffsets[0], SumOf(ifd.dataByteCounts))])))
    requires InSignedRange(ifd.compression, 4)
    requires forall k :: 0 <= k < |ifd.dataByteCounts| ==> InSignedRange(ifd.dataByteCounts[k], 4)
    requires forall k :: 0 <= k < |ifd.dataOffsets| ==> InSignedRange(ifd.dataOffsets[k], 4)
    requires z == Overwrite(x, |s|, Zeros(n))
    requires c == Overwrite(z, ifd.tags[COMPRESSION_TAG], EncodeInts([ifd.compression], isBigEndian))
    requires w == Overwrite(c, ifd.tags[STRIP_BYTE_COUNTS_TAG], EncodeInts(ifd.dataByteCounts, isBigEndian))
    requires o == Overwrite(w, ifd.tags[STRIP_OFFSETS_TAG], EncodeInts(ifd.dataOffsets, isBigEndian))
    requires at == ifd.dataOffsets[0] && data == s[at .. at + SumOf(ifd.dataByteCounts)] && f == Overwrite(o, at, data)
    ensures |f| == |s| + n && f[..|s|] == s && ZeroPast(f, |s|)
  {
    RestoreChain(s, Region(ifd.tags[COMPRESSION_TAG], 4), Region(ifd.tags[STRIP_BYTE_COUNTS_TAG], 4 * m),
                 Region(ifd.tags[STRIP_OFFSETS_TAG], 4 * m), Region(at, SumOf(ifd.dataByteCounts)), x, n,
                 z, c, w, o, f, ifd.compression, ifd.dataByteCounts, ifd.dataOffsets, data, isBigEndian);
  }

  /** What the replacement leaves, in the terms the restore needs. */
  lemma ReplacedFile(s: seq<byte>, isBigEndian: bool, ifd: LabelIfd, tiles: seq<ImgTile>) returns (r1: seq<byte>)
    requires LabelInFile(s, isBigEndian, ifd) && |tiles| == |ifd.dataOffsets| && Fits(s, tiles)
    ensures ReplaceLabel(s, isBigEndian, ifd, tiles) == Written(r1, true)
    ensures |r1| == |s| + |ConcatData(tiles)|
    ensures SameOutside(r1, s, [Region(ifd.tags[COMPRESSION_TAG], 4)] + ([Region(ifd.tags[STRIP_BYTE_COUNTS_TAG], 4 * |tiles|)] +
                                ([Region(ifd.tags[STRIP_OFFSETS_TAG], 4 * |tiles|)] +
                                 [Region(ifd.dataOffsets[0], SumOf(ifd.dataByteCounts))])))
  {
    ReplaceLabelAppends(s, isBigEndian, ifd, tiles);
    ReplaceLabelFrame(s, isBigEndian, ifd, tiles);
    r1 := ReplaceLabel(s, isBigEndian, ifd, tiles).bytes;
    RegionsCons(ifd, |tiles|);
  }

  lemma RegionsCons(ifd: LabelIfd, n: nat)
    requires |ifd.dataOffsets| > 0
    requires COMPRESSION_TAG in ifd.tags && STRIP_BYTE_COUNTS_TAG in ifd.tags && STRIP_OFFSETS_TAG in ifd.tags
    ensures LabelRegions(ifd, n) == [Region(ifd.tags[COMPRESSION_TAG], 4)] + ([Region(ifd.tags[STRIP_BYTE_COUNTS_TAG], 4 * n)] +
                                ([Region(ifd.tags[STRIP_OFFSETS_TAG], 4 * n)] +
                                 [Region(ifd.dataOffsets[0], SumOf(ifd.dataByteCounts))]))
  {
  }

  /** The numbers a label in the file holds fit signed 4-byte fields. */
  lemma LabelNumbersFit(s: seq<byte>, isBigEndian: bool, ifd: LabelIfd)
    requires LabelInFile(s, isBigEndian, ifd)
    ensures InSignedRange(ifd.compression, 4)
    ensures forall k :: 0 <= k < |ifd.dataByteCounts| ==> InSignedRange(ifd.dataByteCounts[k], 4)
    ensures forall k :: 0 <= k < |ifd.dataOffsets| ==> InSignedRange(ifd.dataOffsets[k], 4)
  {
    FieldAsTable(s, ifd.tags[COMPRESSION_TAG], ifd.compression, isBigEndian);
    TableReEncode(s, ifd.tags[STRIP_BYTE_COUNTS_TAG], ifd.dataByteCounts, isBigEndian);
    TableReEncode(s, ifd.tags[STRIP_OFFSETS_TAG], ifd.dataOffsets, isBigEndian);
  }

  /** back_up_image_svs on the replaced file, step by step. */
  lemma RestoreStages(s: seq<byte>, r1: seq<byte>, isBigEndian: bool, ifd: LabelIfd, tiles: seq<ImgTile>,
                       ifd2: LabelIfd, saved: SavedImage, at: nat, data: seq<byte>)
    returns (z: seq<byte>, c: seq<byte>, w: seq<byte>, o: seq<byte>)
    requires LabelInFile(s, isBigEndian, ifd) && |tiles| == |ifd.dataOffsets|
    requires forall k :: 0 <= k < |tiles| ==> tiles[k].count == |tiles[k].data|
    requires InSignedRange(ifd.compression, 4)
    requires forall k :: 0 <= k < |ifd.dataByteCounts| ==> InSignedRange(ifd.dataByteCounts[k], 4)
    requires forall k :: 0 <= k < |ifd.dataOffsets| ==> InSignedRange(ifd.dataOffsets[k], 4)
    requires ifd2 == IfdAfterReplace(s, ifd, tiles) && saved == SavedLabel(s, ifd)
    requires at == ifd.dataOffsets[0] && data == s[at .. at + SumOf(ifd.dataByteCounts)]
    ensures z == Overwrite(r1, |s|, Zeros(|ConcatData(tiles)|))
    ensures c == Overwrite(z, ifd.tags[COMPRESSION_TAG], EncodeInts([ifd.compression], isBigEndian))
    ensures w == Overwrite(c, ifd.tags[STRIP_BYTE_COUNTS_TAG], EncodeInts(ifd.dataByteCounts, isBigEndian))
    ensures o == Overwrite(w, ifd.tags[STRIP_OFFSETS_TAG], EncodeInts(ifd.dataOffsets, isBigEndian))
    ensures BackUpImage(r1, isBigEndian, ifd2, saved) == Written(Overwrite(o, at, data), true)
  {
    StripOffsetsContiguous(|s|, tiles);
    SumCounts(tiles);
    assert saved.dataOffsets.value == ifd.dataOffsets && saved.dataByteCounts.value == ifd.dataByteCounts;
    assert saved.compression.value == ifd.compression && saved.data.value == data;
    z, c, w, o := BackUpStages(r1, isBigEndian, ifd2, saved, at, data);
  }

}
