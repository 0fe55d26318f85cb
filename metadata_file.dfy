/**
 * Writing descriptions into the file: replace_metadata_svs puts each new
 * description in place (padded) or at the end of the file, and
 * back_up_metadata_svs writes the saved count, value offset and text back.
 */
module MetadataFile {
  import opened Wrappers
  import opened CompressionUtils
  import opened FileBytes
  import opened Metadata

  // ---------------------------------------------------------------------
  // replace_metadata_svs
  // ---------------------------------------------------------------------

  /**
   * One iteration of the loop of replace_metadata_svs for a description
   * tag and its new text: the new length goes into the count field; a text
   * shorter than the old description is padded to the old count and written
   * over the old value; otherwise the old value is blanked, the text is
   * appended and the value-offset field points at it.
   */
  function ReplaceDescription(s: seq<byte>, isBigEndian: bool, tag: DescriptionTag, text: seq<byte>): Written
  {
    var w1 := IntsWritten(s, tag.entryOffset + 4, [|text|], isBigEndian);
    if !w1.ok then w1
    else if |tag.value| > |text| then
      Written(Overwrite(w1.bytes, tag.valueOffset, Ljust(text, tag.count)), true)
    else
      var blanked := Overwrite(w1.bytes, tag.valueOffset, Spaces(tag.count));
      IntsWritten(blanked + text, tag.entryOffset + 8, [|blanked|], isBigEndian)
  }

  /** Every entry of new_metadata names a page that has a description tag. */
  predicate Addressable(pages: seq<Page>, metas: seq<NewDescription>)
  {
    forall k :: 0 <= k < |metas| ==>
      metas[k].pageIndex < |pages| && pages[metas[k].pageIndex].description.Some?
  }

  /** The loop of replace_metadata_svs over new_metadata; the first failing write ends it. */
  function ReplaceAll(s: seq<byte>, isBigEndian: bool, pages: seq<Page>, metas: seq<NewDescription>): Written
    requires Addressable(pages, metas)
    decreases |metas|
  {
    if metas == [] then Written(s, true)
    else
      var w := ReplaceDescription(s, isBigEndian, pages[metas[0].pageIndex].description.value, metas[0].text);
      if !w.ok then w else ReplaceAll(w.bytes, isBigEndian, pages, metas[1..])
  }

  /** The body of the loop of replace_metadata_svs, on the open file. */
  method ReplaceDescriptionIn(f: SlideFile, isBigEndian: bool, tag: DescriptionTag, text: seq<byte>) returns (ok: bool)
    modifies f
    ensures Written(f.bytes, ok) == ReplaceDescription(old(f.bytes), isBigEndian, tag, text)
  {
    ok := f.WriteInts(tag.entryOffset + 4, [|text|], isBigEndian);
    if !ok {
      return;
    }
    if |tag.value| > |text| {
      f.Write(tag.valueOffset, Ljust(text, tag.count));
    } else {
      f.Write(tag.valueOffset, Spaces(tag.count));
      var offset := f.Append(text);
      ok := f.WriteInts(tag.entryOffset + 8, [offset], isBigEndian);
    }
  }

  /** Every entry of new_metadata names a page with a description tag. */
  lemma {:induction false} NewMetasAddressable(pages: seq<Page>, newData: NewData)
    ensures Addressable(pages, NewMetas(pages, newData))
  {
    if pages != [] {
      NewMetasAddressable(pages[..|pages| - 1], newData);
    }
  }

  /** One step of the write loop: replace the description of metas[i], then the rest. */
  lemma ReplaceAllStep(s: seq<byte>, isBigEndian: bool, pages: seq<Page>, metas: seq<NewDescription>, i: nat)
    requires i < |metas| && Addressable(pages, metas[i..])
    ensures Addressable(pages, metas[i + 1..])
    ensures var w := ReplaceDescription(s, isBigEndian, pages[metas[i].pageIndex].description.value, metas[i].text);
      ReplaceAll(s, isBigEndian, pages, metas[i..]) == if !w.ok then w else ReplaceAll(w.bytes, isBigEndian, pages, metas[i + 1..])
  {
    assert metas[i..][0] == metas[i] && metas[i..][1..] == metas[i + 1..];
  }

  /** The loop of replace_metadata_svs over new_metadata, on the open file. */
  method WriteNewMetadata(f: SlideFile, isBigEndian: bool, pages: seq<Page>, newMetadata: seq<NewDescription>) returns (ok: bool)
    requires Addressable(pages, newMetadata)
    modifies f
    ensures Written(f.bytes, ok) == ReplaceAll(old(f.bytes), isBigEndian, pages, newMetadata)
  {
    ok := true;
    var i := 0;
    while i < |newMetadata|
      invariant 0 <= i <= |newMetadata|
      invariant Addressable(pages, newMetadata[i..])
      invariant ReplaceAll(old(f.bytes), isBigEndian, pages, newMetadata)
                == ReplaceAll(f.bytes, isBigEndian, pages, newMetadata[i..])
    {
      ReplaceAllStep(f.bytes, isBigEndian, pages, newMetadata, i);
      var tag := pages[newMetadata[i].pageIndex].description.value;
      ok := ReplaceDescriptionIn(f, isBigEndian, tag, newMetadata[i].text);
      if !ok {
        return;
      }
      i := i + 1;
    }
  }

  /**
   * replace_metadata_svs: generate the new descriptions, read the byte order
   * from the header, then write every new description into the file.
   * `ok` is false where the source raises.
   */
  method ReplaceMetadataSvs(f: SlideFile, pages: seq<Page>, newData: NewData) returns (ok: bool, originData: seq<Origin>)
    modifies f
    ensures originData == Origins(pages, newData)
    ensures Addressable(pages, NewMetas(pages, newData))
    ensures Written(f.bytes, ok) == ReplaceAll(old(f.bytes), IsBigEndian(old(f.bytes)), pages, NewMetas(pages, newData))
  {
    var newMetadata;
    originData, newMetadata := GenerateMetadata(pages, newData);
    NewMetasAddressable(pages, newData);
    var isBigEndian := IsBigEndian(f.bytes);
    ok := WriteNewMetadata(f, isBigEndian, pages, newMetadata);
  }

  // ---------------------------------------------------------------------
  // What one replacement leaves in the file
  // ---------------------------------------------------------------------

  /** The 4-byte fields [lo, lo + 4 * n) lie inside the file and miss the value region [vo, vo + len). */
  predicate FieldsApart(s: seq<byte>, lo: nat, n: nat, vo: nat, len: nat)
  {
    lo + 4 * n <= |s| && (lo + 4 * n <= vo || vo + len <= lo)
  }

  /** A length that does not fit a signed 4-byte count is refused before anything is written. */
  lemma ReplaceRejectsLongText(s: seq<byte>, isBigEndian: bool, tag: DescriptionTag, text: seq<byte>)
    requires |text| >= 0x8000_0000
    ensures ReplaceDescription(s, isBigEndian, tag, text) == Written(s, false)
  {
    Signed32(|text|);
  }

  /** The signed 4-byte encoding of a number below 2^31. */
  function Enc32(n: nat, isBigEndian: bool): (r: seq<byte>)
    requires n < 0x8000_0000
    ensures |r| == 4 && IntFromBytes(r, isBigEndian) == n
  {
    Signed32(n);
    IntRoundTrip(n, 4, isBigEndian);
    IntToBytes(n, 4, isBigEndian).value
  }

  /** One 4-byte write of a number below 2^31 succeeds and is an overwrite with its encoding. */
  lemma WriteOne(s: seq<byte>, pos: nat, n: nat, isBigEndian: bool)
    requires n < 0x8000_0000
    ensures IntsWritten(s, pos, [n], isBigEndian) == Written(Overwrite(s, pos, Enc32(n, isBigEndian)), true)
  {
    WriteIntsIsOverwrite(s, pos, [n], isBigEndian);
    assert EncodeInts([n], isBigEndian) == IntToBytes(n, 4, isBigEndian).value + [];
  }

  /** The shape of a replacement whose text is shorter than the old description. */
  lemma ReplaceInPlaceWrites(s: seq<byte>, isBigEndian: bool, tag: DescriptionTag, text: seq<byte>)
    requires |text| < |tag.value|
    requires |text| < 0x8000_0000
    ensures ReplaceDescription(s, isBigEndian, tag, text)
            == Written(Overwrite(Overwrite(s, tag.entryOffset + 4, Enc32(|text|, isBigEndian)), tag.valueOffset, Ljust(text, tag.count)), true)
  {
    WriteOne(s, tag.entryOffset + 4, |text|, isBigEndian);
  }

  /**
   * A text shorter than the old description: the count field reads the new
   * length and the old value region starts with the text.
   */
  lemma ReplaceInPlace(s: seq<byte>, isBigEndian: bool, tag: DescriptionTag, text: seq<byte>)
    requires |text| < |tag.value| <= tag.count
    requires tag.valueOffset + tag.count <= |s|
    requires |text| < 0x8000_0000
    requires FieldsApart(s, tag.entryOffset + 4, 1, tag.valueOffset, tag.count)
    ensures var r := ReplaceDescription(s, isBigEndian, tag, text);
      && r.ok
      && |r.bytes| == |s|
      && Read32(r.bytes, tag.entryOffset + 4, isBigEndian) == |text|
      && r.bytes[tag.valueOffset .. tag.valueOffset + |text|] == text
  {
    ReplaceInPlaceWrites(s, isBigEndian, tag, text);
    InPlaceFacts(s, isBigEndian, tag, text);
  }

  /** ReplaceInPlace for the bytes of the two writes. */
  lemma InPlaceFacts(s: seq<byte>, isBigEndian: bool, tag: DescriptionTag, text: seq<byte>)
    requires |text| < |tag.value| <= tag.count
    requires tag.valueOffset + tag.count <= |s|
    requires |text| < 0x8000_0000
    requires FieldsApart(s, tag.entryOffset + 4, 1, tag.valueOffset, tag.count)
    ensures var r := Overwrite(Overwrite(s, tag.entryOffset + 4, Enc32(|text|, isBigEndian)), tag.valueOffset, Ljust(text, tag.count));
      && |r| == |s|
      && Read32(r, tag.entryOffset + 4, isBigEndian) == |text|
      && r[tag.valueOffset .. tag.valueOffset + |text|] == text
  {
    InPlaceReadBack(s, tag.entryOffset, Enc32(|text|, isBigEndian), tag.valueOffset, Ljust(text, tag.count), isBigEndian);
    var r := Overwrite(Overwrite(s, tag.entryOffset + 4, Enc32(|text|, isBigEndian)), tag.valueOffset, Ljust(text, tag.count));
    assert r[tag.valueOffset .. tag.valueOffset + |text|] == text;
  }

  /** The bytes after the two writes of the in-place branch. */
  lemma InPlaceBytes(s: seq<byte>, entry: nat, enc: seq<byte>, vo: nat, padded: seq<byte>)
    requires |enc| == 4 && entry + 8 <= |s| && vo + |padded| <= |s|
    ensures |Overwrite(Overwrite(s, entry + 4, enc), vo, padded)| == |s|
    ensures forall i | 0 <= i < |s| ::
              Overwrite(Overwrite(s, entry + 4, enc), vo, padded)[i]
              == if vo <= i < vo + |padded| then padded[i - vo] else if entry + 4 <= i < entry + 8 then enc[i - entry - 4] else s[i]
  {
    OverwriteAt(s, entry + 4, enc);
    OverwriteAt(Overwrite(s, entry + 4, enc), vo, padded);
  }

  /** The count field and the value region read back after the two writes of the in-place branch. */
  lemma InPlaceReadBack(s: seq<byte>, entry: nat, enc: seq<byte>, vo: nat, padded: seq<byte>, isBigEndian: bool)
    requires |enc| == 4 && entry + 8 <= |s| && vo + |padded| <= |s|
    requires entry + 8 <= vo || vo + |padded| <= entry + 4
    ensures |Overwrite(Overwrite(s, entry + 4, enc), vo, padded)| == |s|
    ensures Read32(Overwrite(Overwrite(s, entry + 4, enc), vo, padded), entry + 4, isBigEndian) == IntFromBytes(enc, isBigEndian)
    ensures forall j | 0 <= j < |padded| :: Overwrite(Overwrite(s, entry + 4, enc), vo, padded)[vo + j] == padded[j]
  {
    InPlaceBytes(s, entry, enc, vo, padded);
    var r := Overwrite(Overwrite(s, entry + 4, enc), vo, padded);
    forall j | 0 <= j < 4
      ensures r[entry + 4 + j] == enc[j]
    {
    }
    assert r[entry + 4 .. entry + 8] == enc;
  }

  /**
   * A text shorter than the old description: the rest of the old value
   * region is spaces, and every byte outside the count field and that region
   * is unchanged.
   */
  lemma ReplaceInPlaceFrame(s: seq<byte>, isBigEndian: bool, tag: DescriptionTag, text: seq<byte>)
    requires |text| < |tag.value| <= tag.count
    requires tag.valueOffset + tag.count <= |s|
    requires |text| < 0x8000_0000
    requires tag.entryOffset + 8 <= |s|
    ensures var r := ReplaceDescription(s, isBigEndian, tag, text);
      && |r.bytes| == |s|
      && (forall i :: tag.valueOffset + |text| <= i < tag.valueOffset + tag.count ==> r.bytes[i] == SPACE)
      && (forall i | 0 <= i < |s| && !(tag.entryOffset + 4 <= i < tag.entryOffset + 8) &&
            !(tag.valueOffset <= i < tag.valueOffset + tag.count) :: r.bytes[i] == s[i])
  {
    ReplaceInPlaceWrites(s, isBigEndian, tag, text);
    InPlaceFrameFacts(s, isBigEndian, tag, text);
  }

  /** ReplaceInPlaceFrame for the bytes of the two writes. */
  lemma InPlaceFrameFacts(s: seq<byte>, isBigEndian: bool, tag: DescriptionTag, text: seq<byte>)
    requires |text| < |tag.value| <= tag.count
    requires tag.valueOffset + tag.count <= |s|
    requires |text| < 0x8000_0000
    requires tag.entryOffset + 8 <= |s|
    ensures var r := Overwrite(Overwrite(s, tag.entryOffset + 4, Enc32(|text|, isBigEndian)), tag.valueOffset, Ljust(text, tag.count));
      && |r| == |s|
      && (forall i :: tag.valueOffset + |text| <= i < tag.valueOffset + tag.count ==> r[i] == SPACE)
      && (forall i | 0 <= i < |s| && !(tag.entryOffset + 4 <= i < tag.entryOffset + 8) &&
            !(tag.valueOffset <= i < tag.valueOffset + tag.count) :: r[i] == s[i])
  {
    InPlaceBytes(s, tag.entryOffset, Enc32(|text|, isBigEndian), tag.valueOffset, Ljust(text, tag.count));
  }

  /** The shape of a replacement whose text does not fit in the old description. */
  lemma ReplaceAtEndWrites(s: seq<byte>, isBigEndian: bool, tag: DescriptionTag, text: seq<byte>)
    requires |tag.value| <= |text|
    requires |text| < 0x8000_0000
    requires tag.valueOffset + tag.count <= |s| && tag.entryOffset + 8 <= |s|
    requires |s| < 0x8000_0000
    ensures ReplaceDescription(s, isBigEndian, tag, text)
            == Written(Overwrite(Overwrite(Overwrite(s, tag.entryOffset + 4, Enc32(|text|, isBigEndian)), tag.valueOffset, Spaces(tag.count)) + text, tag.entryOffset + 8, Enc32(|s|, isBigEndian)), true)
  {
    var blanked := Overwrite(Overwrite(s, tag.entryOffset + 4, Enc32(|text|, isBigEndian)), tag.valueOffset, Spaces(tag.count));
    assert IntsWritten(s, tag.entryOffset + 4, [|text|], isBigEndian)
           == Written(Overwrite(s, tag.entryOffset + 4, Enc32(|text|, isBigEndian)), true) by {
      WriteOne(s, tag.entryOffset + 4, |text|, isBigEndian);
    }
    assert IntsWritten(blanked + text, tag.entryOffset + 8, [|blanked|], isBigEndian)
           == Written(Overwrite(blanked + text, tag.entryOffset + 8, Enc32(|s|, isBigEndian)), true) by {
      WriteOne(blanked + text, tag.entryOffset + 8, |blanked|, isBigEndian);
    }
  }

  /**
   * A text at least as long as the old description: the count field reads
   * the new length, the text sits at the old end of the file, and the
   * value-offset field reads that old length.
   */
  lemma ReplaceAtEnd(s: seq<byte>, isBigEndian: bool, tag: DescriptionTag, text: seq<byte>)
    requires |tag.value| <= |text|
    requires tag.valueOffset + tag.count <= |s|
    requires |s| < 0x8000_0000
    requires |text| < 0x8000_0000
    requires FieldsApart(s, tag.entryOffset + 4, 2, tag.valueOffset, tag.count)
    ensures var r := ReplaceDescription(s, isBigEndian, tag, text);
      && r.ok
      && |r.bytes| == |s| + |text|
      && r.bytes[|s|..] == text
      && Read32(r.bytes, tag.entryOffset + 4, isBigEndian) == |text|
      && Read32(r.bytes, tag.entryOffset + 8, isBigEndian) == |s|
  {
    ReplaceAtEndWrites(s, isBigEndian, tag, text);
    AtEndFacts(s, isBigEndian, tag, text);
  }

  /** ReplaceAtEnd for the bytes of the writes and the append. */
  lemma AtEndFacts(s: seq<byte>, isBigEndian: bool, tag: DescriptionTag, text: seq<byte>)
    requires tag.valueOffset + tag.count <= |s|
    requires |s| < 0x8000_0000
    requires |text| < 0x8000_0000
    requires FieldsApart(s, tag.entryOffset + 4, 2, tag.valueOffset, tag.count)
    ensures var r := Overwrite(Overwrite(Overwrite(s, tag.entryOffset + 4, Enc32(|text|, isBigEndian)), tag.valueOffset, Spaces(tag.count)) + text,
                               tag.entryOffset + 8, Enc32(|s|, isBigEndian));
      && |r| == |s| + |text|
      && r[|s|..] == text
      && Read32(r, tag.entryOffset + 4, isBigEndian) == |text|
      && Read32(r, tag.entryOffset + 8, isBigEndian) == |s|
  {
    AtEndReadBack(s, tag.entryOffset, Enc32(|text|, isBigEndian), tag.valueOffset, Spaces(tag.count), text, Enc32(|s|, isBigEndian), isBigEndian);
  }

  /** The bytes after the three writes and the append of the append branch. */
  lemma AtEndBytes(s: seq<byte>, entry: nat, enc1: seq<byte>, vo: nat, blank: seq<byte>, text: seq<byte>, enc2: seq<byte>)
    requires |enc1| == 4 && |enc2| == 4 && entry + 12 <= |s| && vo + |blank| <= |s|
    ensures |Overwrite(Overwrite(Overwrite(s, entry + 4, enc1), vo, blank) + text, entry + 8, enc2)| == |s| + |text|
    ensures forall i | 0 <= i < |s| + |text| ::
              Overwrite(Overwrite(Overwrite(s, entry + 4, enc1), vo, blank) + text, entry + 8, enc2)[i]
              == if entry + 8 <= i < entry + 12 then enc2[i - entry - 8]
                 else if |s| <= i then text[i - |s|]
                 else if vo <= i < vo + |blank| then blank[i - vo]
                 else if entry + 4 <= i < entry + 8 then enc1[i - entry - 4]
                 else s[i]
  {
    var b := Overwrite(Overwrite(s, entry + 4, enc1), vo, blank);
    InPlaceBytes(s, entry, enc1, vo, blank);
    OverwriteAt(b + text, entry + 8, enc2);
  }

  /** The two fields and the appended text read back after the writes and the append of the append branch. */
  lemma AtEndReadBack(s: seq<byte>, entry: nat, enc1: seq<byte>, vo: nat, blank: seq<byte>, text: seq<byte>, enc2: seq<byte>,
                      isBigEndian: bool)
    requires |enc1| == 4 && |enc2| == 4 && entry + 12 <= |s| && vo + |blank| <= |s|
    requires entry + 12 <= vo || vo + |blank| <= entry + 4
    ensures |Overwrite(Overwrite(Overwrite(s, entry + 4, enc1), vo, blank) + text, entry + 8, enc2)| == |s| + |text|
    ensures Read32(Overwrite(Overwrite(Overwrite(s, entry + 4, enc1), vo, blank) + text, entry + 8, enc2), entry + 4, isBigEndian)
            == IntFromBytes(enc1, isBigEndian)
    ensures Read32(Overwrite(Overwrite(Overwrite(s, entry + 4, enc1), vo, blank) + text, entry + 8, enc2), entry + 8, isBigEndian)
            == IntFromBytes(enc2, isBigEndian)
    ensures Overwrite(Overwrite(Overwrite(s, entry + 4, enc1), vo, blank) + text, entry + 8, enc2)[|s|..] == text
  {
    AtEndBytes(s, entry, enc1, vo, blank, text, enc2);
    var r := Overwrite(Overwrite(Overwrite(s, entry + 4, enc1), vo, blank) + text, entry + 8, enc2);
    forall j | 0 <= j < 4
      ensures r[entry + 4 + j] == enc1[j] && r[entry + 8 + j] == enc2[j]
    {
    }
    assert r[entry + 4 .. entry + 8] == enc1;
    assert r[entry + 8 .. entry + 12] == enc2;
    forall j | 0 <= j < |text|
      ensures r[|s| + j] == text[j]
    {
    }
    assert r[|s|..] == text;
  }

  /**
   * A text at least as long as the old description: the old value region is
   * all spaces, and every byte of the old file outside the two fields and
   * that region is unchanged.
   */
  lemma ReplaceAtEndFrame(s: seq<byte>, isBigEndian: bool, tag: DescriptionTag, text: seq<byte>)
    requires |tag.value| <= |text|
    requires tag.valueOffset + tag.count <= |s|
    requires |s| < 0x8000_0000
    requires |text| < 0x8000_0000
    requires FieldsApart(s, tag.entryOffset + 4, 2, tag.valueOffset, tag.count)
    ensures var r := ReplaceDescription(s, isBigEndian, tag, text);
      && |r.bytes| == |s| + |text|
      && (forall i :: tag.valueOffset <= i < tag.valueOffset + tag.count ==> r.bytes[i] == SPACE)
      && (forall i | 0 <= i < |s| && !(tag.entryOffset + 4 <= i < tag.entryOffset + 12) &&
            !(tag.valueOffset <= i < tag.valueOffset + tag.count) :: r.bytes[i] == s[i])
  {
    ReplaceAtEndWrites(s, isBigEndian, tag, text);
    AtEndFrameFacts(s, isBigEndian, tag, text);
  }

  /** ReplaceAtEndFrame for the bytes of the writes and the append. */
  lemma AtEndFrameFacts(s: seq<byte>, isBigEndian: bool, tag: DescriptionTag, text: seq<byte>)
    requires tag.valueOffset + tag.count <= |s|
    requires |s| < 0x8000_0000
    requires |text| < 0x8000_0000
    requires FieldsApart(s, tag.entryOffset + 4, 2, tag.valueOffset, tag.count)
    ensures var r := Overwrite(Overwrite(Overwrite(s, tag.entryOffset + 4, Enc32(|text|, isBigEndian)), tag.valueOffset, Spaces(tag.count)) + text,
                               tag.entryOffset + 8, Enc32(|s|, isBigEndian));
      && |r| == |s| + |text|
      && (forall i :: tag.valueOffset <= i < tag.valueOffset + tag.count ==> r[i] == SPACE)
      && (forall i | 0 <= i < |s| && !(tag.entryOffset + 4 <= i < tag.entryOffset + 12) &&
            !(tag.valueOffset <= i < tag.valueOffset + tag.count) :: r[i] == s[i])
  {
    AtEndBytes(s, tag.entryOffset, Enc32(|text|, isBigEndian), tag.valueOffset, Spaces(tag.count), text, Enc32(|s|, isBigEndian));
  }

  // ---------------------------------------------------------------------
  // back_up_metadata_svs
  // ---------------------------------------------------------------------

  /**
   * One record of origin_metadata_data as read back from the store: each of
   * the five keys may be missing.
   */
  datatype SavedDescription = SavedDescription(
    pageIndex: Option<int>, shape: Option<seq<int>>, count: Option<int>,
    valueOffset: Option<int>, value: Option<seq<byte>>)

  /** The record replace_metadata_svs returns for a page. */
  function Saved(o: Origin): (r: SavedDescription)
    ensures HasAllKeys(r)
  {
    SavedDescription(Some(o.pageIndex), Some(o.shape), Some(o.count), Some(o.valueOffset), Some(o.value))
  }

  /** The record has page_index, shape, count, value_offset and value. */
  predicate HasAllKeys(r: SavedDescription)
  {
    r.pageIndex.Some? && r.shape.Some? && r.count.Some? && r.valueOffset.Some? && r.value.Some?
  }

  /**
   * tif.pages[i]: an index below zero is reduced modulo the page count, as
   * the page list of the TIFF reader does; an index past the end raises.
   */
  function PageAt(pages: seq<Page>, i: int): (r: Option<Page>)
    ensures r.Some? <==> (0 <= i < |pages| || (i < 0 && |pages| > 0))
    ensures 0 <= i < |pages| ==> r == Some(pages[i])
  {
    if 0 <= i < |pages| then Some(pages[i])
    else if i < 0 && |pages| > 0 then Some(pages[i % |pages|])
    else None
  }

  /**
   * The writes of back_up_metadata_svs for one record, given the tag as the
   * file now holds it: blank the current value, write the saved count and
   * value offset one after the other from entry offset + 4, then write the
   * saved value at the saved offset (a negative offset makes the seek raise).
   */
  function BackUpDescription(s: seq<byte>, isBigEndian: bool, current: DescriptionTag,
                             count: int, valueOffset: int, value: seq<byte>): Written
  {
    var blanked := Overwrite(s, current.valueOffset, Spaces(current.count));
    var w := IntsWritten(blanked, current.entryOffset + 4, [count, valueOffset], isBigEndian);
    if !w.ok then w
    else if valueOffset < 0 then Written(w.bytes, false)
    else Written(Overwrite(w.bytes, valueOffset, value), true)
  }

  /** The loop of back_up_metadata_svs over complete records; the first failure ends it. */
  function BackUpEach(s: seq<byte>, isBigEndian: bool, pages: seq<Page>, records: seq<SavedDescription>): Written
    requires forall k :: 0 <= k < |records| ==> HasAllKeys(records[k])
    decreases |records|
  {
    if records == [] then Written(s, true)
    else
      var r := records[0];
      assert HasAllKeys(r);
      var page := PageAt(pages, r.pageIndex.value);
      if page.None? || page.value.shape != r.shape.value || page.value.description.None? then Written(s, false)
      else
        var w := BackUpDescription(s, isBigEndian, page.value.description.value, r.count.value, r.valueOffset.value, r.value.value);
        if !w.ok then w else BackUpEach(w.bytes, isBigEndian, pages, records[1..])
  }

  /** back_up_metadata_svs: a record without one of the five keys stops it before any write. */
  function BackUpAll(s: seq<byte>, isBigEndian: bool, pages: seq<Page>, records: seq<SavedDescription>): Written
  {
    if exists k :: 0 <= k < |records| && !HasAllKeys(records[k]) then Written(s, false)
    else BackUpEach(s, isBigEndian, pages, records)
  }

  /** The check of required_keys over every record. */
  method AllKeysPresent(records: seq<SavedDescription>) returns (present: bool)
    ensures present <==> forall k :: 0 <= k < |records| ==> HasAllKeys(records[k])
  {
    for k := 0 to |records|
      invariant forall j :: 0 <= j < k ==> HasAllKeys(records[j])
    {
      if !HasAllKeys(records[k]) {
        return false;
      }
    }
    return true;
  }

  /** The body of the loop of back_up_metadata_svs, on the open file. */
  method BackUpDescriptionIn(f: SlideFile, isBigEndian: bool, current: DescriptionTag,
                             count: int, valueOffset: int, value: seq<byte>) returns (ok: bool)
    modifies f
    ensures Written(f.bytes, ok) == BackUpDescription(old(f.bytes), isBigEndian, current, count, valueOffset, value)
  {
    f.Write(current.valueOffset, Spaces(current.count));
    ok := f.WriteInts(current.entryOffset + 4, [count, valueOffset], isBigEndian);
    if !ok {
      return;
    }
    if valueOffset < 0 {
      return false;
    }
    f.Write(valueOffset, value);
  }

  /** back_up_metadata_svs on the open file; `ok` is false where the source raises. */
  method BackUpMetadataSvs(f: SlideFile, pages: seq<Page>, records: seq<SavedDescription>) returns (ok: bool)
    modifies f
    ensures Written(f.bytes, ok) == BackUpAll(old(f.bytes), IsBigEndian(old(f.bytes)), pages, records)
  {
    ok := AllKeysPresent(records);
    if !ok {
      return;
    }
    var isBigEndian := IsBigEndian(f.bytes);
    var i := 0;
    while i < |records|
      invariant 0 <= i <= |records|
      invariant BackUpEach(old(f.bytes), isBigEndian, pages, records)
                == BackUpEach(f.bytes, isBigEndian, pages, records[i..])
    {
      assert records[i..][0] == records[i] && records[i..][1..] == records[i + 1..];
      var r := records[i];
      assert HasAllKeys(r);
      var page := PageAt(pages, r.pageIndex.value);
      if page.None? || page.value.shape != r.shape.value || page.value.description.None? {
        return false;
      }
      ok := BackUpDescriptionIn(f, isBigEndian, page.value.description.value, r.count.value, r.valueOffset.value, r.value.value);
      if !ok {
        return;
      }
      i := i + 1;
    }
  }

  // ---------------------------------------------------------------------
  // Replacing and then backing up one description
  // ---------------------------------------------------------------------

  /** Two 4-byte fields read and written back give the same bytes. */
  lemma FieldsReEncode(s: seq<byte>, entry: nat, isBigEndian: bool)
    requires entry + 12 <= |s|
    ensures InSignedRange(Read32(s, entry + 4, isBigEndian), 4) && InSignedRange(Read32(s, entry + 8, isBigEndian), 4)
    ensures EncodeInts([Read32(s, entry + 4, isBigEndian), Read32(s, entry + 8, isBigEndian)], isBigEndian) == s[entry + 4 .. entry + 12]
  {
    var a := s[entry + 4 .. entry + 8];
    var b := s[entry + 8 .. entry + 12];
    BytesRoundTrip(a, isBigEndian);
    BytesRoundTrip(b, isBigEndian);
    var ns := [Read32(s, entry + 4, isBigEndian), Read32(s, entry + 8, isBigEndian)];
    assert ns[1..] == [ns[1]];
    assert EncodeInts(ns, isBigEndian) == a + (b + []);
  }

  /** The shape of a back-up whose saved numbers fit the fields and whose offset is not negative. */
  lemma BackUpWrites(s: seq<byte>, isBigEndian: bool, current: DescriptionTag, count: int, valueOffset: nat, value: seq<byte>)
    requires InSignedRange(count, 4) && InSignedRange(valueOffset, 4)
    ensures BackUpDescription(s, isBigEndian, current, count, valueOffset, value)
            == Written(Overwrite(Overwrite(Overwrite(s, current.valueOffset, Spaces(current.count)),
                                           current.entryOffset + 4, EncodeInts([count, valueOffset], isBigEndian)),
                                 valueOffset, value), true)
  {
    WriteIntsIsOverwrite(Overwrite(s, current.valueOffset, Spaces(current.count)), current.entryOffset + 4,
                         [count, valueOffset], isBigEndian);
  }

  /**
   * The file is the original one except that the tail [vo + len, vo + count)
   * of the old value region and every byte past the original end are spaces.
   */
  predicate RestoredFrom(r: seq<byte>, s: seq<byte>, vo: nat, len: nat, count: nat)
  {
    && |r| >= |s|
    && (forall i :: 0 <= i < |s| ==> r[i] == if vo + len <= i < vo + count then SPACE else s[i])
    && (forall i :: |s| <= i < |r| ==> r[i] == SPACE)
  }

  /**
   * The value region of the tag lies inside the file, apart from its count
   * and value-offset fields, and starts with the value.
   */
  predicate ValueInFile(s: seq<byte>, tag: DescriptionTag)
  {
    && FieldsApart(s, tag.entryOffset + 4, 2, tag.valueOffset, tag.count)
    && tag.valueOffset + tag.count <= |s|
    && |tag.value| <= tag.count
    && s[tag.valueOffset .. tag.valueOffset + |tag.value|] == tag.value
  }

  /** A well-formed description tag: its value is in the file and its fields read its count and value offset. */
  predicate WellFormedTag(s: seq<byte>, isBigEndian: bool, tag: DescriptionTag)
  {
    && ValueInFile(s, tag)
    && Read32(s, tag.entryOffset + 4, isBigEndian) == tag.count
    && Read32(s, tag.entryOffset + 8, isBigEndian) == tag.valueOffset
  }

  /** The fields of a well-formed tag hold numbers that re-encode to the same bytes. */
  lemma WellFormedFields(s: seq<byte>, isBigEndian: bool, tag: DescriptionTag)
    requires WellFormedTag(s, isBigEndian, tag)
    ensures tag.count < 0x8000_0000 && tag.valueOffset < 0x8000_0000
    ensures InSignedRange(tag.count, 4) && InSignedRange(tag.valueOffset, 4)
    ensures EncodeInts([tag.count, tag.valueOffset], isBigEndian) == s[tag.entryOffset + 4 .. tag.entryOffset + 12]
    ensures tag.entryOffset + 12 <= |s| && tag.valueOffset + tag.count <= |s| && |tag.value| <= tag.count
    ensures tag.entryOffset + 12 <= tag.valueOffset || tag.valueOffset + tag.count <= tag.entryOffset + 4
    ensures s[tag.valueOffset .. tag.valueOffset + |tag.value|] == tag.value
  {
    TagFields(s, isBigEndian, tag.entryOffset, tag.count, tag.valueOffset);
  }

  /** WellFormedFields for the two fields alone. */
  lemma TagFields(s: seq<byte>, isBigEndian: bool, entry: nat, count: nat, vo: nat)
    requires entry + 12 <= |s|
    requires Read32(s, entry + 4, isBigEndian) == count && Read32(s, entry + 8, isBigEndian) == vo
    ensures count < 0x8000_0000 && vo < 0x8000_0000
    ensures InSignedRange(count, 4) && InSignedRange(vo, 4)
    ensures EncodeInts([count, vo], isBigEndian) == s[entry + 4 .. entry + 12]
  {
    FieldsReEncode(s, entry, isBigEndian);
    Signed32(count);
    Signed32(vo);
  }

  /** The tag as the file holds it after ReplaceDescription. */
  function TagAfterReplace(s: seq<byte>, tag: DescriptionTag, text: seq<byte>): DescriptionTag
  {
    DescriptionTag(tag.entryOffset, |text|, if |tag.value| > |text| then tag.valueOffset else |s|, text)
  }

  /**
   * The three writes of a back-up over a replaced file r1 that kept the old
   * file outside the fields and the value region and left spaces at the end
   * of that region, where `current` blanks the new text, either inside the
   * old value or after the old end: writing back the fields and the value
   * gives the old file up to padding spaces.
   */
  lemma BackUpBytes(s: seq<byte>, r1: seq<byte>, isBigEndian: bool, tag: DescriptionTag, current: DescriptionTag, eEnd: nat, lo: nat)
    requires |s| <= |r1| && tag.entryOffset + 12 <= |s| && tag.valueOffset + tag.count <= |s| && |tag.value| <= tag.count
    requires tag.entryOffset + 12 <= tag.valueOffset || tag.valueOffset + tag.count <= tag.entryOffset + 4
    requires InSignedRange(tag.count, 4) && InSignedRange(tag.valueOffset, 4)
    requires EncodeInts([tag.count, tag.valueOffset], isBigEndian) == s[tag.entryOffset + 4 .. tag.entryOffset + 12]
    requires s[tag.valueOffset .. tag.valueOffset + |tag.value|] == tag.value
    requires current.entryOffset == tag.entryOffset
    requires || (current.valueOffset == |s| && current.valueOffset + current.count == |r1|)
             || (current.valueOffset == tag.valueOffset && current.count <= |tag.value| && |r1| == |s|)
    requires eEnd <= tag.entryOffset + 12
    requires forall i | 0 <= i < |s| && !(tag.entryOffset + 4 <= i < eEnd) &&
               !(tag.valueOffset <= i < tag.valueOffset + tag.count) :: r1[i] == s[i]
    requires lo <= tag.valueOffset + |tag.value|
    requires forall i :: lo <= i < tag.valueOffset + tag.count ==> r1[i] == SPACE
    ensures RestoredFrom(
      Overwrite(Overwrite(Overwrite(r1, current.valueOffset, Spaces(current.count)),
                          current.entryOffset + 4, EncodeInts([tag.count, tag.valueOffset], isBigEndian)),
                tag.valueOffset, tag.value),
      s, tag.valueOffset, |tag.value|, tag.count)
  {
    RestoredBytes(s, r1, current.valueOffset, Spaces(current.count), current.entryOffset, eEnd,
                  EncodeInts([tag.count, tag.valueOffset], isBigEndian), tag.valueOffset, lo, tag.value, tag.count);
  }

  /** BackUpBytes for plain positions: e is the count field, vo the value. */
  lemma RestoredBytes(s: seq<byte>, r1: seq<byte>, blankAt: nat, blank: seq<byte>, entry: nat, eEnd: nat, fields: seq<byte>,
                      vo: nat, lo: nat, value: seq<byte>, count: nat)
    requires |s| <= |r1| && entry + 12 <= |s| && vo + count <= |s| && |value| <= count && eEnd <= entry + 12
    requires entry + 12 <= vo || vo + count <= entry + 4
    requires fields == s[entry + 4 .. entry + 12] && s[vo .. vo + |value|] == value
    requires forall j :: 0 <= j < |blank| ==> blank[j] == SPACE
    requires (blankAt == |s| && blankAt + |blank| == |r1|) || (blankAt == vo && |blank| <= |value| && |r1| == |s|)
    requires forall i | 0 <= i < |s| && !(entry + 4 <= i < eEnd) && !(vo <= i < vo + count) :: r1[i] == s[i]
    requires lo <= vo + |value| && forall i :: lo <= i < vo + count ==> r1[i] == SPACE
    ensures RestoredFrom(Overwrite(Overwrite(Overwrite(r1, blankAt, blank), entry + 4, fields), vo, value), s, vo, |value|, count)
  {
    var r2 := Overwrite(r1, blankAt, blank);
    var r3 := Overwrite(r2, entry + 4, fields);
    var r := Overwrite(r3, vo, value);
    OverwriteAt(r1, blankAt, blank);
    OverwriteAt(r2, entry + 4, fields);
    OverwriteAt(r3, vo, value);
    assert |r| == |r1|;
    forall i | 0 <= i < |s|
      ensures r[i] == if vo + |value| <= i < vo + count then SPACE else s[i]
    {
      if vo <= i < vo + |value| {
        assert r[i] == value[i - vo] == s[vo .. vo + |value|][i - vo];
      } else if entry + 4 <= i < entry + 12 {
        assert r[i] == fields[i - entry - 4] == s[entry + 4 .. entry + 12][i - entry - 4];
      } else {
        assert r[i] == r1[i];
      }
    }
    forall i | |s| <= i < |r|
      ensures r[i] == SPACE
    {
      assert r[i] == blank[i - blankAt];
    }
  }

  /**
   * Backing up the saved record after an in-place replacement gives back
   * the original file, except that the bytes after the value up to the
   * old count are spaces.
   */
  lemma RestoreInPlace(s: seq<byte>, isBigEndian: bool, tag: DescriptionTag, text: seq<byte>)
    requires WellFormedTag(s, isBigEndian, tag)
    requires |text| < |tag.value|
    ensures var r1 := ReplaceDescription(s, isBigEndian, tag, text).bytes;
      var r2 := BackUpDescription(r1, isBigEndian, TagAfterReplace(s, tag, text), tag.count, tag.valueOffset, tag.value);
      r2.ok && RestoredFrom(r2.bytes, s, tag.valueOffset, |tag.value|, tag.count)
  {
    WellFormedFields(s, isBigEndian, tag);
    var current := TagAfterReplace(s, tag, text);
    var r1 := Overwrite(Overwrite(s, tag.entryOffset + 4, Enc32(|text|, isBigEndian)), tag.valueOffset, Ljust(text, tag.count));
    ReplaceInPlaceWrites(s, isBigEndian, tag, text);
    BackUpWrites(r1, isBigEndian, current, tag.count, tag.valueOffset, tag.value);
    InPlaceFrameFacts(s, isBigEndian, tag, text);
    BackUpBytes(s, r1, isBigEndian, tag, current, tag.entryOffset + 8, tag.valueOffset + |text|);
  }

  /**
   * Backing up the saved record after a replacement that appended the new
   * text gives back the original file, followed by spaces where the new
   * text was, and with spaces after the value up to the old count.
   */
  lemma RestoreAtEnd(s: seq<byte>, isBigEndian: bool, tag: DescriptionTag, text: seq<byte>)
    requires WellFormedTag(s, isBigEndian, tag)
    requires |tag.value| <= |text| < 0x8000_0000 && |s| < 0x8000_0000
    ensures var r1 := ReplaceDescription(s, isBigEndian, tag, text).bytes;
      var r2 := BackUpDescription(r1, isBigEndian, TagAfterReplace(s, tag, text), tag.count, tag.valueOffset, tag.value);
      r2.ok && RestoredFrom(r2.bytes, s, tag.valueOffset, |tag.value|, tag.count)
  {
    WellFormedFields(s, isBigEndian, tag);
    var current := TagAfterReplace(s, tag, text);
    var r1 := Overwrite(Overwrite(Overwrite(s, tag.entryOffset + 4, Enc32(|text|, isBigEndian)), tag.valueOffset, Spaces(tag.count)) + text,
                        tag.entryOffset + 8, Enc32(|s|, isBigEndian));
    ReplaceAtEndWrites(s, isBigEndian, tag, text);
    BackUpWrites(r1, isBigEndian, current, tag.count, tag.valueOffset, tag.value);
    AtEndFrameFacts(s, isBigEndian, tag, text);
    BackUpBytes(s, r1, isBigEndian, tag, current, tag.entryOffset + 12, tag.valueOffset);
  }

  /**
   * The round trip the pseudonymisation and its back-up promise: whatever
   * the length of the new text, restoring the saved record gives back the
   * original file up to padding spaces.
   */
  lemma ReplaceThenRestore(s: seq<byte>, isBigEndian: bool, tag: DescriptionTag, text: seq<byte>)
    requires WellFormedTag(s, isBigEndian, tag)
    requires |text| < 0x8000_0000 && |s| < 0x8000_0000
    ensures ReplaceDescription(s, isBigEndian, tag, text).ok
    ensures var r1 := ReplaceDescription(s, isBigEndian, tag, text).bytes;
      var r2 := BackUpDescription(r1, isBigEndian, TagAfterReplace(s, tag, text), tag.count, tag.valueOffset, tag.value);
      r2.ok && RestoredFrom(r2.bytes, s, tag.valueOffset, |tag.value|, tag.count)
  {
    if |text| < |tag.value| {
      RestoreInPlace(s, isBigEndian, tag, text);
      ReplaceInPlaceWrites(s, isBigEndian, tag, text);
    } else {
      RestoreAtEnd(s, isBigEndian, tag, text);
      WellFormedFields(s, isBigEndian, tag);
      ReplaceAtEndWrites(s, isBigEndian, tag, text);
    }
  }
}
