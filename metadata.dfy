/**
 * The Aperio ImageDescription (TIFF tag 270) of an SVS file: how
 * generate_metadata_svs rewrites its `|`-separated `key=value` segments,
 * how replace_metadata_svs writes the new text into the file, and how
 * back_up_metadata_svs writes the original text back.
 *
 * The IFD entry of the tag is laid out as in section 2 of TIFF 6.0: the
 * 4-byte count at entry offset + 4 and the 4-byte value offset at entry
 * offset + 8.
 */
module Metadata {
  import opened Wrappers
  import opened CompressionUtils
  import opened FileBytes
  import opened Text

  const PIPE: byte := 124
  const EQUALS: seq<byte> := [61]
  const SPACED_EQUALS: seq<byte> := [32, 61, 32]

  /** new_data: the keys to rewrite; None deletes the segment. */
  type NewData = map<seq<byte>, Option<seq<byte>>>

  // ---------------------------------------------------------------------
  // Segments of the description
  // ---------------------------------------------------------------------

  /** What generate_metadata_svs does with one segment. */
  datatype SegmentEdit = Keep | Remove | Replace(text: seq<byte>)

  /** " = " when the segment contains it, else "=". */
  function Separator(info: seq<byte>): seq<byte>
  {
    if Contains(info, SPACED_EQUALS) then SPACED_EQUALS else EQUALS
  }

  /** The decision taken for one segment (pseudonymisation.py, the body of the segment loop). */
  function EditSegment(info: seq<byte>, newData: NewData): SegmentEdit
  {
    if !Contains(info, EQUALS) then Keep
    else
      var sep := Separator(info);
      var kv := Split(info, sep);
      if |kv| != 2 || kv[0] !in newData then Keep
      else
        match newData[kv[0]]
        case None => Remove
        case Some(v) => Replace(kv[0] + sep + v)
  }

  /**
   * A segment that is touched is `key sep old` with one separator, and its
   * key is in new_data; it is removed exactly when the key maps to None, and
   * otherwise becomes `key sep new` with the same separator.
   */
  lemma EditSegmentSound(info: seq<byte>, newData: NewData)
    requires EditSegment(info, newData) != Keep
    ensures Contains(info, EQUALS)
    ensures var sep := Separator(info);
      var kv := Split(info, sep);
      && |kv| == 2
      && info == kv[0] + sep + kv[1]
      && !Contains(kv[0], sep) && !Contains(kv[1], sep)
      && kv[0] in newData
      && (EditSegment(info, newData) == Remove <==> newData[kv[0]].None?)
      && (EditSegment(info, newData).Replace? ==>
            EditSegment(info, newData).text == kv[0] + sep + newData[kv[0]].value)
  {
    var sep := Separator(info);
    JoinSplit(info, sep);
    SplitPiecesAvoidSeparator(info, sep);
    var kv := Split(info, sep);
    assert Join(kv, sep) == kv[0] + sep + Join(kv[1..], sep);
  }

  /**
   * Conversely, a segment `key=old` (one "=", no " = ") whose key is in
   * new_data is removed when the key maps to None and becomes `key=new`
   * otherwise.
   */
  lemma EditSegmentComplete(key: seq<byte>, oldValue: seq<byte>, newData: NewData)
    requires !Contains(key, EQUALS) && !Contains(oldValue, EQUALS)
    requires !Contains(key + EQUALS + oldValue, SPACED_EQUALS)
    requires key in newData
    ensures EditSegment(key + EQUALS + oldValue, newData)
            == if newData[key].None? then Remove else Replace(key + EQUALS + newData[key].value)
  {
    var info := key + EQUALS + oldValue;
    assert OccursAt(info, EQUALS, |key|);
    ContainsIff(info, EQUALS);
    assert Join([key, oldValue], EQUALS) == info;
    SplitJoin([key, oldValue], 61);
  }

  /** The decision for every segment, position by position. */
  function Decisions(segs: seq<seq<byte>>, newData: NewData): (r: seq<SegmentEdit>)
    ensures |r| == |segs|
    ensures forall k :: 0 <= k < |segs| ==> r[k] == EditSegment(segs[k], newData)
  {
    seq(|segs|, k requires 0 <= k < |segs| => EditSegment(segs[k], newData))
  }

  /** The segments that survive, in their order, after the edits. */
  function ApplyEdits(segs: seq<seq<byte>>, edits: seq<SegmentEdit>): (r: seq<seq<byte>>)
    requires |edits| == |segs|
    ensures |r| <= |segs|
  {
    if segs == [] then []
    else
      var n := |segs| - 1;
      ApplyEdits(segs[..n], edits[..n]) +
        match edits[n]
        case Keep => [segs[n]]
        case Remove => []
        case Replace(t) => [t]
  }

  /** The segment list after the in-place assignments data[idx] = ..., before np.delete. */
  function Edited(segs: seq<seq<byte>>, edits: seq<SegmentEdit>): (r: seq<seq<byte>>)
    requires |edits| == |segs|
    ensures |r| == |segs|
  {
    if segs == [] then []
    else
      var n := |segs| - 1;
      Edited(segs[..n], edits[..n]) + [EditedAt(segs[n], edits[n])]
  }

  /** The value at a position after its assignment: the replacement, or the segment as it was. */
  function EditedAt(seg: seq<byte>, edit: SegmentEdit): seq<byte>
  {
    match edit
    case Replace(t) => t
    case _ => seg
  }

  /** One more position of the segment loop. */
  lemma EditedSnoc(segs: seq<seq<byte>>, edits: seq<SegmentEdit>, i: nat)
    requires i < |segs| == |edits|
    ensures Edited(segs[..i + 1], edits[..i + 1]) == Edited(segs[..i], edits[..i]) + [EditedAt(segs[i], edits[i])]
  {
    assert segs[..i + 1][..i] == segs[..i] && edits[..i + 1][..i] == edits[..i];
  }

  /** The positions marked for removal, in increasing order. */
  function RemovedPositions(edits: seq<SegmentEdit>): seq<nat>
  {
    if edits == [] then []
    else
      var n := |edits| - 1;
      RemovedPositions(edits[..n]) + if edits[n] == Remove then [n] else []
  }

  lemma RemovedSnoc(edits: seq<SegmentEdit>, i: nat)
    requires i < |edits|
    ensures RemovedPositions(edits[..i + 1]) == RemovedPositions(edits[..i]) + if edits[i] == Remove then [i] else []
  {
    assert edits[..i + 1][..i] == edits[..i];
  }

  /** A position is listed exactly when its segment is removed. */
  lemma {:induction false} RemovedPositionsIff(edits: seq<SegmentEdit>)
    ensures forall k :: k in RemovedPositions(edits) ==> k < |edits|
    ensures forall k :: 0 <= k < |edits| ==> (k in RemovedPositions(edits) <==> edits[k] == Remove)
  {
    if edits != [] {
      var n := |edits| - 1;
      RemovedPositionsIff(edits[..n]);
      assert forall k :: 0 <= k < n ==> edits[..n][k] == edits[k];
    }
  }

  /** np.delete(data, removing_index): the elements whose position is not listed, in order. */
  function DeleteIndices(data: seq<seq<byte>>, removing: seq<nat>): (r: seq<seq<byte>>)
    ensures |r| <= |data|
  {
    if data == [] then []
    else
      DeleteIndices(data[..|data| - 1], removing) +
        (if |data| - 1 in removing then [] else [data[|data| - 1]])
  }

  /** Deleting the removed positions from the edited list leaves exactly the surviving edits. */
  lemma {:induction false} DeleteEdited(segs: seq<seq<byte>>, edits: seq<SegmentEdit>, removing: seq<nat>)
    requires |edits| == |segs|
    requires forall k :: 0 <= k < |segs| ==> (k in removing <==> edits[k] == Remove)
    ensures DeleteIndices(Edited(segs, edits), removing) == ApplyEdits(segs, edits)
  {
    if segs != [] {
      var n := |segs| - 1;
      DeleteEdited(segs[..n], edits[..n], removing);
      var e := Edited(segs, edits);
      assert e[..n] == Edited(segs[..n], edits[..n]);
    }
  }

  /** When no segment is touched the surviving list is the original one. */
  lemma {:induction false} ApplyEditsUntouched(segs: seq<seq<byte>>, edits: seq<SegmentEdit>)
    requires |edits| == |segs|
    requires forall k :: 0 <= k < |segs| ==> edits[k] == Keep
    ensures ApplyEdits(segs, edits) == segs
  {
    if segs != [] {
      var n := |segs| - 1;
      ApplyEditsUntouched(segs[..n], edits[..n]);
      assert segs == segs[..n] + [segs[n]];
    }
  }

  /** The new description built from `description` (split on "|", edit, delete, join with "|"). */
  function NewDescriptionText(description: seq<byte>, newData: NewData): seq<byte>
  {
    Join(ApplyEdits(Split(description, [PIPE]), Decisions(Split(description, [PIPE]), newData)), [PIPE])
  }

  /**
   * The body of the segment loop of generate_metadata_svs: whether the
   * segment is marked for removal, or the text it is overwritten with.
   */
  method DecideSegment(info: seq<byte>, newData: NewData) returns (remove: bool, replacement: Option<seq<byte>>)
    ensures remove <==> EditSegment(info, newData) == Remove
    ensures replacement.Some? <==> EditSegment(info, newData).Replace?
    ensures replacement.Some? ==> replacement.value == EditSegment(info, newData).text
  {
    remove, replacement := false, None;
    if Contains(info, EQUALS) {
      var separator := EQUALS;
      if Contains(info, SPACED_EQUALS) {
        separator := SPACED_EQUALS;
      }
      var keyVal := Split(info, separator);
      if |keyVal| == 2 {
        var key := keyVal[0];
        if key in newData {
          if newData[key].None? {
            remove := true;
          } else {
            replacement := Some(key + separator + newData[key].value);
          }
        }
      }
    }
  }

  /**
   * The per-description part of generate_metadata_svs: split on "|",
   * rewrite or mark each segment, delete the marked ones, join with "|".
   */
  method RewriteDescription(description: seq<byte>, newData: NewData) returns (newDescription: seq<byte>)
    ensures newDescription == NewDescriptionText(description, newData)
  {
    var data := Split(description, [PIPE]);
    ghost var segs := data;
    ghost var edits := Decisions(segs, newData);
    var removingIndex: seq<nat> := [];
    for idx := 0 to |data|
      invariant |data| == |segs|
      invariant data[..idx] == Edited(segs[..idx], edits[..idx])
      invariant forall k :: idx <= k < |data| ==> data[k] == segs[k]
      invariant removingIndex == RemovedPositions(edits[..idx])
    {
      var info := data[idx];
      assert info == segs[idx];
      var remove, replacement := DecideSegment(info, newData);
      assert edits[idx] == EditSegment(info, newData);
      ghost var before := data;
      RemovedSnoc(edits, idx);
      if remove {
        removingIndex := removingIndex + [idx];
      } else if replacement.Some? {
        data := data[idx := replacement.value];
      }
      assert data[idx] == EditedAt(segs[idx], edits[idx]);
      assert data[..idx] == before[..idx];
      EditedSnoc(segs, edits, idx);
      PrefixSnoc(data, idx);
    }
    assert data[..|data|] == data && segs[..|segs|] == segs;
    assert edits[..|edits|] == edits;
    RemovedPositionsIff(edits);
    DeleteEdited(segs, edits, removingIndex);
    data := DeleteIndices(data, removingIndex);
    newDescription := Join(data, [PIPE]);
  }

  /** A description none of whose segments is touched is written back unchanged. */
  lemma RewriteUntouched(description: seq<byte>, newData: NewData)
    requires forall k :: 0 <= k < |Split(description, [PIPE])| ==>
      EditSegment(Split(description, [PIPE])[k], newData) == Keep
    ensures NewDescriptionText(description, newData) == description
  {
    ApplyEditsUntouched(Split(description, [PIPE]), Decisions(Split(description, [PIPE]), newData));
    JoinSplit(description, [PIPE]);
  }

  lemma PrefixSnoc<T>(s: seq<T>, i: nat)
    requires i < |s|
    ensures s[..i + 1] == s[..i] + [s[i]]
  {
  }

  /** No byte of s is c. */
  predicate Free(s: seq<byte>, c: byte)
  {
    forall j :: 0 <= j < |s| ==> s[j] != c
  }

  /** Every segment that survives the edits is free of "|" when the new values are. */
  lemma {:induction false} EditsFreeOfPipe(segs: seq<seq<byte>>, newData: NewData)
    requires forall k :: 0 <= k < |segs| ==> Free(segs[k], PIPE)
    requires forall key :: key in newData && newData[key].Some? ==> Free(newData[key].value, PIPE)
    ensures forall k :: 0 <= k < |ApplyEdits(segs, Decisions(segs, newData))| ==> Free(ApplyEdits(segs, Decisions(segs, newData))[k], PIPE)
  {
    if segs != [] {
      var init := segs[..|segs| - 1];
      var last := segs[|segs| - 1];
      assert forall k :: 0 <= k < |init| ==> init[k] == segs[k];
      EditsFreeOfPipe(init, newData);
      assert Decisions(segs, newData)[..|segs| - 1] == Decisions(init, newData);
      match EditSegment(last, newData)
      case Keep =>
      case Remove =>
      case Replace(t) =>
        EditSegmentSound(last, newData);
        var sep := Separator(last);
        var kv := Split(last, sep);
        assert forall j :: 0 <= j < |kv[0]| ==> kv[0][j] == last[j];
        assert Free(sep, PIPE);
    }
  }

  /**
   * When no new value contains "|" and some segment survives, splitting the
   * new description on "|" gives exactly the surviving segments.
   */
  lemma NewDescriptionResplits(description: seq<byte>, newData: NewData)
    requires forall key :: key in newData && newData[key].Some? ==> Free(newData[key].value, PIPE)
    requires |ApplyEdits(Split(description, [PIPE]), Decisions(Split(description, [PIPE]), newData))| >= 1
    ensures Split(NewDescriptionText(description, newData), [PIPE])
            == ApplyEdits(Split(description, [PIPE]), Decisions(Split(description, [PIPE]), newData))
  {
    var segs := Split(description, [PIPE]);
    SplitPiecesAvoidSeparator(description, [PIPE]);
    forall k | 0 <= k < |segs|
      ensures Free(segs[k], PIPE)
    {
      ByteAbsent(segs[k], PIPE);
    }
    EditsFreeOfPipe(segs, newData);
    var out := ApplyEdits(segs, Decisions(segs, newData));
    forall k | 0 <= k < |out|
      ensures !Contains(out[k], [PIPE])
    {
      ByteFree(out[k], PIPE);
    }
    SplitJoin(out, PIPE);
  }

  // ---------------------------------------------------------------------
  // Pages of the file (generate_metadata_svs)
  // ---------------------------------------------------------------------

  /** The ImageDescription tag of a page: its IFD entry and its value. */
  datatype DescriptionTag = DescriptionTag(entryOffset: nat, count: nat, valueOffset: nat, value: seq<byte>)

  /** A page (IFD) of the file: its image shape and its description tag, if any. */
  datatype Page = Page(shape: seq<int>, description: Option<DescriptionTag>)

  /** The record saved for a page whose description is rewritten. */
  datatype Origin = Origin(pageIndex: nat, shape: seq<int>, count: nat, valueOffset: nat, value: seq<byte>)

  /** One entry of new_metadata: the page index and its new description. */
  datatype NewDescription = NewDescription(pageIndex: nat, text: seq<byte>)

  /** Some key of new_data occurs in the description. */
  predicate HaveData(description: seq<byte>, newData: NewData)
  {
    exists key :: key in newData && Contains(description, key)
  }

  /** The loop over new_data.keys() that sets have_data. */
  method HasIdentifier(description: seq<byte>, newData: NewData) returns (haveData: bool)
    ensures haveData <==> exists key :: key in newData && Contains(description, key)
  {
    haveData := false;
    var keys := newData.Keys;
    while keys != {}
      invariant keys <= newData.Keys
      invariant forall key :: key in newData && key !in keys ==> !Contains(description, key)
      decreases |keys|
    {
      var key :| key in keys;
      if Contains(description, key) {
        haveData := true;
        return;
      }
      keys := keys - {key};
    }
  }

  /** A page is rewritten when it has a description that mentions some key of new_data. */
  predicate Touched(page: Page, newData: NewData)
  {
    page.description.Some? && HaveData(page.description.value.value, newData)
  }

  function OriginOf(index: nat, page: Page): (r: Origin)
    requires page.description.Some?
  {
    var tag := page.description.value;
    Origin(index, page.shape, tag.count, tag.valueOffset, tag.value)
  }

  /** origin_data: the saved tag of every touched page, in page order. */
  function Origins(pages: seq<Page>, newData: NewData): seq<Origin>
  {
    if pages == [] then []
    else
      var n := |pages| - 1;
      Origins(pages[..n], newData) + (if Touched(pages[n], newData) then [OriginOf(n, pages[n])] else [])
  }

  /** new_metadata: the new description of every touched page, in page order. */
  function NewMetas(pages: seq<Page>, newData: NewData): seq<NewDescription>
  {
    if pages == [] then []
    else
      var n := |pages| - 1;
      NewMetas(pages[..n], newData) +
        (if Touched(pages[n], newData)
         then [NewDescription(n, NewDescriptionText(pages[n].description.value.value, newData))]
         else [])
  }

  /**
   * generate_metadata_svs: for every page whose description mentions a key
   * of new_data, save its tag and compute its new description.
   */
  method GenerateMetadata(pages: seq<Page>, newData: NewData) returns (originData: seq<Origin>, newMetadata: seq<NewDescription>)
    ensures originData == Origins(pages, newData)
    ensures newMetadata == NewMetas(pages, newData)
  {
    originData, newMetadata := [], [];
    for index := 0 to |pages|
      invariant originData == Origins(pages[..index], newData)
      invariant newMetadata == NewMetas(pages[..index], newData)
    {
      assert pages[..index + 1][..index] == pages[..index];
      var page := pages[index];
      if page.description.Some? {
        var description := page.description.value.value;
        var haveData := HasIdentifier(description, newData);
        if haveData {
          var newDescription := RewriteDescription(description, newData);
          newMetadata := newMetadata + [NewDescription(index, newDescription)];
          var tag := page.description.value;
          originData := originData + [Origin(index, page.shape, tag.count, tag.valueOffset, tag.value)];
        }
      }
    }
    assert pages[..|pages|] == pages;
  }

  /**
   * The two lists line up: entry k of both is about the same touched page,
   * the saved record is that page's tag and the new text is the rewrite of
   * the saved value.
   */
  lemma {:induction false} GeneratedAligned(pages: seq<Page>, newData: NewData)
    ensures |Origins(pages, newData)| == |NewMetas(pages, newData)|
    ensures forall k :: 0 <= k < |Origins(pages, newData)| ==>
      var o := Origins(pages, newData)[k];
      && o.pageIndex < |pages|
      && Touched(pages[o.pageIndex], newData)
      && o == OriginOf(o.pageIndex, pages[o.pageIndex])
      && NewMetas(pages, newData)[k] == NewDescription(o.pageIndex, NewDescriptionText(o.value, newData))
  {
    if pages != [] {
      var n := |pages| - 1;
      var init := pages[..n];
      GeneratedAligned(init, newData);
      assert forall i :: 0 <= i < n ==> init[i] == pages[i];
    }
  }

  /** The saved records are in strictly increasing page order. */
  lemma {:induction false} OriginsOrdered(pages: seq<Page>, newData: NewData)
    ensures forall k :: 0 <= k < |Origins(pages, newData)| ==> Origins(pages, newData)[k].pageIndex < |pages|
    ensures forall k, l :: 0 <= k < l < |Origins(pages, newData)| ==>
      Origins(pages, newData)[k].pageIndex < Origins(pages, newData)[l].pageIndex
  {
    if pages != [] {
      OriginsOrdered(pages[..|pages| - 1], newData);
    }
  }

  /** Some saved record is about page i. */
  predicate SavesPage(origins: seq<Origin>, i: nat)
  {
    exists k :: 0 <= k < |origins| && origins[k].pageIndex == i
  }

  /** Every page whose description mentions a key of new_data has a saved record. */
  lemma {:induction false} OriginsComplete(pages: seq<Page>, newData: NewData)
    ensures forall i :: 0 <= i < |pages| && Touched(pages[i], newData) ==> SavesPage(Origins(pages, newData), i)
  {
    if pages != [] {
      var n := |pages| - 1;
      var init := pages[..n];
      OriginsComplete(init, newData);
      var os := Origins(pages, newData);
      var prev := Origins(init, newData);
      assert os[..|prev|] == prev;
      forall i | 0 <= i < |pages| && Touched(pages[i], newData)
        ensures SavesPage(os, i)
      {
        if i < n {
          assert init[i] == pages[i];
          var k :| 0 <= k < |prev| && prev[k].pageIndex == i;
          assert os[k] == prev[k];
        } else {
          assert os[|prev|].pageIndex == i;
        }
      }
    }
  }

  /** A file none of whose descriptions mentions a key is left out of both lists. */
  lemma {:induction false} NothingToGenerate(pages: seq<Page>, newData: NewData)
    requires forall i :: 0 <= i < |pages| ==> !Touched(pages[i], newData)
    ensures Origins(pages, newData) == [] && NewMetas(pages, newData) == []
  {
    if pages != [] {
      NothingToGenerate(pages[..|pages| - 1], newData);
    }
  }
}
