# Pseudonymising Aperio SVS slides, modelled in Dafny

The tool pseudonymises whole-slide images (WSI) in the Aperio SVS format,
which is classic TIFF. It edits the slide file in place:

- it rewrites the `|`-separated `key=value` ImageDescription (tag 270) of each page;
- it swaps the label image for a rendered pseudonym label, with new strips and new strip tables;
- it keeps the original description and label strips, so that a later run can write them back.

Around those edits it gives every slide, case, patient and study a pseudo-ID. A real ID that is already in the store keeps its pseudo-ID. It also picks file names that do not exist yet and writes an output JSON.

This project models that core on values and classes and proves what the code promises of it. The model is one Dafny module per file:

| file | module | what it models |
|---|---|---|
| wrappers.dfy | Wrappers | `Option` and `Result` |
| compression_utils.dfy | CompressionUtils | the signed `int_to_bytes`/`int_from_bytes` codec in either byte order, the writable compression codes, and the split of an image into strips (`compression_image`, NONE path) |
| file_bytes.dfy | FileBytes | the slide file as a growing byte string (`SlideFile`), its seek-and-write, and its 4-byte integer fields in the header byte order |
| text.dfy | Text | `in`, `split`, `join`, `lower` and decimal rendering on ASCII byte strings |
| metadata.dfy | Metadata | `generate_metadata_svs` and the IFD entry of tag 270 (count at entry + 4, value offset at entry + 8, section 2 of TIFF 6.0) |
| metadata_file.dfy | MetadataFile | `replace_metadata_svs` (pad in place or append at the end) and `back_up_metadata_svs`, and their round trip |
| label_strips.dfy | LabelStrips | `replace_label_with_pseudonym_svs` and `back_up_image_svs` on tags 259, 273 and 279, and their round trip |
| label_layout.dfy | LabelLayout | `Schema.add_cell` and the integer sizing and placing done by `create_pseudo_label` |
| identity.dfy | Identity | `create_unique_pseudo_id` and the reuse-or-draw rules of `WSI`, `Case`, `Patient` and `Study.create` |
| naming.dfy | Naming | the barcode text of `create_pseudonym` and the path loops of `create_file_path_in_store` and `copy_clone` |
| output_json.dfy | OutputJson | `create_json` for a single slide |
| input_handler.dfy | InputHandler | input type detection, vendor choice, the label and macro page scans and where they raise, slide errors, `check_format_support`, `get_image_data` and the slide loops of `InputData` |

Values the tool gets from foreign libraries become inputs of the model:

- what tifffile parses (flags, pages, IFD entries, strip tables);
- the compressed strip bytes;
- the store rows;
- the random draws;
- font and barcode extents.

Where the code writes, reads or loops over a buffer, the model does the same with a class (`SlideFile`, `JsonObject`, `Slide`, `InputData`) or a method with a loop. Each such method is proved against a function that states its result.

## Model

| member | source | states |
|---|---|---|
| CompressionUtils.UnsignedBE | compression_utils.py:82-85 | the big-endian byte string `to_bytes` writes for an unsigned value below 256^length has exactly `length` bytes |
| CompressionUtils.UnsignedLE | compression_utils.py:82-85 | the little-endian byte string has exactly `length` bytes |
| CompressionUtils.FromUnsignedBE | compression_utils.py:97-98 | reading `n` bytes most-significant first gives a value below 256^n |
| CompressionUtils.FromUnsignedLE | compression_utils.py:97-98 | reading `n` bytes least-significant first gives a value below 256^n |
| CompressionUtils.TwosComplement | compression_utils.py:85 | a value in the signed range of `length` bytes has a two's-complement pattern below 256^length |
| CompressionUtils.BERoundTrip | compression_utils.py:82-98 | reading back the big-endian encoding of an unsigned value gives the value |
| CompressionUtils.BEFromRoundTrip | compression_utils.py:82-98 | re-encoding the value read from any byte string gives the same bytes |
| CompressionUtils.LEIsReversedBE | compression_utils.py:82 | the little-endian encoding is the byte reverse of the big-endian one |
| CompressionUtils.LEReadsReversedBE | compression_utils.py:97-98 | reading little-endian is reading the reversed bytes big-endian |
| CompressionUtils.SignByteBE | compression_utils.py:85 | the first big-endian byte is 128 or more exactly when the pattern encodes a negative number |
| CompressionUtils.SignByteFromBE | compression_utils.py:98 | a byte string reads as negative exactly when its first byte is 128 or more |
| CompressionUtils.EncodeSucceedsIffInRange | compression_utils.py:83-85 | `int_to_bytes` with an explicit length succeeds exactly when the number fits that many signed bytes, and then returns that many bytes |
| CompressionUtils.IntRoundTrip | compression_utils.py:70-98 | `int_from_bytes(int_to_bytes(n, L, e), e) == n` for every n in the signed range of L bytes and both byte orders |
| CompressionUtils.BytesRoundTrip | compression_utils.py:70-98 | every byte string is the `int_to_bytes` encoding, at its own length, of the value `int_from_bytes` reads from it |
| CompressionUtils.SignedRangeByBits | compression_utils.py:84 | a number fits L signed bytes exactly when the bit length of `n + (n < 0)` (or of its magnitude) is at most 8L - 1 |
| CompressionUtils.MinSignedLengthIsLeast | compression_utils.py:83-85 | the default length chosen for `length == -1` is at least 1, fits the number, is the least length that does, so the default call never fails |
| CompressionUtils.Signed32 | compression_utils.py:85 | four signed bytes hold exactly the range [-2^31, 2^31) |
| CompressionUtils.FourByteOffsetLimit | compression_utils.py:85 | a 4-byte `int_to_bytes` of a file offset fails exactly when the offset is outside [-2^31, 2^31) |
| CompressionUtils.StripCount | compression_utils.py:108-130 | the strip count the loop uses (`height // rows_per_strip`, plus one when a remainder is left) equals the docstring's floor((ImageLength + RowsPerStrip - 1) / RowsPerStrip) |
| CompressionUtils.StripHeights | compression_utils.py:121-140 | every strip is non-empty, ends inside the image, and holds `rows_per_strip` rows except the partial last one, which holds `height % rows_per_strip` |
| CompressionUtils.StripsAdjacent | compression_utils.py:132-140 | each strip starts on the row where the previous one ends |
| CompressionUtils.LastStripEnd | compression_utils.py:127-140 | the last strip ends on the last row of the image |
| CompressionUtils.RawStrip | compression_utils.py:138-143 | the flattened strip i is the image bytes from row `i * rows_per_strip` on, of the strip's height times the row length |
| CompressionUtils.StripBytes | compression_utils.py:135-142 | the byte range of every strip lies inside the image |
| CompressionUtils.DoneLengthBound | compression_utils.py:132-143 | the strips before strip i cover no more than the image |
| CompressionUtils.StripSlice | compression_utils.py:135-143 | the slice `img[start:start+rows]` the loop takes for strip i, flattened, is the raw strip |
| CompressionUtils.StripsCoverImage | compression_utils.py:132-155 | all strips together cover the whole image |
| CompressionUtils.ConcatStep | compression_utils.py:132-153 | appending strip i extends the covered prefix of the image by exactly that strip |
| CompressionUtils.CompressionImage | compression_utils.py:101-155 | returns one tile per strip (the docstring's count), tile i has index i, `count == len(data)` and holds strip i passed through the chosen encoder; without compression the tiles concatenate back to the image |
| Text.FindFrom | pseudonymisation.py:1293 | the search returns the first position at or after `from` where the pattern occurs, and None only when it occurs nowhere from there on |
| Text.ContainsIff | pseudonymisation.py:1293 | `pat in s` holds exactly when the pattern occurs at some position of s |
| Text.Split | pseudonymisation.py:1301 | `str.split(sep)` always returns at least one piece |
| Text.SplitStep | pseudonymisation.py:1301 | splitting at the first occurrence of the separator gives the text before it followed by the split of the rest |
| Text.JoinCons | pseudonymisation.py:1328 | joining a piece in front of a non-empty list puts one separator between it and the join of the rest |
| Text.JoinSnoc | pseudonymisation.py:1105 | joining a non-empty list with one more piece at the end appends one separator and that piece |
| Text.JoinSplit | pseudonymisation.py:1301-1328 | `sep.join(s.split(sep)) == s` for every text and non-empty separator |
| Text.SplitPiecesAvoidSeparator | pseudonymisation.py:1301 | no piece of a split contains the separator |
| Text.ByteAbsent | pseudonymisation.py:1308 | a text that does not contain a one-byte pattern has no byte equal to it |
| Text.ByteFree | pseudonymisation.py:1308 | a text with no byte equal to c does not contain the pattern c |
| Text.SplitJoin | pseudonymisation.py:1301-1328 | splitting the join of pieces that avoid a one-byte separator gives the pieces back |
| Text.LowerAscii | pseudonymisation.py:584 | `lower()` keeps the length, maps A-Z to a-z and leaves every other byte alone |
| Text.Decimal | pseudonymisation.py:1098-1108 | the decimal text of a number is non-empty and made of digits only |
| Text.DecimalRoundTrip | pseudonymisation.py:1098-1108 | reading back the decimal text of a number gives the number |
| Text.DecimalInjective | pseudonymisation.py:1098-1108 | two numbers with the same decimal text are equal |
| Metadata.EditSegmentSound | pseudonymisation.py:1306-1322 | a segment is edited only when it contains "=", splits on its separator (" = " when present, else "=") into exactly a key and a value, and the key is in new_data; it is removed exactly when the new value is None and otherwise becomes key + separator + new value |
| Metadata.EditSegmentComplete | pseudonymisation.py:1306-1322 | every `key=value` segment whose key is in new_data is removed (value None) or rewritten to `key=new value` |
| Metadata.Decisions | pseudonymisation.py:1306 | one decision per segment, each the decision for that segment |
| Metadata.ApplyEdits | pseudonymisation.py:1322-1325 | the surviving segments are no more than the original ones |
| Metadata.Edited | pseudonymisation.py:1322 | the in-place assignments keep the number of segments |
| Metadata.EditedSnoc | pseudonymisation.py:1306-1322 | one more step of the segment loop extends the edited list by the edited segment at that position |
| Metadata.RemovedSnoc | pseudonymisation.py:1318-1320 | one more step of the segment loop appends the position to removing_index exactly when that segment is removed |
| Metadata.RemovedPositionsIff | pseudonymisation.py:1304-1320 | removing_index lists only positions of the list, and lists a position exactly when its segment is removed |
| Metadata.DeleteIndices | pseudonymisation.py:1325 | `np.delete` never lengthens the list |
| Metadata.DeleteEdited | pseudonymisation.py:1322-1325 | deleting the listed positions from the edited list leaves exactly the surviving edited segments, in order |
| Metadata.ApplyEditsUntouched | pseudonymisation.py:1306-1325 | when no segment is touched the list comes out unchanged |
| Metadata.DecideSegment | pseudonymisation.py:1307-1322 | the separator choice and key test of one loop step: it removes exactly when the segment's decision is Remove and gives the replacement text exactly when it is Replace |
| Metadata.RewriteDescription | pseudonymisation.py:1301-1328 | the split-edit-delete-join loop computes the new description that the decisions define |
| Metadata.RewriteUntouched | pseudonymisation.py:1301-1328 | a description none of whose segments is touched is written back unchanged |
| Metadata.EditsFreeOfPipe | pseudonymisation.py:1301-1325 | when no new value contains "\|", no surviving segment does |
| Metadata.NewDescriptionResplits | pseudonymisation.py:1301-1328 | splitting the new description on "\|" gives back exactly the surviving segments, so the `key=value` structure is kept |
| Metadata.HasIdentifier | pseudonymisation.py:1291-1295 | have_data is set exactly when some key of new_data occurs in the description |
| Metadata.GenerateMetadata | pseudonymisation.py:1266-1347 | the page loop returns origin_data and new_metadata as the specification functions define them: one record per page whose description mentions a key |
| Metadata.GeneratedAligned | pseudonymisation.py:1285-1339 | the two lists have equal length and entry k of both is about the same touched page: the saved tag of that page and its rewritten description |
| Metadata.OriginsOrdered | pseudonymisation.py:1285-1339 | saved records name pages of the file in strictly increasing page order |
| Metadata.OriginsComplete | pseudonymisation.py:1285-1339 | every page whose description mentions a key of new_data has a saved record |
| Metadata.NothingToGenerate | pseudonymisation.py:1290-1298 | a file none of whose descriptions mentions a key yields two empty lists |
| FileBytes.Zeros | pseudonymisation_utils.py:454 | `b'\x00' * n` is n zero bytes |
| FileBytes.Spaces | pseudonymisation.py:1388 | `"".ljust(n)` is n spaces |
| FileBytes.Ljust | pseudonymisation.py:1378 | `ljust(width)` keeps the text, pads it with spaces up to `width`, and never shortens it |
| FileBytes.Overwrite | pseudonymisation.py:1381-1382 | seek-then-write leaves the length alone when the data fit, and otherwise extends the file to the end of the written data |
| FileBytes.OverwriteAt | pseudonymisation.py:1381-1382 | after a seek-then-write each byte is the written byte inside the written range, the old byte elsewhere, and zero in a gap opened past the old end |
| FileBytes.OverwriteReadBack | pseudonymisation.py:1381-1382 | the written range reads back as the written data |
| FileBytes.OverwriteAdjacent | pseudonymisation_utils.py:468-469 | two consecutive writes equal one write of their concatenation |
| FileBytes.OverwriteCovers | pseudonymisation.py:1447-1448 | a write at the same position that is at least as long hides the earlier one |
| FileBytes.OverwriteSame | pseudonymisation.py:1458-1459 | writing back the bytes a range already holds changes nothing |
| FileBytes.Read | pseudonymisation.py:1367 | `f.read(n)` from a position returns the bytes there, cut short at the end of the file |
| FileBytes.IsBigEndian | pseudonymisation.py:1367 | the file is big-endian exactly when its first two bytes are "MM" |
| FileBytes.EncodeInts | pseudonymisation_utils.py:468-469 | the 4-byte encodings of n integers take 4n bytes |
| FileBytes.IntsWritten | pseudonymisation_utils.py:468-469 | writing a list of integers as signed 4-byte values succeeds exactly when every one fits |
| FileBytes.WriteIntsIsOverwrite | pseudonymisation_utils.py:467-469 | when every integer fits, the loop of writes is one write of their concatenated encodings |
| FileBytes.EncodeIntsAt | pseudonymisation_utils.py:468-469 | bytes 4k to 4k+4 of the encoded list are `int_to_bytes(ns[k], 4)` |
| FileBytes.OverwriteSlice | pseudonymisation.py:1381-1382 | any sub-range of the written data reads back at the matching file position |
| FileBytes.WriteIntsField | pseudonymisation_utils.py:467-469 | after writing a table of integers, entry k of the table reads back as ns[k] |
| FileBytes.OverwriteKeeps | pseudonymisation.py:1381-1382 | a write leaves every range it does not touch unchanged |
| FileBytes.ReadEncoded | pseudonymisation_utils.py:467-469 | a region holding the encoded table reads back entry by entry |
| FileBytes.TableTail | pseudonymisation_utils.py:533-540 | a table read entry by entry at pos is, from pos + 4, the table without its first entry |
| FileBytes.TableReEncode | pseudonymisation_utils.py:533-540 | every table read from the file fits 4 signed bytes and encodes back to the same bytes |
| FileBytes.WriteIntsFrame | pseudonymisation_utils.py:467-469 | writing a table changes only its 4n bytes, and extends the file only when it runs past the end |
| FileBytes.SlideFile.constructor | pseudonymisation_utils.py:432 | the open file holds the given bytes |
| FileBytes.SlideFile.Write | pseudonymisation_utils.py:453-454 | seek-then-write updates the file as Overwrite says |
| FileBytes.SlideFile.Append | pseudonymisation_utils.py:474-477 | seek to the end, `tell()`, write: returns the old length and the file gains the data at its end |
| FileBytes.SlideFile.WriteInts | pseudonymisation_utils.py:467-469 | the loop of 4-byte writes updates the file as IntsWritten says, and reports failure on the first value that does not fit |
| MetadataFile.ReplaceDescriptionIn | pseudonymisation.py:1368-1401 | one pass of the replace loop updates the open file and reports failure as ReplaceDescription says: count field first, then the padded text in place, or a blanked old value, the text appended at the end and the value offset pointed at it |
| MetadataFile.NewMetasAddressable | pseudonymisation.py:1329-1339 | every entry of new_metadata names a page that has a description tag, so `tif.pages[idx].tags.get(270)` always finds one |
| MetadataFile.ReplaceAllStep | pseudonymisation.py:1368-1401 | one more entry of the loop: the rest of the loop runs on the file the entry wrote, and a failing write ends it |
| MetadataFile.WriteNewMetadata | pseudonymisation.py:1368-1401 | the loop over new_metadata updates the file as ReplaceAll says |
| MetadataFile.ReplaceMetadataSvs | pseudonymisation.py:1349-1409 | returns origin_data exactly as generate_metadata_svs builds it, and writes every new description into the file with the byte order read from its first two bytes |
| MetadataFile.ReplaceRejectsLongText | pseudonymisation.py:1373 | a new description of 2^31 bytes or more fails at the count write, and the file is left as it was |
| MetadataFile.Enc32 | pseudonymisation.py:1373 | a length below 2^31 encodes to 4 bytes that read back as the length |
| MetadataFile.WriteOne | pseudonymisation.py:1372-1373 | writing one fitting integer is a seek-then-write of its 4-byte encoding |
| MetadataFile.ReplaceInPlaceWrites | pseudonymisation.py:1372-1382 | a text shorter than the old description becomes two writes: its length into the count field, then the text padded to the old count at the old value offset |
| MetadataFile.ReplaceInPlace | pseudonymisation.py:1372-1382 | in place, the write succeeds, the file keeps its size, the count field reads back as the new length and the value region starts with the new text |
| MetadataFile.InPlaceFacts | pseudonymisation.py:1372-1382 | the same facts stated over the two writes |
| MetadataFile.InPlaceBytes | pseudonymisation.py:1372-1382 | each byte after the two in-place writes is the padded text, the count encoding, or the old byte |
| MetadataFile.InPlaceReadBack | pseudonymisation.py:1372-1382 | with the count field apart from the value region, both writes read back |
| MetadataFile.ReplaceInPlaceFrame | pseudonymisation.py:1375-1382 | in place, the rest of the old value region becomes spaces and nothing outside the count field and that region changes |
| MetadataFile.InPlaceFrameFacts | pseudonymisation.py:1375-1382 | the same frame stated over the two writes |
| MetadataFile.ReplaceAtEndWrites | pseudonymisation.py:1383-1399 | a text at least as long as the old description becomes: count write, blanking the old value, appending the text, and writing the old file length into the value-offset field |
| MetadataFile.ReplaceAtEnd | pseudonymisation.py:1383-1399 | at the end, the write succeeds, the file grows by the text, the text is its new tail, and the count and value-offset fields read back as the new length and the old file length |
| MetadataFile.AtEndFacts | pseudonymisation.py:1383-1399 | the same facts stated over the four writes |
| MetadataFile.AtEndBytes | pseudonymisation.py:1383-1399 | each byte after the four writes is the offset encoding, the appended text, a blank, the count encoding, or the old byte |
| MetadataFile.AtEndReadBack | pseudonymisation.py:1383-1399 | with both fields apart from the value region, both fields and the appended text read back |
| MetadataFile.ReplaceAtEndFrame | pseudonymisation.py:1386-1399 | at the end, the whole old value region becomes spaces and nothing else in the old file changes outside the two fields |
| MetadataFile.AtEndFrameFacts | pseudonymisation.py:1386-1399 | the same frame stated over the four writes |
| MetadataFile.Saved | pseudonymisation.py:1333-1339 | the record saved for a page carries all five keys back-up requires |
| MetadataFile.PageAt | pseudonymisation.py:1439 | `tif.pages[i]` finds a page exactly for an index inside the list, or a negative one on a non-empty list, and an index inside the list names that page |
| MetadataFile.AllKeysPresent | pseudonymisation.py:1419-1424 | the required-keys check passes exactly when every record has page_index, shape, count, value_offset and value |
| MetadataFile.BackUpDescriptionIn | pseudonymisation.py:1444-1461 | one pass of the back-up loop updates the file as BackUpDescription says: blank the current value, write the saved count and value offset, write the saved value at the saved offset |
| MetadataFile.BackUpMetadataSvs | pseudonymisation.py:1411-1466 | a record missing a key stops the back-up before any write; otherwise the records are written back in order, and a missing page, a shape mismatch or a failing write ends the loop |
| MetadataFile.FieldsReEncode | pseudonymisation.py:1451-1455 | the count and value-offset fields read from a file fit 4 signed bytes and encode back to the same 8 bytes |
| MetadataFile.BackUpWrites | pseudonymisation.py:1446-1459 | with fitting values, the back-up of one record is exactly three writes: blanks, the two fields, the value |
| MetadataFile.WellFormedFields | pseudonymisation.py:1446-1459 | a tag whose fields read its count and value offset and whose value lies in the file gives the facts the restore needs |
| MetadataFile.TagFields | pseudonymisation.py:1451-1455 | fields read from the file fit and re-encode to the bytes they were read from |
| MetadataFile.BackUpBytes | pseudonymisation.py:1446-1459 | writing back the saved fields and value over a replaced file restores the original up to spaces in the unused tail of the value region and past the old end |
| MetadataFile.RestoredBytes | pseudonymisation.py:1446-1459 | the byte-level form of BackUpBytes over plain values |
| MetadataFile.RestoreInPlace | pseudonymisation.py:1372-1459 | replacing in place and then backing up the saved record gives the original file up to trailing spaces in the value region |
| MetadataFile.RestoreAtEnd | pseudonymisation.py:1383-1459 | replacing at the end and then backing up gives the original file, with the appended tail turned to spaces |
| MetadataFile.ReplaceThenRestore | pseudonymisation.py:1349-1466 | for every well-formed description tag and every new text below 2^31 bytes in a file below 2^31 bytes, replace succeeds and back-up restores the original file up to padding spaces |
| LabelStrips.ChosenCompression | pseudonymisation_utils.py:438-442 | the label keeps its compression when the tool can produce it, and otherwise switches to Adobe deflate |
| LabelStrips.Counts | pseudonymisation_utils.py:466 | new_strip_byte_counts has one entry per tile, the tile's count |
| LabelStrips.StripOffsets | pseudonymisation_utils.py:471-476 | new_strip_offsets has one entry per tile |
| LabelStrips.ConcatSnoc | pseudonymisation_utils.py:475-477 | writing one more tile extends the appended data by that tile |
| LabelStrips.StripOffsetsSnoc | pseudonymisation_utils.py:475-477 | the offset recorded for tile k is the old file end plus the bytes of the tiles before it |
| LabelStrips.StripOffsetsContiguous | pseudonymisation_utils.py:474-477 | the first strip starts at the old end of the file, each strip starts where the previous one ends, and the last ends at the new end of the file |
| LabelStrips.ConcatAt | pseudonymisation_utils.py:475-477 | tile k's data sits inside the appended data right after the tiles before it |
| LabelStrips.AppendStrips | pseudonymisation_utils.py:474-477 | the append loop adds the tiles' data at the end of the file and returns the position each tile was written at |
| LabelStrips.ReplaceLabelWithPseudonymSvs | pseudonymisation_utils.py:417-491 | updates the file as ReplaceLabel says: zero the old strips, rewrite the compression when it changed, write the new counts, append the strips, write their offsets; a value that does not fit 4 signed bytes makes it report failure |
| LabelStrips.BackUpImage | pseudonymisation_utils.py:505-510 | a saved image missing one of the four keys is refused and the file is left as it was |
| LabelStrips.BackUpImageSvs | pseudonymisation_utils.py:494-551 | updates the file as BackUpImage says: key check, zero the current strips, write the saved compression, counts and offsets, then the saved data at the first saved offset |
| LabelStrips.InAnyAt | pseudonymisation_utils.py:450-482 | a position inside region k lies in the union of the regions |
| LabelStrips.WriteWithin | pseudonymisation_utils.py:450-482 | a write inside one of the regions keeps the file the same outside the regions |
| LabelStrips.IntsWithin | pseudonymisation_utils.py:465-469 | a table write of fitting values inside one of the regions succeeds and keeps the file the same outside them |
| LabelStrips.WriteBack | pseudonymisation_utils.py:542-544 | writing back a region's original bytes removes it from the regions still to restore |
| LabelStrips.IntsBack | pseudonymisation_utils.py:532-540 | re-encoding a table read from a region writes back exactly its original bytes |
| LabelStrips.TablesFit | pseudonymisation_utils.py:466-482 | under the 2^31 bound on the new file size, every count and offset written fits 4 signed bytes |
| LabelStrips.ReplaceLabelStages | pseudonymisation_utils.py:450-482 | with the label's tables inside the file and the new values fitting, the replace succeeds and its result is the stated sequence of writes |
| LabelStrips.AppendKeeps | pseudonymisation_utils.py:474-477 | appending leaves every range of the old file as it was |
| LabelStrips.Survives | pseudonymisation_utils.py:480-482 | a range apart from the offset table survives the append and the offset write |
| LabelStrips.KeptThrough | pseudonymisation_utils.py:457-482 | a range apart from every table write survives the whole replace |
| LabelStrips.ReplaceLabelAppends | pseudonymisation_utils.py:473-477 | after the replace the file is the old file length plus the new strips, and its tail is the new strips' data |
| LabelStrips.ReplaceLabelTail | pseudonymisation_utils.py:473-482 | the last two stages of the replace: append, then the offset table write |
| LabelStrips.ReplaceLabelStripAt | pseudonymisation_utils.py:473-482 | the new tile k lies in the file at the offset recorded for it |
| LabelStrips.StripAt | pseudonymisation_utils.py:474-477 | in a file ending with the appended tiles, tile k lies at its recorded offset |
| LabelStrips.ReplaceLabelCountAt | pseudonymisation_utils.py:465-469 | after the replace, entry k of the StripByteCounts table reads back as tile k's count |
| LabelStrips.ReplaceLabelOffsetAt | pseudonymisation_utils.py:479-482 | after the replace, entry k of the StripOffsets table reads back as tile k's offset |
| LabelStrips.TablesPlaced | pseudonymisation_utils.py:467-480 | in a placed label the two tables are inside the file and do not overlap |
| LabelStrips.FirstTableLands | pseudonymisation_utils.py:465-482 | the counts table written before the append and the offset write reads back entry by entry |
| LabelStrips.LastTableLands | pseudonymisation_utils.py:479-482 | the offsets table written last reads back entry by entry |
| LabelStrips.ReadAt | pseudonymisation_utils.py:468-469 | a region holding an encoded table reads back entry k |
| LabelStrips.ReplaceLabelCompression | pseudonymisation_utils.py:457-463 | after the replace the compression field reads the chosen compression, whether it was rewritten or kept |
| LabelStrips.FieldKept | pseudonymisation_utils.py:457-463 | when the compression is kept its field is untouched by the other writes |
| LabelStrips.FieldLands | pseudonymisation_utils.py:457-463 | a rewritten compression field survives the later writes |
| LabelStrips.ReadOne | pseudonymisation_utils.py:463 | a field holding the encoding of v reads as v |
| LabelStrips.SameRead | pseudonymisation_utils.py:463 | two files equal on a field read the same value there |
| LabelStrips.ReplaceLabelWipes | pseudonymisation_utils.py:450-454 | after the replace the old label data region is all zeros |
| LabelStrips.ZerosKept | pseudonymisation_utils.py:450-482 | the zeroed data survives the later writes when the tables lie apart from it |
| LabelStrips.ReplaceLabelFrame | pseudonymisation_utils.py:417-482 | the replace changes the old file only in the compression field, the two tables and the old data region |
| LabelStrips.ReplaceLabelKeepsOrder | pseudonymisation_utils.py:435 | the replace keeps the byte-order mark, so a later back-up reads the same byte order |
| LabelStrips.WithinThrough | pseudonymisation_utils.py:450-482 | a sequence of writes inside the four regions keeps the file the same outside them |
| LabelStrips.AppendWithin | pseudonymisation_utils.py:474-477 | appending keeps the file the same outside the regions |
| LabelStrips.MarkKept | pseudonymisation_utils.py:435 | writes that stay past byte 2 keep the byte-order mark |
| LabelStrips.NotInAny | pseudonymisation_utils.py:450-482 | a position before every region is in none of them |
| LabelStrips.SumCounts | pseudonymisation_utils.py:466 | the sum of the new strip byte counts is the size of the appended data |
| LabelStrips.BackUpStages | pseudonymisation_utils.py:520-545 | with a complete saved image whose values fit, the back-up is the stated five writes and succeeds |
| LabelStrips.BackUpImageData | pseudonymisation_utils.py:542-544 | after a back-up the saved data lies at the first saved offset |
| LabelStrips.IfdAfterReplace | pseudonymisation_utils.py:466-482 | the label directory after a replace has one offset and one count per new tile and the same tag positions |
| LabelStrips.SavedLabel | pseudonymisation.py:1137-1143 | the record saved before a replace carries all four keys back-up requires |
| LabelStrips.FieldAsTable | pseudonymisation_utils.py:528-530 | a single field read from the file is a one-entry table |
| LabelStrips.RestoreChain | pseudonymisation_utils.py:520-544 | writing back the compression, both tables and the data over a file that differs from the original only in those regions and a tail gives the original followed by zeros |
| LabelStrips.LastBack | pseudonymisation_utils.py:542-544 | writing back the data region completes the restore |
| LabelStrips.TailZeroed | pseudonymisation_utils.py:520-524 | zeroing the strips appended by the replace leaves zeros past the original end |
| LabelStrips.NoneLeft | pseudonymisation_utils.py:520-544 | a file the same as the original outside no region is the original on its first bytes |
| LabelStrips.ReplaceThenBackUp | pseudonymisation_utils.py:417-551 | replacing the label and then backing up the saved label both succeed and give the original file followed by zeros where the new strips were |
| LabelStrips.RoundTripBytes | pseudonymisation_utils.py:417-551 | the same round trip, naming the intermediate file |
| LabelStrips.RestoredFile | pseudonymisation_utils.py:520-544 | the back-up writes of the saved label over the replaced file give the original followed by zeros |
| LabelStrips.ReplacedFile | pseudonymisation_utils.py:417-482 | the replace succeeds, grows the file by the new strips and changes it only in the four label regions |
| LabelStrips.RegionsCons | pseudonymisation_utils.py:450-482 | the four label regions: compression field, counts table, offsets table, old data |
| LabelStrips.LabelNumbersFit | pseudonymisation_utils.py:528-540 | the compression, counts and offsets read from the file fit 4 signed bytes |
| LabelStrips.RestoreStages | pseudonymisation_utils.py:520-545 | backing up the saved label over the replaced file is the stated five writes and succeeds |
| LabelLayout.CeilDiv | pseudonymisation_utils.py:292 | `math.ceil(a / b)` for a positive divisor: the least r with a <= r * b |
| LabelLayout.SpanFlagsMeaning | pseudonymisation_utils.py:197-209 | after the cells are added, a row's flag is 1 exactly when some cell in that row spans more than one column (or row), and 0 otherwise |
| LabelLayout.Schema.constructor | pseudonymisation_utils.py:188-198 | a new schema has the given column and row counts, no cells and all span flags zero |
| LabelLayout.Schema.AddCell | pseudonymisation_utils.py:200-210 | adding a cell appends it and sets its row's colspan or rowspan flag when it spans more than one, leaving every other flag alone |
| LabelLayout.BaseSizes | pseudonymisation_utils.py:251-284 | one size per column (or row) |
| LabelLayout.WidenOne | pseudonymisation_utils.py:287-294 | widening for one spanning cell keeps the number of columns |
| LabelLayout.Widen | pseudonymisation_utils.py:287-304 | widening for all spanning cells keeps the number of columns |
| LabelLayout.AtLeast | pseudonymisation_utils.py:308 | every width is raised to at least 140 and is either 140 or what it was |
| LabelLayout.Sizes | pseudonymisation_utils.py:242-304 | one size per column (or row) |
| LabelLayout.SpanEntriesFit | pseudonymisation_utils.py:262-278 | every recorded spanning entry starts inside the table |
| LabelLayout.ColumnWidths | pseudonymisation_utils.py:242-308 | one width per column |
| LabelLayout.RowHeights | pseudonymisation_utils.py:243-304 | one height per row |
| LabelLayout.TotalAddEach | pseudonymisation_utils.py:289-294 | adding the gap to each of n sizes adds n times the gap to their sum |
| LabelLayout.TotalMonotone | pseudonymisation_utils.py:289-294 | raising sizes never lowers their sum |
| LabelLayout.WidenOneGrows | pseudonymisation_utils.py:287-294 | widening for a spanning cell never narrows a column |
| LabelLayout.WidenOneCovers | pseudonymisation_utils.py:287-294 | after widening for a spanning cell, the columns it spans sum to at least its width |
| LabelLayout.CoversGrows | pseudonymisation_utils.py:287-304 | a covered span stays covered when sizes only grow |
| LabelLayout.WidenGrows | pseudonymisation_utils.py:287-304 | the whole widening loop never narrows a column |
| LabelLayout.WidenCovers | pseudonymisation_utils.py:287-304 | after the whole widening loop, every spanning cell's columns sum to at least its width |
| LabelLayout.BaseCovers | pseudonymisation_utils.py:258-282 | a cell in a row without span flag gets a column at least as wide (a row at least as high) as its padded content |
| LabelLayout.SpanEntryOf | pseudonymisation_utils.py:261-268 | a cell in a flagged row is recorded among the spanning entries |
| LabelLayout.SizeCoversField | pseudonymisation_utils.py:251-304 | after widening, a cell in an unflagged row still gets a column (row) that holds its padded content |
| LabelLayout.SpanCovered | pseudonymisation_utils.py:261-304 | after widening, every cell in a flagged row gets columns (rows) that together hold its padded content |
| LabelLayout.ColumnWidthsCover | pseudonymisation_utils.py:251-308 | every column is at least 140 wide and every cell's padded content fits the column, or the columns it spans |
| LabelLayout.RowHeightsCover | pseudonymisation_utils.py:251-304 | every cell's padded content fits its row, or the rows it spans |
| LabelLayout.WidenSpan | pseudonymisation_utils.py:287-294 | the in-place widening for one spanning entry updates the array as WidenOne says |
| LabelLayout.WidenAll | pseudonymisation_utils.py:287-304 | the loop over spanning entries updates the array as Widen says |
| LabelLayout.RaiseToMinimum | pseudonymisation_utils.py:308 | raises the widths array in place as AtLeast says |
| LabelLayout.MeasureFields | pseudonymisation_utils.py:242-284 | the measuring loop fills fresh width and height arrays and the two spanning lists as the specification functions define them |
| LabelLayout.LabelSize | pseudonymisation_utils.py:240-314 | returns the column widths, row heights and the canvas size as their sums |
| LabelLayout.TotalSplit | pseudonymisation_utils.py:323 | the sum of the sizes is the sum of those before a cell plus the sum of the rest |
| LabelLayout.CellStartStep | pseudonymisation_utils.py:323 | the next cell starts where this one ends |
| LabelLayout.CellInCanvas | pseudonymisation_utils.py:311-323 | with non-negative sizes every cell starts inside the canvas and ends within its total size |
| LabelLayout.ZerosTotal | pseudonymisation_utils.py:242 | a fresh zero array sums to zero |
| LabelLayout.FieldXPlacement | pseudonymisation_utils.py:320-354 | a left-aligned field starts its padding at its cell, a right-aligned one ends its padding at its cell's right edge, and a centred or spanning field leaves equal room on both sides, up to one pixel |
| Identity.UniquePseudoId | pseudonymisation.py:98-118 | the result is always the one candidate drawn; with trials >= 0 it is returned exactly when no stored row has that pseudo-ID (a collision only counts trials down to the exception); with trials < 0 the loop never runs and the candidate is returned unchecked |
| Identity.CreateUniquePseudoId | pseudonymisation.py:84-118 | the trial-counting loop returns what UniquePseudoId says |
| Identity.StoreKeepsUnique | pseudonymisation.py:84-118 | storing a row whose pseudo-ID is fresh, or the one its id already had, keeps pseudo-IDs unique across the table |
| Identity.RulesQuietOnStoredInput | pseudonymisation.py:286-328 | when the store already holds the given value, a field adds nothing to need_to_be_updated |
| Identity.WsiCreate | pseudonymisation.py:243-298 | the slide keeps the input id, and creation fails exactly when the id is not stored and the drawn pseudo-ID is already taken |
| Identity.WsiReuse | pseudonymisation.py:268-298 | a slide id already in the store reuses its pseudo_id, pseudo_name, pseudo_acquired_at and metadata name and key, sets get_from_database, and marks only slide columns for update |
| Identity.WsiFresh | pseudonymisation.py:279-314 | a new slide id with a free draw takes the drawn pseudo-ID, names the slide "wsi_" + pseudo-ID when a name is given, takes the drawn date when acquired_at is given, and marks nothing for update |
| Identity.WsiRecreate | pseudonymisation.py:243-328 | creating the same slide again against the store that holds the row just created returns the same pseudonyms, whatever is drawn, with get_from_database set and nothing to update |
| Identity.WsiStoreUnique | pseudonymisation.py:268-298 | storing the row of a successful create keeps pseudo-IDs unique in the slide table |
| Identity.Wsi.constructor | pseudonymisation.py:220-241 | a new WSI has every field None, fields_count 1, get_from_database false and nothing to update |
| Identity.Wsi.Create | pseudonymisation.py:243-339 | `WSI.create` leaves the object in the state WsiCreate defines and reports its success |
| Identity.Wsi.LookUp | pseudonymisation.py:261-284 | sets the id; found means the id is stored; on success the pseudonyms come from the stored row or the fresh pseudo-ID and get_from_database is found; on failure only the id is set |
| Identity.Wsi.TakeName | pseudonymisation.py:286-298 | the name step of `WSI.create`: records the given name, chooses the pseudo-name by the reuse rule, adds "name"/"pseudo_name" as the rule says and counts the field |
| Identity.Wsi.TakeAcquiredAt | pseudonymisation.py:300-314 | the acquired_at step: the same rule with the drawn date |
| Identity.Wsi.TakeStain | pseudonymisation.py:316-321 | the stain step: records it, counts it, and marks "stain" when the stored value is missing or differs |
| Identity.Wsi.TakeTissue | pseudonymisation.py:323-328 | the tissue step, as for stain |
| Identity.CreateSlides | pseudonymisation.py:461-465 | creates one fresh WSI per input slide, in order, each in the state WsiCreate gives it |
| Identity.CaseCreate | pseudonymisation.py:403-459 | the case keeps the input id, and creation fails exactly when the id is not stored and the drawn pseudo-ID is taken |
| Identity.CaseRecreate | pseudonymisation.py:403-459 | creating the same case again against the store holding its row returns the same pseudonyms with get_from_database set and nothing to update |
| Identity.CasePseudonyms | pseudonymisation.py:418-444 | a stored case id reuses its pseudo-ID and sets get_from_database; a new one takes the drawn pseudo-ID, is named "case_" + pseudo-ID when a name is given, and marks nothing for update |
| Identity.Case.constructor | pseudonymisation.py:391-401 | a new Case has no values, no slides, fields_count 1 and nothing to update |
| Identity.Case.Create | pseudonymisation.py:403-467 | `Case.create` leaves the state CaseCreate defines, and on success creates its slides as CreateSlides does; on failure it has no slides |
| Identity.Case.LookUp | pseudonymisation.py:410-431 | as for WSI, with the case's stored pseudonyms |
| Identity.Case.TakeName | pseudonymisation.py:433-444 | the name step with the "case_" prefix |
| Identity.Case.TakeCreatedAt | pseudonymisation.py:446-459 | the created_at step: the reuse rule with the drawn date |
| Identity.SexCode | pseudonymisation.py:583-590 | the sex is MALE exactly when the lower-cased text is "male", FEMALE exactly when it is "female", and UNKNOWN otherwise |
| Identity.SexCodeIgnoresCase | pseudonymisation.py:584 | two texts equal after lower-casing get the same sex |
| Identity.PatientCreate | pseudonymisation.py:538-606 | the patient keeps the input id, and creation fails exactly when the id is not stored and the drawn pseudo-ID is taken |
| Identity.PatientRecreate | pseudonymisation.py:538-606 | creating the same patient again against the store holding its row returns the same pseudonyms with get_from_database set and nothing to update |
| Identity.PatientPseudonyms | pseudonymisation.py:556-606 | a stored patient id reuses its pseudo-ID; a new one takes the drawn pseudo-ID, the drawn person name when a name is given, and the drawn age when an age is given (else the initial 0) |
| Identity.Patient.constructor | pseudonymisation.py:525-536 | a new Patient has sex UNKNOWN, age 0, pseudo_age 0, no slides, fields_count 1 |
| Identity.Patient.Create | pseudonymisation.py:538-614 | `Patient.create` leaves the state PatientCreate defines, and on success creates its slides as CreateSlides does |
| Identity.Patient.LookUp | pseudonymisation.py:549-569 | as for WSI, with the patient's stored pseudonyms |
| Identity.Patient.TakeName | pseudonymisation.py:571-581 | the name step with a drawn person name |
| Identity.Patient.TakeSex | pseudonymisation.py:583-594 | the sex step: records SexCode of the text and marks "sex" when the stored code is missing or differs |
| Identity.Patient.TakeAge | pseudonymisation.py:596-606 | the age step with a drawn age |
| Identity.CreatePatients | pseudonymisation.py:740-744 | creates one fresh Patient per input patient, in order, each made as Patient.Create says |
| Identity.StudyCreate | pseudonymisation.py:681-738 | the study keeps the input id, and creation fails exactly when the id is not stored and the drawn pseudo-ID is taken |
| Identity.StudyRecreate | pseudonymisation.py:681-738 | creating the same study again against the store holding its row returns the same pseudonyms with get_from_database set and nothing to update |
| Identity.StudyPseudonyms | pseudonymisation.py:697-723 | a stored study id reuses its pseudo-ID; a new one takes the drawn pseudo-ID and is named "study_" + pseudo-ID when a name is given |
| Identity.Study.constructor | pseudonymisation.py:669-679 | a new Study has no values, no patients, fields_count 1 and nothing to update |
| Identity.Study.Create | pseudonymisation.py:681-746 | `Study.create` leaves the state StudyCreate defines, and on success makes one patient per input patient as Patient.Create says |
| Identity.Study.LookUp | pseudonymisation.py:688-710 | as for WSI, with the study's stored pseudonyms |
| Identity.Study.TakeName | pseudonymisation.py:712-723 | the name step with the "study_" prefix |
| Identity.Study.TakeDate | pseudonymisation.py:725-738 | the date step: the reuse rule with the drawn date |
| Naming.BarcodeParts | pseudonymisation.py:1098-1108 | the barcode has one part for the pseudo-ID plus one for each of pseudo year, stain and tissue that is present |
| Naming.BarcodeValue | pseudonymisation.py:1098-1108 | the step-by-step f-string composition fails (the year of a missing pseudo date) exactly when acquired_at is set but pseudo_acquired_at is not, and otherwise gives the parts joined with "-" |
| Naming.BarcodeReadsBack | pseudonymisation.py:1098-1108 | for an alphanumeric pseudo-ID and a stain and tissue without "-", splitting the barcode on "-" gives the parts back: the pseudo year reads back as a number and the pseudo-ID sits right after it, or first when there is no date |
| Naming.CandidatesDistinct | pseudonymisation.py:207-209 | the path tried at step m differs from the path tried at every other step |
| Naming.Tried | pseudonymisation.py:207-209 | the paths tried in the first n steps include each candidate of those steps |
| Naming.TriedSize | pseudonymisation.py:207-209 | n steps try n different paths |
| Naming.TriedHolds | pseudonymisation.py:207-209 | every tried path is one of the first n candidates |
| Naming.TakenBound | pseudonymisation.py:207-209 | when the first n candidates are all taken there are at least n taken paths, so the search over a finite set of existing paths ends |
| Naming.FirstFreeUnique | pseudonymisation.py:207-209 | there is only one first free candidate |
| Naming.StoreFilePath | pseudonymisation.py:190-211 | returns the drawn name and the first path of store/name, store/name_1, store/name_2, ... that does not exist yet |
| Naming.ClonePath | pseudonymisation.py:976-986 | returns the first of folder/ID + suffix, folder/ID_1 + suffix, folder/ID_2 + suffix, ... that does not exist yet |
| OutputJson.JsonObject.constructor | pseudonymisation.py:2470 | the output object starts as the given JSON |
| OutputJson.OutputEntries | pseudonymisation.py:2483-2514 | the output drops "slide_data", always has "id" and "path" (the path as `str`, so "None" when missing), rewrites "name" only when the input had it, rewrites "acquired_at" only when the input had it and the written date is set, and keeps every other key |
| OutputJson.SingleWsiJson | pseudonymisation.py:2483-2514 | the SINGLE_WSI branch of `create_json` rewrites the JSON object in place into OutputEntries of the old object, with pseudo values when pseudonymising and original values when de-pseudonymising |
| OutputJson.DePseudonymiseOutput | pseudonymisation.py:2483-2514 | de-pseudonymising the pseudonymised output of a slide gives the same JSON as de-pseudonymising the input, provided a slide with a pseudo date also has its original date |
| OutputJson.PseudoDateSurvives | pseudonymisation.py:2499-2512 | when the slide has a pseudo date but no original date, the pseudo date stays in the de-pseudonymised output |
| InputHandler.VendorOf | input_handler.py:115-122 | the vendor is Aperio exactly when the file is SVS, Hamamatsu exactly when it is NDPI and not SVS, and Unknown exactly when it is neither (Mirax is never detected) |
| InputHandler.NewSlideMetadata | input_handler.py:115-125 | the metadata carries VendorOf the file and its BigTIFF flag; the extension is one of the file's flags, or empty when it has none |
| InputHandler.CheckFormatSupport | input_handler.py:194-214 | a file is supported exactly when it parses and one of its flags is svs, tiff, ndpi or mrxs |
| InputHandler.LastOfKind | input_handler.py:148-158 | the index found for a kind is a page of that kind with no page of that kind after it; none is found only when no page has that kind |
| InputHandler.LabelBeforeMacro | input_handler.py:155-158 | a page whose description contains "label" is never taken as the macro, and a label is found at or after it |
| InputHandler.FoundStep | input_handler.py:149-158 | scanning one more page replaces the found image exactly when that page has the kind, and otherwise keeps it |
| InputHandler.Slide.constructor | input_handler.py:131-141 | a slide with at least one page starts with its path, the metadata's vendor and BigTIFF flag, and no label or macro |
| InputHandler.Slide.ScanPages | input_handler.py:143-146 | the page scan (Aperio for SVS, else Hamamatsu for NDPI, else none) completes exactly when ScanCompletes holds; only an SVS scan sets the label and macro, from the pages it got through |
| InputHandler.Slide.GetDataAperio | input_handler.py:148-158 | the scan completes exactly when every page has an ImageDescription (a missing tag raises KeyError past `except IndexError`); the label and the macro are the last pages before the first such raise whose lower-cased description contains "label", resp. "macro" and not "label", or the earlier values when there is none |
| InputHandler.Slide.GetDataHamamatsu | input_handler.py:160-168 | the NDPI scan completes exactly when no page lacks SourceLens (None has no `.value`) and no page is the macro page with SourceLens -1 (its SubImage call lacks the `ifd` argument), and it sets nothing |
| InputHandler.AperioScanned | input_handler.py:149-153 | the Aperio scan gets through exactly the pages before the first page without ImageDescription |
| InputHandler.AperioScanCompletes | input_handler.py:149-153 | the Aperio scan gets through every page exactly when every page has an ImageDescription |
| InputHandler.HamamatsuAlwaysErrs | input_handler.py:160-168 | an NDPI slide that opens finds no label and no macro, so get_slide always records an error for it (or the scan raises before) |
| InputHandler.GetImageData | input_handler.py:72-83 | the image data is the contiguous run of bytes starting at the first data offset, as long as the sum of the byte counts, cut short at the end of the file; there is none when there are no offsets |
| InputHandler.SavedLabelIsImageData | input_handler.py:72-83 | the label data saved for restoring is exactly what GetImageData reads for that label |
| InputHandler.DetectType | input_handler.py:251-256 | the input is a case exactly when it has "slides", a study exactly when it has "patients" but not "slides", and a single slide otherwise |
| InputHandler.ErrorOf | input_handler.py:288-300 | a slide errs as unsupported exactly when its vendor is Unknown, as BigTIFF exactly when it is known and BigTIFF, and as lacking images exactly when it is neither and has no label and no macro |
| InputHandler.ErrorsAt | input_handler.py:288-300 | get_slide appends at most one error message per slide |
| InputHandler.SlidesErrorsEmpty | input_handler.py:288-300 | a run of slides records no error exactly when no slide in it errs, and never more errors than slides |
| InputHandler.AfterErrors | input_handler.py:274-286 | the slide loop appends, in order, the errors of its slides to the errors already recorded |
| InputHandler.AttachedWithin | input_handler.py:274-286 | the loop attaches slide data only at indices of the slides it walks |
| InputHandler.AttachedWhileClean | input_handler.py:270-286 | a slide gets its slide data exactly when no error was recorded before the loop and neither it nor any earlier slide errs |
| InputHandler.InputData.constructor | input_handler.py:246-260 | the input type is DetectType of the JSON keys, the error messages are the validation errors and no slide data is attached yet |
| InputHandler.InputData.GetSlide | input_handler.py:288-300 | get_slide fails exactly when Slide() raises: the file has no page or its page scan raises; otherwise a fresh slide with VendorOf metadata and the scan's label and macro is returned, and its error, if any, is appended to the error messages |
| InputHandler.InputData.AttachNext | input_handler.py:269-286 | one loop step succeeds exactly when the slide opens without a raise, and then records the next state of the loop |
| InputHandler.InputData.AttachSlides | input_handler.py:274-278 | the case loop succeeds exactly when every slide opens without a raise, and then records After the slides |
| InputHandler.InputData.AttachPatients | input_handler.py:280-286 | the study loop succeeds exactly when every slide of every patient opens without a raise, and then records the study-wide state |
| InputHandler.InputData.LoadSlides | input_handler.py:262-286 | with validation errors nothing changes; otherwise loading succeeds exactly when every slide of the detected input type opens without a raise (so it fails on every NDPI slide with a macro page), and then records the loaded state |
| InputHandler.LoadInput | input_handler.py:227-286 | building the input data fails exactly when validation passed and some slide has no page or raises in its page scan; otherwise the result has the detected type and the loaded state |

## Left out

- Parsing TIFF files with tifffile: pages, tags and strip tables are records given to the model.
- The zlib, LZW and predictor codecs (compression_utils.py:59-67, 112-114, 146-195): compressed strip bytes and the codec are opaque inputs.
- Barcode and text rendering, and the float scaling, rotation and centring of the finished label (pseudonymisation_utils.py:53-181, 213-223, 361-397, barcode_utils.py): foreign libraries and floating point. Field extents are inputs, and the integer layout is modelled.
- The store (SQLAlchemy sessions, DAOs, commits and rollbacks): each table is a map from real ID to row, with pseudo-IDs unique.
- Faker, nanoid and random draws: each draw is a parameter, such as the candidate pseudo-ID or the drawn name, age or date.
- Date parsing with dateutil and formatting with strftime: a date is an already-parsed value, compared by equality and written as such.
- The `get` lookups of WSI, Case, Patient and Study: only the `create` rules are modelled.
- Slide.__init__ on a path that does not exist: it returns an object without fields, which get_slide would trip over; validation reports such paths first, so loading never reaches it.
- create_json for CASE and STUDY inputs: only the single-slide output is modelled.
- copy_clone with a destination folder: the clone path is modelled as folder/ID plus the suffix, with counters added to the stem.
- jsonschema validation and path existence checks (input_handler.py:179-192, 309-384): the validation errors are an input of `InputData`.
- Fernet encryption and the JSON files of the store (pseudonymisation.py:1127-1264): crypto and file I/O. Only the label record that `save_image_data_to_store` keeps is modelled.
- The asynchronous perform_* orchestration, its rollback unlinks, main.py, db_generator.py and detect_label_in_macro.py: entry points, I/O and asyncio.
- Non-ASCII text: text is bytes, so Python's character length and UTF-8 length are the same here.
- Exceptions: a raised exception is a `None`, a `Failure` or an `ok == false` result. The writes done before the raise are kept where the source would have made them.
- ClonePath: assumes the clone path is folder/ID followed by the source file's suffix. `Path.joinpath(slide_id, suffix)` in the source actually makes the suffix a path component.
- StoreFilePath: the extension that `os.path.splitext` splits off is taken as empty, because the drawn name is alphanumeric.
- OutputJson.SingleWsiJson: a written date is the date value itself, not its `DATETIME_FORMAT` text.
