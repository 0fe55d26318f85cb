/**
 * Reading the input: what kind of JSON was given, which vendor a slide
 * file comes from, which of its pages are the label and the macro image,
 * which error a slide contributes, and the label's strip bytes.
 *
 * What tifffile parses from a file (its flags, whether it is BigTIFF, its
 * pages with their ImageDescription, SourceLens and strip tables) is an
 * input here.
 *
 * Opening a slide scans its pages, and the scans raise where the source
 * raises: on an Aperio file, at a page without ImageDescription (the tag
 * lookup raises KeyError, which `except IndexError` does not catch); on a
 * Hamamatsu file, at a page without SourceLens (the lookup gives None,
 * whose `.value` raises) and at the macro page (SourceLens -1), whose
 * SubImage call lacks its `ifd` argument. A raise there ends the whole
 * input load.
 */
module InputHandler {
  import opened Wrappers
  import opened CompressionUtils
  import opened Text
  import opened LabelStrips

  datatype Vendor = Aperio | Hamamatsu | Mirax | Unknown

  datatype InputType = SingleWsi | Case | Study

  datatype SubImageType = Label | Macro

  /**
   * A page of the file: its ImageDescription (tag 270) and its SourceLens
   * (tag 65421) when it has them, and its strip tables.
   */
  datatype Page = Page(description: Option<seq<byte>>, sourceLens: Option<int>, compression: int,
                       dataOffsets: seq<nat>, dataByteCounts: seq<nat>)

  /** What tifffile reports of a slide file. */
  datatype TiffFile = TiffFile(isSvs: bool, isNdpi: bool, isBigtiff: bool, flags: set<seq<byte>>, pages: seq<Page>)

  datatype SubImage = SubImage(kind: SubImageType, page: Page)

  datatype SlideMetadata = SlideMetadata(vendor: Vendor, extension: seq<byte>, isBigtiff: bool)

  /** The SourceLens value of the macro page of an NDPI file. */
  const MACRO_SOURCE_LENS: int := -1

  /** "label" and "macro" in ASCII. */
  const LABEL_TEXT: seq<byte> := [108, 97, 98, 101, 108]
  const MACRO_TEXT: seq<byte> := [109, 97, 99, 114, 111]

  /** The SupportFileType values "svs", "tiff", "ndpi" and "mrxs" in ASCII. */
  const SUPPORT_FILE_TYPES: set<seq<byte>> :=
    {[115, 118, 115], [116, 105, 102, 102], [110, 100, 112, 105], [109, 114, 120, 115]}

  // ---------------------------------------------------------------------
  // Vendor and format
  // ---------------------------------------------------------------------

  /** The vendor of a file: Aperio for SVS, else Hamamatsu for NDPI, else Unknown. */
  function VendorOf(file: TiffFile): (r: Vendor)
    ensures r == Aperio <==> file.isSvs
    ensures r == Hamamatsu <==> !file.isSvs && file.isNdpi
    ensures r == Unknown <==> !file.isSvs && !file.isNdpi
  {
    if file.isSvs then Aperio else if file.isNdpi then Hamamatsu else Unknown
  }

  /**
   * SlideMetadata.__init__: the vendor, one of the file's flags as its
   * extension (set.pop() takes an arbitrary one) or "" when it has none,
   * and the BigTIFF flag.
   */
  method NewSlideMetadata(file: TiffFile) returns (m: SlideMetadata)
    ensures m.vendor == VendorOf(file) && m.isBigtiff == file.isBigtiff
    ensures if |file.flags| > 0 then m.extension in file.flags else m.extension == []
  {
    var vendor := Unknown;
    if file.isSvs {
      vendor := Aperio;
    } else if file.isNdpi {
      vendor := Hamamatsu;
    }
    var extension: seq<byte> := [];
    if |file.flags| > 0 {
      extension :| extension in file.flags;
    }
    m := SlideMetadata(vendor, extension, file.isBigtiff);
  }

  /**
   * check_format_support: false when tifffile cannot parse the file (None),
   * else whether one of its flags is a supported file type.
   */
  method CheckFormatSupport(parsed: Option<TiffFile>) returns (r: bool)
    ensures r <==> parsed.Some? && exists t :: t in parsed.value.flags && t in SUPPORT_FILE_TYPES
  {
    if parsed.None? {
      return false;
    }
    var rest := parsed.value.flags;
    while rest != {}
      invariant rest <= parsed.value.flags
      invariant forall t :: t in parsed.value.flags && t !in rest ==> t !in SUPPORT_FILE_TYPES
      decreases |rest|
    {
      var t :| t in rest;
      if t in SUPPORT_FILE_TYPES {
        return true;
      }
      rest := rest - {t};
    }
    return false;
  }

  // ---------------------------------------------------------------------
  // Label and macro pages of an Aperio slide
  // ---------------------------------------------------------------------

  /**
   * What a page is taken for: a label when its lower-cased description
   * contains "label", else a macro when it contains "macro", else
   * nothing. (The scan raises before it reaches a page without one.)
   */
  function KindOf(p: Page): Option<SubImageType>
  {
    if p.description.None? then None
    else
      var lower := LowerAscii(p.description.value);
      if Contains(lower, LABEL_TEXT) then Some(Label)
      else if Contains(lower, MACRO_TEXT) then Some(Macro)
      else None
  }

  /** The index of the last page taken for `kind`: later pages of that kind replace earlier ones. */
  function LastOfKind(pages: seq<Page>, kind: SubImageType): (r: Option<nat>)
    ensures r.Some? ==> r.value < |pages| && KindOf(pages[r.value]) == Some(kind)
    ensures r.Some? ==> forall j :: r.value < j < |pages| ==> KindOf(pages[j]) != Some(kind)
    ensures r.None? ==> forall j :: 0 <= j < |pages| ==> KindOf(pages[j]) != Some(kind)
    decreases |pages|
  {
    if pages == [] then None
    else if KindOf(pages[|pages| - 1]) == Some(kind) then Some(|pages| - 1)
    else LastOfKind(pages[..|pages| - 1], kind)
  }

  /** The sub-image a scan of the pages leaves for `kind`, or `before` when no page is of that kind. */
  function Found(pages: seq<Page>, kind: SubImageType, before: Option<SubImage>): Option<SubImage>
  {
    var i := LastOfKind(pages, kind);
    if i.Some? then Some(SubImage(kind, pages[i.value])) else before
  }

  /**
   * A page whose description names both "label" and "macro" is the label,
   * and never the macro.
   */
  lemma LabelBeforeMacro(pages: seq<Page>, i: nat)
    requires i < |pages| && pages[i].description.Some?
    requires Contains(LowerAscii(pages[i].description.value), LABEL_TEXT)
    ensures LastOfKind(pages, Label).Some? && i <= LastOfKind(pages, Label).value
    ensures LastOfKind(pages, Macro) != Some(i)
  {
    assert KindOf(pages[i]) == Some(Label);
  }

  /** One more page: it replaces the sub-image of its kind. */
  lemma FoundStep(pages: seq<Page>, i: nat, kind: SubImageType, before: Option<SubImage>)
    requires i < |pages|
    ensures Found(pages[..i + 1], kind, before)
            == if KindOf(pages[i]) == Some(kind) then Some(SubImage(kind, pages[i])) else Found(pages[..i], kind, before)
  {
    assert pages[..i + 1][..i] == pages[..i];
  }

  /**
   * How many pages get_data_aperio gets through: all of them, or up to the
   * first page without ImageDescription, where it raises.
   */
  function AperioScanned(pages: seq<Page>): (r: nat)
    ensures r <= |pages|
    ensures forall j :: 0 <= j < r ==> pages[j].description.Some?
    ensures r < |pages| ==> pages[r].description.None?
    decreases |pages|
  {
    if pages == [] || pages[0].description.None? then 0
    else
      var r := AperioScanned(pages[1..]);
      assert forall j :: 1 <= j < r + 1 ==> pages[j] == pages[1..][j - 1];
      r + 1
  }

  /** A page on which get_data_hamamatsu raises: one without SourceLens, or the macro page. */
  predicate HamamatsuRaisesOn(p: Page)
  {
    p.sourceLens.None? || p.sourceLens.value == MACRO_SOURCE_LENS
  }

  /** Whether the page scan of Slide(path) runs to the end: an Aperio scan, a Hamamatsu scan, or none. */
  predicate ScanCompletes(file: TiffFile)
  {
    if file.isSvs then forall j :: 0 <= j < |file.pages| ==> file.pages[j].description.Some?
    else if file.isNdpi then forall j :: 0 <= j < |file.pages| ==> !HamamatsuRaisesOn(file.pages[j])
    else true
  }

  /** Whether Slide(path) returns: the file has pages and its scan does not raise. */
  predicate SlideOpens(file: TiffFile)
  {
    |file.pages| > 0 && ScanCompletes(file)
  }

  /** The Aperio scan gets through every page exactly when it completes. */
  lemma AperioScanCompletes(pages: seq<Page>)
    ensures AperioScanned(pages) == |pages| <==> forall j :: 0 <= j < |pages| ==> pages[j].description.Some?
  {
  }

  /**
   * The label and macro a slide that opens ends with: those the Aperio scan
   * finds; a Hamamatsu scan that completes finds none, and other files are
   * not scanned.
   */
  function ImageOf(file: TiffFile, kind: SubImageType): Option<SubImage>
  {
    if file.isSvs then Found(file.pages, kind, None) else None
  }

  class Slide {
    var path: seq<byte>
    var metadata: SlideMetadata
    var labelImage: Option<SubImage>
    var macroImage: Option<SubImage>

    /**
     * Slide.__init__ up to the page scan, once the file has pages: the path,
     * the metadata, and no label or macro yet.
     */
    constructor(path: seq<byte>, file: TiffFile)
      requires |file.pages| > 0
      ensures this.path == path
      ensures metadata.vendor == VendorOf(file) && metadata.isBigtiff == file.isBigtiff
      ensures labelImage.None? && macroImage.None?
    {
      this.path := path;
      var m := NewSlideMetadata(file);
      metadata := m;
      labelImage := None;
      macroImage := None;
    }

    /**
     * The end of Slide.__init__: get_data_aperio on an SVS file, else
     * get_data_hamamatsu on an NDPI file. `ok` is false when the scan raised.
     */
    method ScanPages(file: TiffFile) returns (ok: bool)
      modifies this`labelImage, this`macroImage
      ensures ok <==> ScanCompletes(file)
      ensures labelImage == if file.isSvs then Found(file.pages[..AperioScanned(file.pages)], Label, old(labelImage))
                            else old(labelImage)
      ensures macroImage == if file.isSvs then Found(file.pages[..AperioScanned(file.pages)], Macro, old(macroImage))
                            else old(macroImage)
    {
      ok := true;
      if file.isSvs {
        ok := GetDataAperio(file.pages);
      } else if file.isNdpi {
        ok := GetDataHamamatsu(file.pages);
      }
    }

    /**
     * get_data_aperio: scan the pages in order, the last label and the last
     * macro win; a page without ImageDescription raises (`ok` false) and
     * leaves what the earlier pages set.
     */
    method GetDataAperio(pages: seq<Page>) returns (ok: bool)
      modifies this`labelImage, this`macroImage
      ensures ok <==> forall j :: 0 <= j < |pages| ==> pages[j].description.Some?
      ensures labelImage == Found(pages[..AperioScanned(pages)], Label, old(labelImage))
      ensures macroImage == Found(pages[..AperioScanned(pages)], Macro, old(macroImage))
    {
      for i := 0 to |pages|
        invariant forall j :: 0 <= j < i ==> pages[j].description.Some?
        invariant labelImage == Found(pages[..i], Label, old(labelImage))
        invariant macroImage == Found(pages[..i], Macro, old(macroImage))
      {
        var p := pages[i];
        if p.description.None? {
          assert AperioScanned(pages) == i;
          return false;
        }
        FoundStep(pages, i, Label, old(labelImage));
        FoundStep(pages, i, Macro, old(macroImage));
        var lower := LowerAscii(p.description.value);
        if Contains(lower, LABEL_TEXT) {
          labelImage := Some(SubImage(Label, p));
        } else if Contains(lower, MACRO_TEXT) {
          macroImage := Some(SubImage(Macro, p));
        }
      }
      assert AperioScanned(pages) == |pages|;
      assert pages[..|pages|] == pages;
      return true;
    }

    /**
     * get_data_hamamatsu: every page either lacks SourceLens or is the macro
     * page, and raises, or is neither and is passed over; so the scan sets
     * nothing and `ok` says whether it got to the end.
     */
    method GetDataHamamatsu(pages: seq<Page>) returns (ok: bool)
      ensures ok <==> forall j :: 0 <= j < |pages| ==> !HamamatsuRaisesOn(pages[j])
    {
      for i := 0 to |pages|
        invariant forall j :: 0 <= j < i ==> !HamamatsuRaisesOn(pages[j])
      {
        var lens := pages[i].sourceLens;
        if lens.None? || lens.value == MACRO_SOURCE_LENS {
          return false;
        }
      }
      return true;
    }
  }

  /** A slide object as Slide(path) leaves it for a file that opens. */
  ghost predicate Opened(s: Slide, path: seq<byte>, file: TiffFile)
    reads s
  {
    && s.path == path
    && s.metadata.vendor == VendorOf(file) && s.metadata.isBigtiff == file.isBigtiff
    && s.labelImage == ImageOf(file, Label) && s.macroImage == ImageOf(file, Macro)
  }

  // ---------------------------------------------------------------------
  // The strip bytes of a sub-image
  // ---------------------------------------------------------------------

  function Min(a: nat, b: nat): nat { if a <= b then a else b }

  /**
   * get_image_data: seek to the first strip offset, then read each strip's
   * byte count in turn. A read past the end of the file returns what is
   * left, so the result is the file's bytes from the first offset on, up to
   * the total count, cut at the end of the file. No strip offset: None
   * (data_offsets[0] raises).
   */
  method GetImageData(file: seq<byte>, dataOffsets: seq<nat>, dataByteCounts: seq<nat>) returns (r: Option<seq<byte>>)
    ensures r.None? <==> |dataOffsets| == 0
    ensures r.Some? ==> r.value == file[Min(dataOffsets[0], |file|) .. Min(dataOffsets[0] + SumOf(dataByteCounts), |file|)]
  {
    if |dataOffsets| == 0 {
      return None;
    }
    var start := dataOffsets[0];
    var pos := start;
    var data: seq<byte> := [];
    for i := 0 to |dataByteCounts|
      invariant pos == start + |data|
      invariant data == file[Min(start, |file|) .. Min(start + SumOf(dataByteCounts[..i]), |file|)]
    {
      assert dataByteCounts[..i + 1][..i] == dataByteCounts[..i];
      var count := dataByteCounts[i];
      var chunk := file[Min(pos, |file|) .. Min(pos + count, |file|)];
      data := data + chunk;
      pos := pos + |chunk|;
    }
    assert dataByteCounts[..|dataByteCounts|] == dataByteCounts;
    return Some(data);
  }

  /**
   * The strip bytes the pseudonymisation saves for the label before
   * replacing it are what get_image_data reads from the label's page.
   */
  lemma SavedLabelIsImageData(s: seq<byte>, ifd: LabelIfd)
    requires |ifd.dataOffsets| > 0 && ifd.dataOffsets[0] + SumOf(ifd.dataByteCounts) <= |s|
    ensures SavedLabel(s, ifd).data
            == Some(s[Min(ifd.dataOffsets[0], |s|) .. Min(ifd.dataOffsets[0] + SumOf(ifd.dataByteCounts), |s|)])
  {
  }

  // ---------------------------------------------------------------------
  // The input JSON and its errors
  // ---------------------------------------------------------------------

  /** "slides" and "patients" in ASCII. */
  const SLIDES: seq<byte> := [115, 108, 105, 100, 101, 115]
  const PATIENTS: seq<byte> := [112, 97, 116, 105, 101, 110, 116, 115]

  /** The input type: a case when the JSON has "slides", else a study when it has "patients", else one slide. */
  function DetectType(keys: set<seq<byte>>): (r: InputType)
    ensures r == Case <==> SLIDES in keys
    ensures r == Study <==> SLIDES !in keys && PATIENTS in keys
    ensures r == SingleWsi <==> SLIDES !in keys && PATIENTS !in keys
  {
    if SLIDES in keys then Case else if PATIENTS in keys then Study else SingleWsi
  }

  /** A slide named in the JSON: its "path" and what tifffile parses there. */
  datatype SlideEntry = SlideEntry(path: seq<byte>, file: TiffFile)

  /**
   * The input JSON: its top-level keys, and the slides each input type
   * reads ("path" of a single slide, "slides" of a case, the "slides" of
   * each of a study's "patients").
   */
  datatype InputJson = InputJson(keys: set<seq<byte>>, slide: SlideEntry, slides: seq<SlideEntry>,
                                 patients: seq<seq<SlideEntry>>)

  /** Where a slide sits in the JSON: $.path, $.slides[i] or $.patients[p].slides[i]. */
  datatype Location = Root | CaseSlide(index: nat) | StudySlide(patient: nat, index: nat)

  /** The i-th slide of a case (no patient) or of patient p of a study. */
  function SlideAt(patient: Option<nat>, i: nat): Location
  {
    if patient.Some? then StudySlide(patient.value, i) else CaseSlide(i)
  }

  datatype ErrorKind = UnsupportedType | BigTiffNotSupported | NoLabelOrMacro

  /** An error message: a schema or path error found by validation, or a slide's error at its location. */
  datatype Error = Validation(message: seq<byte>) | SlideError(kind: ErrorKind, at: Location, slidePath: seq<byte>)

  /**
   * The error a slide contributes, in priority order: an unknown vendor,
   * else BigTIFF, else neither a label nor a macro page; at most one.
   */
  function ErrorOf(file: TiffFile): (r: Option<ErrorKind>)
    ensures r == Some(UnsupportedType) <==> VendorOf(file) == Unknown
    ensures r == Some(BigTiffNotSupported) <==> VendorOf(file) != Unknown && file.isBigtiff
    ensures r == Some(NoLabelOrMacro) <==>
              VendorOf(file) != Unknown && !file.isBigtiff && ImageOf(file, Label).None? && ImageOf(file, Macro).None?
  {
    if VendorOf(file) == Unknown then Some(UnsupportedType)
    else if file.isBigtiff then Some(BigTiffNotSupported)
    else if ImageOf(file, Label).None? && ImageOf(file, Macro).None? then Some(NoLabelOrMacro)
    else None
  }

  /**
   * A Hamamatsu slide is never loaded cleanly: its scan either raises, or
   * finds no label and no macro, so get_slide records an error for it.
   */
  lemma HamamatsuAlwaysErrs(file: TiffFile)
    requires VendorOf(file) == Hamamatsu
    ensures ErrorOf(file).Some?
  {
  }

  function ErrorsAt(at: Location, entry: SlideEntry): (r: seq<Error>)
    ensures |r| <= 1
  {
    var e := ErrorOf(entry.file);
    if e.Some? then [SlideError(e.value, at, entry.path)] else []
  }

  /** The errors get_slide records for the slides of a case or of one patient, in order. */
  function SlidesErrors(slides: seq<SlideEntry>, patient: Option<nat>): (r: seq<Error>)
    decreases |slides|
  {
    if slides == [] then []
    else SlidesErrors(slides[..|slides| - 1], patient) + ErrorsAt(SlideAt(patient, |slides| - 1), slides[|slides| - 1])
  }

  /** A slide list records no error exactly when none of its slides has one. */
  lemma {:induction false} SlidesErrorsEmpty(slides: seq<SlideEntry>, patient: Option<nat>)
    ensures SlidesErrors(slides, patient) == [] <==> forall k :: 0 <= k < |slides| ==> ErrorOf(slides[k].file).None?
    ensures |SlidesErrors(slides, patient)| <= |slides|
    decreases |slides|
  {
    if slides != [] {
      var init := slides[..|slides| - 1];
      SlidesErrorsEmpty(init, patient);
      assert forall k :: 0 <= k < |init| ==> init[k] == slides[k];
    }
  }

  /** What the slide loop has recorded so far: the error messages and the locations given slide_data. */
  datatype Progress = Progress(errors: seq<Error>, attached: set<Location>)

  /** get_slide for one slide, then slide_data when the error list is still empty. */
  function Next(p: Progress, at: Location, entry: SlideEntry): Progress
  {
    var errors := p.errors + ErrorsAt(at, entry);
    Progress(errors, if errors == [] then p.attached + {at} else p.attached)
  }

  /** The slide loop over a case's slides, or one patient's, from progress p. */
  function After(p: Progress, slides: seq<SlideEntry>, patient: Option<nat>): Progress
    decreases |slides|
  {
    if slides == [] then p
    else Next(After(p, slides[..|slides| - 1], patient), SlideAt(patient, |slides| - 1), slides[|slides| - 1])
  }

  /** The loop appends each slide's error, in order. */
  lemma {:induction false} AfterErrors(p: Progress, slides: seq<SlideEntry>, patient: Option<nat>)
    ensures After(p, slides, patient).errors == p.errors + SlidesErrors(slides, patient)
    decreases |slides|
  {
    if slides != [] {
      AfterErrors(p, slides[..|slides| - 1], patient);
    }
  }

  /** The loop attaches only the list's own slides. */
  lemma {:induction false} AttachedWithin(p: Progress, slides: seq<SlideEntry>, patient: Option<nat>, k: nat)
    requires SlideAt(patient, k) in After(p, slides, patient).attached && SlideAt(patient, k) !in p.attached
    ensures k < |slides|
    decreases |slides|
  {
    if SlideAt(patient, k) != SlideAt(patient, |slides| - 1) {
      AttachedWithin(p, slides[..|slides| - 1], patient, k);
    }
  }

  /**
   * slide_data is attached only while no error has been recorded: slide i
   * gets it exactly when there was no error before the loop and neither it
   * nor any earlier slide of the list has one.
   */
  lemma {:induction false} AttachedWhileClean(p: Progress, slides: seq<SlideEntry>, patient: Option<nat>, i: nat)
    requires i < |slides| && SlideAt(patient, i) !in p.attached
    ensures SlideAt(patient, i) in After(p, slides, patient).attached <==>
              p.errors == [] && forall k :: 0 <= k <= i ==> ErrorOf(slides[k].file).None?
    decreases |slides|
  {
    var init := slides[..|slides| - 1];
    if i == |slides| - 1 {
      AfterErrors(p, slides, patient);
      SlidesErrorsEmpty(slides, patient);
      if SlideAt(patient, i) in After(p, init, patient).attached {
        AttachedWithin(p, init, patient, i);
      }
    } else {
      AttachedWhileClean(p, init, patient, i);
      assert forall k :: 0 <= k <= i ==> init[k] == slides[k];
    }
  }

  /** The slide loops of a study, patient by patient, from progress p. */
  function StudyAfter(p: Progress, patients: seq<seq<SlideEntry>>): Progress
    decreases |patients|
  {
    if patients == [] then p
    else After(StudyAfter(p, patients[..|patients| - 1]), patients[|patients| - 1], Some(|patients| - 1))
  }

  /** Every slide file of the study opens. */
  predicate StudyOpens(patients: seq<seq<SlideEntry>>)
  {
    forall q, k :: 0 <= q < |patients| && 0 <= k < |patients[q]| ==> SlideOpens(patients[q][k].file)
  }

  /**
   * What loading the slides records: nothing when validation already
   * found errors, else the slide loop of the input's type.
   */
  function Loaded(p: Progress, json: InputJson, inputType: InputType): Progress
  {
    if p.errors != [] then p
    else match inputType
      case SingleWsi => Next(p, Root, json.slide)
      case Case => After(p, json.slides, None)
      case Study => StudyAfter(p, json.patients)
  }

  /** Whether loading the slides gets past every Slide(path) without a raise. */
  predicate LoadOpens(json: InputJson, inputType: InputType)
  {
    match inputType
    case SingleWsi => SlideOpens(json.slide.file)
    case Case => forall k :: 0 <= k < |json.slides| ==> SlideOpens(json.slides[k].file)
    case Study => StudyOpens(json.patients)
  }

  class InputData {
    var inputType: InputType
    var errorMessages: seq<Error>
    /** The slides whose JSON object got a "slide_data" entry, by location. */
    var slideData: map<Location, Slide>

    /**
     * InputData.__init__ up to validation: the input type and the errors
     * validation found (the JSON schema and path checks are not modelled;
     * their messages are an input).
     */
    constructor(json: InputJson, validationErrors: seq<Error>)
      ensures inputType == DetectType(json.keys)
      ensures errorMessages == validationErrors
      ensures slideData == map[]
    {
      inputType := SingleWsi;
      if SLIDES in json.keys {
        inputType := Case;
      } else if PATIENTS in json.keys {
        inputType := Study;
      }
      errorMessages := validationErrors;
      slideData := map[];
    }

    predicate HasErrors()
      reads this
    {
      |errorMessages| > 0
    }

    function Recorded(): Progress
      reads this
    {
      Progress(errorMessages, slideData.Keys)
    }

    /**
     * get_slide: open the slide and record at most one error for it. A file
     * without pages, or whose page scan raises, raises (None here) before
     * anything is recorded.
     */
    method GetSlide(entry: SlideEntry, at: Location) returns (s: Option<Slide>)
      modifies this`errorMessages
      ensures s.None? <==> !SlideOpens(entry.file)
      ensures s.None? ==> errorMessages == old(errorMessages)
      ensures s.Some? ==> fresh(s.value) && Opened(s.value, entry.path, entry.file)
                          && errorMessages == old(errorMessages) + ErrorsAt(at, entry)
    {
      if |entry.file.pages| == 0 {
        return None;
      }
      var slide := new Slide(entry.path, entry.file);
      var scanned := slide.ScanPages(entry.file);
      if !scanned {
        return None;
      }
      assert entry.file.isSvs ==> entry.file.pages[..AperioScanned(entry.file.pages)] == entry.file.pages;
      if slide.metadata.vendor == Unknown {
        errorMessages := errorMessages + [SlideError(UnsupportedType, at, entry.path)];
      } else if slide.metadata.isBigtiff {
        errorMessages := errorMessages + [SlideError(BigTiffNotSupported, at, entry.path)];
      } else if slide.labelImage.None? && slide.macroImage.None? {
        errorMessages := errorMessages + [SlideError(NoLabelOrMacro, at, entry.path)];
      }
      s := Some(slide);
    }

    /** One slide of the loop: get_slide, then slide_data while no error is recorded. */
    method AttachNext(entry: SlideEntry, at: Location) returns (ok: bool)
      modifies this`errorMessages, this`slideData
      ensures ok <==> SlideOpens(entry.file)
      ensures ok ==> Recorded() == Next(old(Recorded()), at, entry)
    {
      var s := GetSlide(entry, at);
      if s.None? {
        return false;
      }
      if !HasErrors() {
        slideData := slideData[at := s.value];
      }
      return true;
    }

    /**
     * The loop over the slides of a case, or of one patient of a study:
     * get_slide for each, attaching slide_data while no error is recorded.
     * `ok` is false when a slide file raised.
     */
    method AttachSlides(slides: seq<SlideEntry>, patient: Option<nat>) returns (ok: bool)
      modifies this`errorMessages, this`slideData
      ensures ok <==> forall k :: 0 <= k < |slides| ==> SlideOpens(slides[k].file)
      ensures ok ==> Recorded() == After(old(Recorded()), slides, patient)
    {
      for i := 0 to |slides|
        invariant forall k :: 0 <= k < i ==> SlideOpens(slides[k].file)
        invariant Recorded() == After(old(Recorded()), slides[..i], patient)
      {
        assert slides[..i + 1][..i] == slides[..i];
        ok := AttachNext(slides[i], SlideAt(patient, i));
        if !ok {
          assert !SlideOpens(slides[i].file);
          return;
        }
      }
      assert slides[..|slides|] == slides;
      return true;
    }

    /**
     * The rest of InputData.__init__: unless validation found errors, open
     * the slides of the input's type and attach their slide_data. `ok` is
     * false when a slide file raised.
     */
    method LoadSlides(json: InputJson) returns (ok: bool)
      modifies this`errorMessages, this`slideData
      ensures old(HasErrors()) ==> ok && Recorded() == old(Recorded())
      ensures !old(HasErrors()) ==> (ok <==> LoadOpens(json, inputType))
      ensures ok ==> Recorded() == Loaded(old(Recorded()), json, inputType)
    {
      if HasErrors() {
        return true;
      }
      match inputType {
        case SingleWsi =>
          ok := AttachNext(json.slide, Root);
        case Case =>
          ok := AttachSlides(json.slides, None);
        case Study =>
          ok := AttachPatients(json.patients);
      }
    }

    /** The loop over a study's patients, each with its slide loop. */
    method AttachPatients(patients: seq<seq<SlideEntry>>) returns (ok: bool)
      modifies this`errorMessages, this`slideData
      ensures ok <==> StudyOpens(patients)
      ensures ok ==> Recorded() == StudyAfter(old(Recorded()), patients)
    {
      for q := 0 to |patients|
        invariant StudyOpens(patients[..q])
        invariant Recorded() == StudyAfter(old(Recorded()), patients[..q])
      {
        assert patients[..q + 1][..q] == patients[..q];
        ok := AttachSlides(patients[q], Some(q));
        if !ok {
          return;
        }
        assert patients[..q + 1][q] == patients[q];
      }
      assert patients[..|patients|] == patients;
      return true;
    }
  }

  /**
   * InputData.__init__ as a whole: the type, the validation errors, then
   * the slides; None when a slide file raised.
   */
  method LoadInput(json: InputJson, validationErrors: seq<Error>) returns (r: Option<InputData>)
    ensures r.None? <==> validationErrors == [] && !LoadOpens(json, DetectType(json.keys))
    ensures r.Some? ==> fresh(r.value) && r.value.inputType == DetectType(json.keys)
                        && r.value.Recorded() == Loaded(Progress(validationErrors, {}), json, DetectType(json.keys))
  {
    var data := new InputData(json, validationErrors);
    assert data.Recorded() == Progress(validationErrors, {});
    var ok := data.LoadSlides(json);
    if !ok {
      return None;
    }
    return Some(data);
  }
}
