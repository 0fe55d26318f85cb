/**
 * Names the tool composes for a slide: the value encoded in the PDF417
 * barcode of the pseudonym label, and file paths made unique against the
 * files already on disk. The file system's existence test is a finite set
 * of taken paths.
 */
module Naming {
  import opened Wrappers
  import opened CompressionUtils
  import opened Text
  import opened Identity

  const DASH: byte := 45
  const UNDERSCORE: byte := 95
  const SLASH: byte := 47
  /** What an f-string shows for a missing value: "None". */
  const NONE_TEXT: seq<byte> := [78, 111, 110, 101]

  /** An f-string field: the text itself, or "None". */
  function Shown(o: Option<seq<byte>>): seq<byte>
  {
    if o.Some? then o.value else NONE_TEXT
  }

  /** A generate_id result: letters and digits only. */
  predicate Alphanumeric(s: seq<byte>)
  {
    forall i :: 0 <= i < |s| ==> 48 <= s[i] <= 57 || 65 <= s[i] <= 90 || 97 <= s[i] <= 122
  }

  // ---------------------------------------------------------------------
  // The barcode value of the pseudonym label
  // ---------------------------------------------------------------------

  /**
   * A slide with an acquisition date but no pseudo date makes the barcode
   * step read the year of None, which raises.
   */
  predicate BarcodeFails(slide: WsiState)
  {
    slide.acquiredAt.Some? && slide.pseudoAcquiredAt.None?
  }

  /**
   * The dash-separated parts of the barcode: the pseudo year when the slide
   * has an acquisition date, the pseudo-ID, then the stain and the tissue
   * when given.
   */
  function BarcodeParts(slide: WsiState): (r: seq<seq<byte>>)
    requires !BarcodeFails(slide)
    ensures |r| == 1 + (if slide.acquiredAt.Some? then 1 else 0) + (if slide.stain.Some? then 1 else 0)
                     + (if slide.tissue.Some? then 1 else 0)
  {
    (if slide.acquiredAt.Some? then [Decimal(slide.pseudoAcquiredAt.value.year)] else [])
    + [Shown(slide.pseudoId)]
    + (if slide.stain.Some? then [slide.stain.value] else [])
    + (if slide.tissue.Some? then [slide.tissue.value] else [])
  }

  /** The barcode value built in create_pseudonym, or None when that step raises. */
  method BarcodeValue(slide: WsiState) returns (r: Option<seq<byte>>)
    ensures r.None? <==> BarcodeFails(slide)
    ensures r.Some? ==> r.value == Join(BarcodeParts(slide), [DASH])
  {
    var value := Shown(slide.pseudoId);
    ghost var parts := [value];
    if slide.acquiredAt.Some? {
      if slide.pseudoAcquiredAt.None? {
        return None;
      }
      var year := Decimal(slide.pseudoAcquiredAt.value.year);
      JoinCons(year, parts, [DASH]);
      value := year + [DASH] + value;
      parts := [year] + parts;
    }
    if slide.stain.Some? {
      JoinSnoc(parts, slide.stain.value, [DASH]);
      value := value + [DASH] + slide.stain.value;
      parts := parts + [slide.stain.value];
    }
    if slide.tissue.Some? {
      JoinSnoc(parts, slide.tissue.value, [DASH]);
      value := value + [DASH] + slide.tissue.value;
      parts := parts + [slide.tissue.value];
    }
    assert parts == BarcodeParts(slide);
    return Some(value);
  }

  /**
   * Reading the barcode back: when the pseudo-ID comes from generate_id and
   * the stain and tissue hold no dash, splitting the value on "-" gives the
   * parts again, and the first part of a dated slide reads as its pseudo year.
   */
  lemma BarcodeReadsBack(slide: WsiState)
    requires !BarcodeFails(slide)
    requires slide.pseudoId.Some? && Alphanumeric(slide.pseudoId.value)
    requires slide.stain.Some? ==> forall i :: 0 <= i < |slide.stain.value| ==> slide.stain.value[i] != DASH
    requires slide.tissue.Some? ==> forall i :: 0 <= i < |slide.tissue.value| ==> slide.tissue.value[i] != DASH
    ensures var parts := Split(Join(BarcodeParts(slide), [DASH]), [DASH]);
      parts == BarcodeParts(slide) &&
      (slide.acquiredAt.Some? ==> ParseDecimal(parts[0]) == slide.pseudoAcquiredAt.value.year
                                  && parts[1] == slide.pseudoId.value) &&
      (slide.acquiredAt.None? ==> parts[0] == slide.pseudoId.value)
  {
    var parts := BarcodeParts(slide);
    forall k | 0 <= k < |parts|
      ensures !Contains(parts[k], [DASH])
    {
      ByteFree(parts[k], DASH);
    }
    SplitJoin(parts, DASH);
    if slide.acquiredAt.Some? {
      DecimalRoundTrip(slide.pseudoAcquiredAt.value.year);
    }
  }

  // ---------------------------------------------------------------------
  // Paths made unique against the taken ones
  // ---------------------------------------------------------------------

  /**
   * The n-th path tried: root + ext first, then root + "_" + n + ext for
   * n = 1, 2, ...
   */
  function Candidate(root: seq<byte>, ext: seq<byte>, n: nat): seq<byte>
  {
    if n == 0 then root + ext else root + [UNDERSCORE] + Decimal(n) + ext
  }

  /** No two tries give the same path. */
  lemma CandidatesDistinct(root: seq<byte>, ext: seq<byte>, m: nat, n: nat)
    requires Candidate(root, ext, m) == Candidate(root, ext, n)
    ensures m == n
  {
    if m > 0 && n > 0 {
      var a := Candidate(root, ext, m);
      assert |Decimal(m)| == |Decimal(n)|;
      assert Decimal(m) == a[|root| + 1..|a| - |ext|];
      assert Decimal(n) == a[|root| + 1..|a| - |ext|];
      DecimalInjective(m, n);
    }
  }

  /** The first n tries, as a set. */
  function Tried(root: seq<byte>, ext: seq<byte>, n: nat): (r: set<seq<byte>>)
    ensures forall j :: 0 <= j < n ==> Candidate(root, ext, j) in r
  {
    if n == 0 then {} else Tried(root, ext, n - 1) + {Candidate(root, ext, n - 1)}
  }

  /** The first n tries are n different paths. */
  lemma {:induction false} TriedSize(root: seq<byte>, ext: seq<byte>, n: nat)
    ensures |Tried(root, ext, n)| == n
  {
    if n > 0 {
      TriedSize(root, ext, n - 1);
      if Candidate(root, ext, n - 1) in Tried(root, ext, n - 1) {
        var j :| 0 <= j < n - 1 && Candidate(root, ext, j) == Candidate(root, ext, n - 1) by {
          TriedHolds(root, ext, n - 1, Candidate(root, ext, n - 1));
        }
        CandidatesDistinct(root, ext, j, n - 1);
      }
    }
  }

  lemma {:induction false} TriedHolds(root: seq<byte>, ext: seq<byte>, n: nat, p: seq<byte>)
    requires p in Tried(root, ext, n)
    ensures exists j :: 0 <= j < n && Candidate(root, ext, j) == p
  {
    if p != Candidate(root, ext, n - 1) {
      TriedHolds(root, ext, n - 1, p);
    }
  }

  /**
   * When the first n tries are all taken, there are at least n taken paths:
   * the search ends after at most |taken| + 1 tries.
   */
  lemma TakenBound(root: seq<byte>, ext: seq<byte>, n: nat, taken: set<seq<byte>>)
    requires forall j :: 0 <= j < n ==> Candidate(root, ext, j) in taken
    ensures n <= |taken|
  {
    TriedSize(root, ext, n);
    forall p | p in Tried(root, ext, n)
      ensures p in taken
    {
      TriedHolds(root, ext, n, p);
    }
    var tried := Tried(root, ext, n);
    assert taken == tried + (taken - tried);
    assert tried !! (taken - tried);
  }

  /** path is the first try that is not taken. */
  ghost predicate FirstFree(path: seq<byte>, root: seq<byte>, ext: seq<byte>, taken: set<seq<byte>>)
  {
    path !in taken &&
    exists n: nat :: path == Candidate(root, ext, n) && forall j :: 0 <= j < n ==> Candidate(root, ext, j) in taken
  }

  /** The first free try is unique: the search has one possible answer. */
  lemma FirstFreeUnique(p: seq<byte>, q: seq<byte>, root: seq<byte>, ext: seq<byte>, taken: set<seq<byte>>)
    requires FirstFree(p, root, ext, taken) && FirstFree(q, root, ext, taken)
    ensures p == q
  {
    var m: nat :| p == Candidate(root, ext, m) && forall j :: 0 <= j < m ==> Candidate(root, ext, j) in taken;
    var n: nat :| q == Candidate(root, ext, n) && forall j :: 0 <= j < n ==> Candidate(root, ext, j) in taken;
    if m < n {
      assert false;
    } else if n < m {
      assert false;
    }
  }

  /**
   * create_file_path_in_store: the drawn file name under the store folder,
   * with "_1", "_2", ... added until the path is not taken. The name has
   * no dot, so its extension is empty.
   */
  method StoreFilePath(storeFolder: seq<byte>, fname: seq<byte>, taken: set<seq<byte>>)
    returns (name: seq<byte>, path: seq<byte>)
    ensures name == fname
    ensures FirstFree(path, storeFolder + [SLASH] + fname, [], taken)
  {
    var root := storeFolder + [SLASH] + fname;
    var i: nat := 0;
    path := root;
    assert path == Candidate(root, [], 0);
    while path in taken
      invariant path == Candidate(root, [], i)
      invariant forall j :: 0 <= j < i ==> Candidate(root, [], j) in taken
      decreases |taken| - i
    {
      TakenBound(root, [], i + 1, taken);
      i := i + 1;
      path := root + [UNDERSCORE] + Decimal(i);
      assert path == Candidate(root, [], i);
    }
    name := fname;
  }

  /**
   * The clone path of copy_clone when no destination folder is given: the
   * slide file renamed to the slide ID, then to ID + "_1", ID + "_2", ...
   * in the same folder while the path is taken.
   */
  method ClonePath(folder: seq<byte>, slideId: seq<byte>, suffix: seq<byte>, taken: set<seq<byte>>)
    returns (dest: seq<byte>)
    ensures FirstFree(dest, folder + [SLASH] + slideId, suffix, taken)
  {
    var root := folder + [SLASH] + slideId;
    dest := root + suffix;
    assert dest == Candidate(root, suffix, 0);
    var counter: nat := 1;
    while dest in taken
      invariant 1 <= counter
      invariant dest == Candidate(root, suffix, counter - 1)
      invariant forall j :: 0 <= j < counter - 1 ==> Candidate(root, suffix, j) in taken
      decreases |taken| - counter
    {
      TakenBound(root, suffix, counter, taken);
      dest := folder + [SLASH] + (slideId + [UNDERSCORE] + Decimal(counter)) + suffix;
      assert dest == Candidate(root, suffix, counter);
      counter := counter + 1;
    }
  }
}
