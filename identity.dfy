/**
 * Pseudonym identity: how a slide (WSI), case, patient or study gets its
 * pseudo-ID and pseudo-fields, reusing the stored ones when the real ID is
 * already in the database and drawing new ones otherwise, and which columns
 * of an existing row a run marks for update.
 *
 * The database tables are maps from real ID to row. Random draws (nanoid
 * candidates, Faker names and dates, random ages) are inputs; dates are
 * already parsed and compared by equality.
 */
module Identity {
  import opened Wrappers
  import opened CompressionUtils
  import opened Text

  /** A parsed date or datetime; two dates are the same when every part is. */
  datatype Date = Date(year: nat, month: nat, day: nat, hour: nat, minute: nat)

  /** create_unique_pseudo_id is always called with its default trial count. */
  const CHECK_EXIST_TRIALS := 10

  /** "wsi_", "case_" and "study_" in ASCII. */
  const WSI_PREFIX: seq<byte> := [119, 115, 105, 95]
  const CASE_PREFIX: seq<byte> := [99, 97, 115, 101, 95]
  const STUDY_PREFIX: seq<byte> := [115, 116, 117, 100, 121, 95]
  /** "male" and "female" in ASCII, as Patient.create compares the lower-cased sex with them. */
  const MALE_TEXT: seq<byte> := [109, 97, 108, 101]
  const FEMALE_TEXT: seq<byte> := [102, 101, 109, 97, 108, 101]

  /** Patient.SEX */
  const FEMALE := 1
  const MALE := 2
  const UNKNOWN_SEX := 3

  // ---------------------------------------------------------------------
  // create_unique_pseudo_id
  // ---------------------------------------------------------------------

  /** The pseudo-IDs a table already holds. */
  function PseudoIds<R>(table: map<seq<byte>, R>, pseudoId: R -> seq<byte>): set<seq<byte>>
  {
    set k | k in table :: pseudoId(table[k])
  }

  /**
   * The outcome of create_unique_pseudo_id for a single drawn candidate: it
   * is never redrawn, so a collision only runs the trials down to the
   * exception, and with a negative trial count it is not checked at all.
   */
  function UniquePseudoId(candidate: seq<byte>, taken: set<seq<byte>>, trials: int): (r: Option<seq<byte>>)
    ensures r.Some? ==> r.value == candidate
    ensures trials >= 0 ==> (r.Some? <==> candidate !in taken)
    ensures trials < 0 ==> r.Some?
  {
    if trials < 0 || candidate !in taken then Some(candidate) else None
  }

  /** The trial loop; None is the exception it raises. */
  method CreateUniquePseudoId(candidate: seq<byte>, taken: set<seq<byte>>, trials: int) returns (r: Option<seq<byte>>)
    ensures r == UniquePseudoId(candidate, taken, trials)
  {
    var left := trials;
    while left >= 0
      invariant left == trials || (1 <= left < trials && candidate in taken)
      decreases left
    {
      if candidate in taken {
        left := left - 1;
      } else {
        return Some(candidate);
      }
      if left <= 0 {
        return None;
      }
    }
    return Some(candidate);
  }

  /** A table keyed by real ID whose pseudo_id column is unique. */
  predicate UniqueTable<R>(table: map<seq<byte>, R>, id: R -> seq<byte>, pseudoId: R -> seq<byte>)
  {
    (forall k :: k in table ==> id(table[k]) == k) &&
    (forall k, l :: k in table && l in table && pseudoId(table[k]) == pseudoId(table[l]) ==> k == l)
  }

  /**
   * Storing a row keeps the table unique when the row either replaces the
   * row of its own ID with the same pseudo-ID, or brings a pseudo-ID the
   * table does not hold yet.
   */
  lemma StoreKeepsUnique<R>(table: map<seq<byte>, R>, id: R -> seq<byte>, pseudoId: R -> seq<byte>, row: R)
    requires UniqueTable(table, id, pseudoId)
    requires (id(row) in table && pseudoId(table[id(row)]) == pseudoId(row))
          || pseudoId(row) !in PseudoIds(table, pseudoId)
    ensures UniqueTable(table[id(row) := row], id, pseudoId)
  {
    assert forall k :: k in table ==> pseudoId(table[k]) in PseudoIds(table, pseudoId);
  }

  // ---------------------------------------------------------------------
  // Field rules shared by the four create methods
  // ---------------------------------------------------------------------

  /** The columns a run can mark for update in an existing row. */
  datatype Column = Name | PseudoName | AcquiredAt | PseudoAcquiredAt | Stain | Tissue
                  | CreatedAt | PseudoCreatedAt | Sex | Age | PseudoAge | StudyDate | PseudoDate

  /** What a create call returns (None is False) and the object it leaves. */
  datatype Created<S> = Created(ok: bool, state: S)

  /**
   * A pseudonymised field (name, date, age): the pseudo value is drawn anew
   * when the input has the field and there is no row, or the row lacks the
   * real value; otherwise it is the one already held.
   */
  function Pseudonym<T(==), P>(given: Option<T>, found: bool, stored: Option<T>, held: P, drawn: P): (r: P)
  {
    if given.Some? && (!found || stored.None?) then drawn else held
  }

  /**
   * The columns a pseudonymised field marks for update: both the field and
   * its pseudo column when the row lacks the value, the field alone when
   * the row holds a different value.
   */
  function FieldUpdates<T(==)>(given: Option<T>, found: bool, stored: Option<T>,
                                column: Column, pseudoColumn: Column): (r: set<Column>)
  {
    if given.None? || !found then {}
    else if stored.None? then {column, pseudoColumn}
    else if stored != given then {column}
    else {}
  }

  /** stain, tissue and sex: marked when the row lacks or differs from the input. */
  function PlainUpdates<T(==)>(given: Option<T>, found: bool, stored: Option<T>, column: Column): (r: set<Column>)
  {
    if given.Some? && found && stored != given then {column} else {}
  }

  function Present<T>(given: Option<T>): nat
  {
    if given.Some? then 1 else 0
  }

  /** The rules mark nothing when the stored row already holds the input. */
  lemma RulesQuietOnStoredInput<T>(given: Option<T>, stored: Option<T>, column: Column, pseudoColumn: Column)
    requires given.Some? ==> stored == given
    ensures FieldUpdates(given, true, stored, column, pseudoColumn) == {}
    ensures PlainUpdates(given, true, stored, column) == {}
  {
  }

  // ---------------------------------------------------------------------
  // WSI
  // ---------------------------------------------------------------------

  /** A row of the WSI table (the columns the create rules read). */
  datatype WsiRow = WsiRow(id: seq<byte>, name: Option<seq<byte>>, acquiredAt: Option<Date>,
                           stain: Option<seq<byte>>, tissue: Option<seq<byte>>,
                           pseudoId: seq<byte>, pseudoName: Option<seq<byte>>, pseudoAcquiredAt: Option<Date>,
                           pseudoMetadataName: Option<seq<byte>>, pseudoMetadataKey: Option<seq<byte>>)

  /** A slide's JSON object: a field is None when its key is absent. */
  datatype WsiInput = WsiInput(id: seq<byte>, name: Option<seq<byte>>, acquiredAt: Option<Date>,
                               stain: Option<seq<byte>>, tissue: Option<seq<byte>>, path: seq<byte>)

  /** The random values one WSI.create may use: an ID candidate and a pseudo date. */
  datatype WsiDraw = WsiDraw(pseudoId: seq<byte>, acquiredAt: Date)

  datatype WsiState = WsiState(id: Option<seq<byte>>, name: Option<seq<byte>>, acquiredAt: Option<Date>,
                               stain: Option<seq<byte>>, tissue: Option<seq<byte>>, path: Option<seq<byte>>,
                               pseudoId: Option<seq<byte>>, pseudoName: Option<seq<byte>>,
                               pseudoAcquiredAt: Option<Date>,
                               pseudoMetadataName: Option<seq<byte>>, pseudoMetadataKey: Option<seq<byte>>,
                               fieldsCount: int, getFromDatabase: bool, needToBeUpdated: set<Column>)

  const NEW_WSI := WsiState(None, None, None, None, None, None, None, None, None, None, None, 1, false, {})

  function WsiPseudoIds(table: map<seq<byte>, WsiRow>): set<seq<byte>>
  {
    set k | k in table :: table[k].pseudoId
  }

  /**
   * The row the create rules compare the input against: the stored one, or
   * an empty one holding the new pseudo-ID (the rules then only test that
   * there was no row).
   */
  function WsiHeld(id: seq<byte>, table: map<seq<byte>, WsiRow>, pseudoId: seq<byte>): WsiRow
  {
    if id in table then table[id] else WsiRow(id, None, None, None, None, pseudoId, None, None, None, None)
  }

  function WsiId(r: WsiRow): seq<byte> { r.id }
  function WsiPseudoId(r: WsiRow): seq<byte> { r.pseudoId }

  /** The WSI object after create, as a function of the input, the table and the draws. */
  function WsiCreate(input: WsiInput, table: map<seq<byte>, WsiRow>, draw: WsiDraw): (r: Created<WsiState>)
    ensures r.state.id == Some(input.id)
    ensures !r.ok <==> input.id !in table && draw.pseudoId in WsiPseudoIds(table)
  {
    var found := input.id in table;
    var pid := if found then Some(table[input.id].pseudoId)
               else UniquePseudoId(draw.pseudoId, WsiPseudoIds(table), CHECK_EXIST_TRIALS);
    if pid.None? then Created(false, NEW_WSI.(id := Some(input.id)))
    else
      Created(true, WsiFields(input, found, WsiHeld(input.id, table, pid.value), draw))
  }

  /**
   * The fields of a created slide, from the input and the row it started
   * from (the stored row, or an empty one holding the new pseudo-ID).
   */
  function WsiFields(input: WsiInput, found: bool, held: WsiRow, draw: WsiDraw): WsiState
  {
    WsiState(
      id := Some(input.id), name := input.name, acquiredAt := input.acquiredAt,
      stain := input.stain, tissue := input.tissue, path := Some(input.path),
      pseudoId := Some(held.pseudoId),
      pseudoName := Pseudonym(input.name, found, held.name, held.pseudoName, Some(WSI_PREFIX + held.pseudoId)),
      pseudoAcquiredAt := Pseudonym(input.acquiredAt, found, held.acquiredAt, held.pseudoAcquiredAt, Some(draw.acquiredAt)),
      pseudoMetadataName := held.pseudoMetadataName, pseudoMetadataKey := held.pseudoMetadataKey,
      fieldsCount := 1 + Present(input.name) + Present(input.acquiredAt) + Present(input.stain) + Present(input.tissue),
      getFromDatabase := found,
      needToBeUpdated := FieldUpdates(input.name, found, held.name, Name, PseudoName)
                       + FieldUpdates(input.acquiredAt, found, held.acquiredAt, AcquiredAt, PseudoAcquiredAt)
                       + PlainUpdates(input.stain, found, held.stain, Stain)
                       + PlainUpdates(input.tissue, found, held.tissue, Tissue))
  }

  /**
   * A slide already in the table keeps its pseudo-ID, its pseudo metadata
   * name and key, and its pseudo name and date unless the input brings a
   * value the row lacks; only the listed columns can be marked for update.
   */
  lemma WsiReuse(input: WsiInput, table: map<seq<byte>, WsiRow>, draw: WsiDraw)
    requires input.id in table
    ensures var r := WsiCreate(input, table, draw); var row := table[input.id];
      r.ok && r.state.pseudoId == Some(row.pseudoId) && r.state.getFromDatabase &&
      (input.name.None? || row.name.Some? ==> r.state.pseudoName == row.pseudoName) &&
      (input.acquiredAt.None? || row.acquiredAt.Some? ==> r.state.pseudoAcquiredAt == row.pseudoAcquiredAt) &&
      r.state.pseudoMetadataName == row.pseudoMetadataName && r.state.pseudoMetadataKey == row.pseudoMetadataKey &&
      r.state.needToBeUpdated <= {Name, PseudoName, AcquiredAt, PseudoAcquiredAt, Stain, Tissue}
  {
  }

  /**
   * A slide not in the table gets the drawn candidate, "wsi_" + it as pseudo
   * name and the drawn date, when the candidate is free; nothing is marked.
   */
  lemma WsiFresh(input: WsiInput, table: map<seq<byte>, WsiRow>, draw: WsiDraw)
    requires input.id !in table && draw.pseudoId !in WsiPseudoIds(table)
    ensures var r := WsiCreate(input, table, draw);
      r.ok && r.state.pseudoId == Some(draw.pseudoId) && !r.state.getFromDatabase && r.state.needToBeUpdated == {} &&
      r.state.pseudoName == (if input.name.Some? then Some(WSI_PREFIX + draw.pseudoId) else None) &&
      r.state.pseudoAcquiredAt == (if input.acquiredAt.Some? then Some(draw.acquiredAt) else None)
  {
  }

  /** The row the object's fields describe once it is stored. */
  function WsiRowOf(s: WsiState, id: seq<byte>, pseudoId: seq<byte>): WsiRow
  {
    WsiRow(id, s.name, s.acquiredAt, s.stain, s.tissue, pseudoId, s.pseudoName, s.pseudoAcquiredAt,
           s.pseudoMetadataName, s.pseudoMetadataKey)
  }

  /**
   * Idempotence: once the created slide is stored, creating it again from
   * the same input reuses every pseudo-field, whatever is drawn, and marks
   * nothing for update.
   */
  lemma WsiRecreate(input: WsiInput, table: map<seq<byte>, WsiRow>, draw: WsiDraw, again: WsiDraw)
    requires WsiCreate(input, table, draw).ok
    ensures var s := WsiCreate(input, table, draw).state;
            WsiCreate(input, table[input.id := WsiRowOf(s, input.id, s.pseudoId.value)], again)
              == Created(true, s.(getFromDatabase := true, needToBeUpdated := {}))
  {
    var s := WsiCreate(input, table, draw).state;
    var row := WsiRowOf(s, input.id, s.pseudoId.value);
    RulesQuietOnStoredInput(input.name, row.name, Name, PseudoName);
    RulesQuietOnStoredInput(input.acquiredAt, row.acquiredAt, AcquiredAt, PseudoAcquiredAt);
    RulesQuietOnStoredInput(input.stain, row.stain, Stain, Stain);
    RulesQuietOnStoredInput(input.tissue, row.tissue, Tissue, Tissue);
  }

  /** Storing a created slide keeps pseudo_id unique in the WSI table. */
  lemma WsiStoreUnique(input: WsiInput, table: map<seq<byte>, WsiRow>, draw: WsiDraw)
    requires UniqueTable(table, WsiId, WsiPseudoId)
    requires WsiCreate(input, table, draw).ok
    ensures var s := WsiCreate(input, table, draw).state;
            UniqueTable(table[input.id := WsiRowOf(s, input.id, s.pseudoId.value)], WsiId, WsiPseudoId)
  {
    var s := WsiCreate(input, table, draw).state;
    StoreKeepsUnique(table, WsiId, WsiPseudoId, WsiRowOf(s, input.id, s.pseudoId.value));
  }

  class Wsi {
    var id: Option<seq<byte>>
    var name: Option<seq<byte>>
    var acquiredAt: Option<Date>
    var stain: Option<seq<byte>>
    var tissue: Option<seq<byte>>
    var path: Option<seq<byte>>
    var pseudoId: Option<seq<byte>>
    var pseudoName: Option<seq<byte>>
    var pseudoAcquiredAt: Option<Date>
    var pseudoMetadataName: Option<seq<byte>>
    var pseudoMetadataKey: Option<seq<byte>>
    /** The number of fields written on the label. */
    var fieldsCount: int
    /** The pseudo-data was taken from the database. */
    var getFromDatabase: bool
    /** Columns of the existing row that the run must update. */
    var needToBeUpdated: set<Column>

    function State(): WsiState
      reads this
    {
      WsiState(id, name, acquiredAt, stain, tissue, path, pseudoId, pseudoName, pseudoAcquiredAt,
               pseudoMetadataName, pseudoMetadataKey, fieldsCount, getFromDatabase, needToBeUpdated)
    }

    constructor ()
      ensures State() == NEW_WSI
    {
      id, name, acquiredAt, stain, tissue, path := None, None, None, None, None, None;
      pseudoId, pseudoName, pseudoAcquiredAt, pseudoMetadataName, pseudoMetadataKey := None, None, None, None, None;
      fieldsCount, getFromDatabase, needToBeUpdated := 1, false, {};
    }

    /** WSI.create; false is its None return after a failed pseudo-ID draw. */
    method Create(input: WsiInput, table: map<seq<byte>, WsiRow>, draw: WsiDraw) returns (ok: bool)
      requires State() == NEW_WSI
      modifies this
      ensures ok == WsiCreate(input, table, draw).ok
      ensures State() == WsiCreate(input, table, draw).state
    {
      var found;
      found, ok := LookUp(input.id, table, draw.pseudoId);
      if !ok {
        return;
      }
      var held := WsiHeld(input.id, table, pseudoId.value);
      TakeName(input.name, found, held);
      assert needToBeUpdated == FieldUpdates(input.name, found, held.name, Name, PseudoName);
      TakeAcquiredAt(input.acquiredAt, found, held, draw.acquiredAt);
      TakeStain(input.stain, found, held);
      TakeTissue(input.tissue, found, held);
      path := Some(input.path);
      assert State() == WsiFields(input, found, held, draw);
    }

    /**
     * The database lookup: a stored slide lends its pseudo-fields, otherwise
     * a pseudo-ID is drawn; false when that draw raises.
     */
    method LookUp(slideId: seq<byte>, table: map<seq<byte>, WsiRow>, candidate: seq<byte>) returns (found: bool, ok: bool)
      requires State() == NEW_WSI
      modifies this
      ensures found == (slideId in table)
      ensures ok == (found || UniquePseudoId(candidate, WsiPseudoIds(table), CHECK_EXIST_TRIALS).Some?)
      ensures !ok ==> State() == NEW_WSI.(id := Some(slideId))
      ensures ok ==> var held := WsiHeld(slideId, table, candidate);
        State() == NEW_WSI.(id := Some(slideId), pseudoId := Some(held.pseudoId), pseudoName := held.pseudoName,
                            pseudoAcquiredAt := held.pseudoAcquiredAt, pseudoMetadataName := held.pseudoMetadataName,
                            pseudoMetadataKey := held.pseudoMetadataKey, getFromDatabase := found)
    {
      id := Some(slideId);
      found := slideId in table;
      if found {
        var stored := table[slideId];
        pseudoId := Some(stored.pseudoId);
        pseudoName := stored.pseudoName;
        pseudoAcquiredAt := stored.pseudoAcquiredAt;
        pseudoMetadataName := stored.pseudoMetadataName;
        pseudoMetadataKey := stored.pseudoMetadataKey;
        getFromDatabase := true;
        ok := true;
      } else {
        var p := CreateUniquePseudoId(candidate, WsiPseudoIds(table), CHECK_EXIST_TRIALS);
        ok := p.Some?;
        if ok {
          pseudoId := p;
        }
      }
    }

    /** The "name" block: "wsi_" + pseudo-ID as pseudo name unless the row has a name. */
    method TakeName(given: Option<seq<byte>>, found: bool, held: WsiRow)
      requires pseudoId == Some(held.pseudoId) && pseudoName == held.pseudoName
      modifies this
      ensures State() == old(State()).(
          name := if given.Some? then given else old(name),
          pseudoName := Pseudonym(given, found, held.name, held.pseudoName, Some(WSI_PREFIX + held.pseudoId)),
          needToBeUpdated := old(needToBeUpdated) + FieldUpdates(given, found, held.name, Name, PseudoName),
          fieldsCount := old(fieldsCount) + Present(given))
    {
      if given.Some? {
        name := given;
        if !found {
          pseudoName := Some(WSI_PREFIX + pseudoId.value);
        } else if held.name.None? {
          pseudoName := Some(WSI_PREFIX + pseudoId.value);
          needToBeUpdated := needToBeUpdated + {Name, PseudoName};
        } else if held.name != name {
          needToBeUpdated := needToBeUpdated + {Name};
        }
        fieldsCount := fieldsCount + 1;
      }
    }

    /** The "acquired_at" block: a drawn pseudo date unless the row has a date. */
    method TakeAcquiredAt(given: Option<Date>, found: bool, held: WsiRow, drawn: Date)
      requires pseudoAcquiredAt == held.pseudoAcquiredAt
      modifies this
      ensures State() == old(State()).(
          acquiredAt := if given.Some? then given else old(acquiredAt),
          pseudoAcquiredAt := Pseudonym(given, found, held.acquiredAt, held.pseudoAcquiredAt, Some(drawn)),
          needToBeUpdated := old(needToBeUpdated) + FieldUpdates(given, found, held.acquiredAt, AcquiredAt, PseudoAcquiredAt),
          fieldsCount := old(fieldsCount) + Present(given))
    {
      if given.Some? {
        acquiredAt := given;
        if !found {
          pseudoAcquiredAt := Some(drawn);
        } else if held.acquiredAt.None? {
          pseudoAcquiredAt := Some(drawn);
          needToBeUpdated := needToBeUpdated + {AcquiredAt, PseudoAcquiredAt};
        } else if held.acquiredAt != acquiredAt {
          needToBeUpdated := needToBeUpdated + {AcquiredAt};
        }
        fieldsCount := fieldsCount + 1;
      }
    }

    method TakeStain(given: Option<seq<byte>>, found: bool, held: WsiRow)
      modifies this
      ensures State() == old(State()).(
          stain := if given.Some? then given else old(stain),
          needToBeUpdated := old(needToBeUpdated) + PlainUpdates(given, found, held.stain, Stain),
          fieldsCount := old(fieldsCount) + Present(given))
    {
      if given.Some? {
        stain := given;
        fieldsCount := fieldsCount + 1;
        if found && held.stain != stain {
          needToBeUpdated := needToBeUpdated + {Stain};
        }
      }
    }

    method TakeTissue(given: Option<seq<byte>>, found: bool, held: WsiRow)
      modifies this
      ensures State() == old(State()).(
          tissue := if given.Some? then given else old(tissue),
          needToBeUpdated := old(needToBeUpdated) + PlainUpdates(given, found, held.tissue, Tissue),
          fieldsCount := old(fieldsCount) + Present(given))
    {
      if given.Some? {
        tissue := given;
        fieldsCount := fieldsCount + 1;
        if found && held.tissue != tissue {
          needToBeUpdated := needToBeUpdated + {Tissue};
        }
      }
    }
  }

  /**
   * The slide loop of Case.create and Patient.create: a new WSI per slide,
   * kept whether or not its create succeeded.
   */
  method CreateSlides(inputs: seq<WsiInput>, table: map<seq<byte>, WsiRow>, draws: seq<WsiDraw>) returns (slides: seq<Wsi>)
    requires |draws| == |inputs|
    ensures |slides| == |inputs|
    ensures forall j :: 0 <= j < |slides| ==> fresh(slides[j])
    ensures forall j, k :: 0 <= j < k < |slides| ==> slides[j] != slides[k]
    ensures SlidesMade(slides, inputs, table, draws)
  {
    slides := [];
    var i := 0;
    while i < |inputs|
      invariant 0 <= i <= |inputs| && |slides| == i
      invariant forall j :: 0 <= j < i ==> fresh(slides[j])
      invariant forall j, k :: 0 <= j < k < i ==> slides[j] != slides[k]
      invariant forall j :: 0 <= j < i ==> slides[j].State() == WsiCreate(inputs[j], table, draws[j]).state
    {
      var wsi := new Wsi();
      var created := wsi.Create(inputs[i], table, draws[i]);
      slides := slides + [wsi];
      i := i + 1;
    }
  }

  /** Each slide object holds what WSI.create made of its input. */
  predicate SlidesMade(slides: seq<Wsi>, inputs: seq<WsiInput>, table: map<seq<byte>, WsiRow>, draws: seq<WsiDraw>)
    requires |draws| == |inputs|
    reads slides
  {
    |slides| == |inputs| &&
    forall j :: 0 <= j < |slides| ==> slides[j].State() == WsiCreate(inputs[j], table, draws[j]).state
  }

  // ---------------------------------------------------------------------
  // Case
  // ---------------------------------------------------------------------

  datatype CaseRow = CaseRow(id: seq<byte>, name: Option<seq<byte>>, createdAt: Option<Date>,
                             pseudoId: seq<byte>, pseudoName: Option<seq<byte>>, pseudoCreatedAt: Option<Date>)

  datatype CaseInput = CaseInput(id: seq<byte>, name: Option<seq<byte>>, createdAt: Option<Date>, slides: seq<WsiInput>)

  /** The draws of one Case.create: its own, then one per slide. */
  datatype CaseDraw = CaseDraw(pseudoId: seq<byte>, createdAt: Date, slides: seq<WsiDraw>)

  datatype CaseState = CaseState(id: Option<seq<byte>>, name: Option<seq<byte>>, createdAt: Option<Date>,
                                 pseudoId: Option<seq<byte>>, pseudoName: Option<seq<byte>>, pseudoCreatedAt: Option<Date>,
                                 fieldsCount: int, getFromDatabase: bool, needToBeUpdated: set<Column>)

  const NEW_CASE := CaseState(None, None, None, None, None, None, 1, false, {})

  function CasePseudoIds(table: map<seq<byte>, CaseRow>): set<seq<byte>>
  {
    set k | k in table :: table[k].pseudoId
  }

  function CaseHeld(id: seq<byte>, table: map<seq<byte>, CaseRow>, pseudoId: seq<byte>): CaseRow
  {
    if id in table then table[id] else CaseRow(id, None, None, pseudoId, None, None)
  }

  /** The Case object's own fields after create (its slides are WSI.create's). */
  function CaseCreate(input: CaseInput, table: map<seq<byte>, CaseRow>, draw: CaseDraw): (r: Created<CaseState>)
    ensures r.state.id == Some(input.id)
    ensures !r.ok <==> input.id !in table && draw.pseudoId in CasePseudoIds(table)
  {
    var found := input.id in table;
    var pid := if found then Some(table[input.id].pseudoId)
               else UniquePseudoId(draw.pseudoId, CasePseudoIds(table), CHECK_EXIST_TRIALS);
    if pid.None? then Created(false, NEW_CASE.(id := Some(input.id)))
    else Created(true, CaseFields(input, found, CaseHeld(input.id, table, pid.value), draw))
  }

  /** Unlike a slide's, a case's created_at is not counted as a label field. */
  function CaseFields(input: CaseInput, found: bool, held: CaseRow, draw: CaseDraw): CaseState
  {
    CaseState(
      id := Some(input.id), name := input.name, createdAt := input.createdAt,
      pseudoId := Some(held.pseudoId),
      pseudoName := Pseudonym(input.name, found, held.name, held.pseudoName, Some(CASE_PREFIX + held.pseudoId)),
      pseudoCreatedAt := Pseudonym(input.createdAt, found, held.createdAt, held.pseudoCreatedAt, Some(draw.createdAt)),
      fieldsCount := 1 + Present(input.name),
      getFromDatabase := found,
      needToBeUpdated := FieldUpdates(input.name, found, held.name, Name, PseudoName)
                       + FieldUpdates(input.createdAt, found, held.createdAt, CreatedAt, PseudoCreatedAt))
  }

  function CaseRowOf(s: CaseState, id: seq<byte>, pseudoId: seq<byte>): CaseRow
  {
    CaseRow(id, s.name, s.createdAt, pseudoId, s.pseudoName, s.pseudoCreatedAt)
  }

  /** Idempotence of Case.create once its row is stored. */
  lemma CaseRecreate(input: CaseInput, table: map<seq<byte>, CaseRow>, draw: CaseDraw, again: CaseDraw)
    requires CaseCreate(input, table, draw).ok
    ensures var s := CaseCreate(input, table, draw).state;
            CaseCreate(input, table[input.id := CaseRowOf(s, input.id, s.pseudoId.value)], again)
              == Created(true, s.(getFromDatabase := true, needToBeUpdated := {}))
  {
    var s := CaseCreate(input, table, draw).state;
    var row := CaseRowOf(s, input.id, s.pseudoId.value);
    RulesQuietOnStoredInput(input.name, row.name, Name, PseudoName);
    RulesQuietOnStoredInput(input.createdAt, row.createdAt, CreatedAt, PseudoCreatedAt);
    var t := table[input.id := row];
    assert CaseHeld(input.id, t, draw.pseudoId) == row;
    var r := CaseFields(input, true, row, again);
    assert r.needToBeUpdated == {};
    assert r.pseudoName == s.pseudoName;
    assert r.pseudoCreatedAt == s.pseudoCreatedAt;
    assert r == s.(getFromDatabase := true, needToBeUpdated := {});
  }

  /** A new case is named "case_" + its fresh pseudo-ID; a stored one keeps its pseudo-ID. */
  lemma CasePseudonyms(input: CaseInput, table: map<seq<byte>, CaseRow>, draw: CaseDraw)
    ensures var r := CaseCreate(input, table, draw);
      (input.id in table ==> r.ok && r.state.pseudoId == Some(table[input.id].pseudoId) && r.state.getFromDatabase) &&
      (input.id !in table && r.ok ==>
         r.state.pseudoId == Some(draw.pseudoId) && r.state.needToBeUpdated == {} &&
         r.state.pseudoName == (if input.name.Some? then Some(CASE_PREFIX + draw.pseudoId) else None))
  {
  }

  class Case {
    var id: Option<seq<byte>>
    var name: Option<seq<byte>>
    var createdAt: Option<Date>
    var pseudoId: Option<seq<byte>>
    var pseudoName: Option<seq<byte>>
    var pseudoCreatedAt: Option<Date>
    var slides: seq<Wsi>
    var fieldsCount: int
    var getFromDatabase: bool
    var needToBeUpdated: set<Column>

    function State(): CaseState
      reads this
    {
      CaseState(id, name, createdAt, pseudoId, pseudoName, pseudoCreatedAt, fieldsCount, getFromDatabase, needToBeUpdated)
    }

    constructor ()
      ensures State() == NEW_CASE && slides == []
    {
      id, name, createdAt, pseudoId, pseudoName, pseudoCreatedAt := None, None, None, None, None, None;
      slides, fieldsCount, getFromDatabase, needToBeUpdated := [], 1, false, {};
    }

    /** Case.create, then WSI.create for every slide of the case. */
    method Create(input: CaseInput, table: map<seq<byte>, CaseRow>, slideTable: map<seq<byte>, WsiRow>, draw: CaseDraw)
      returns (ok: bool)
      requires State() == NEW_CASE && slides == [] && |draw.slides| == |input.slides|
      modifies this
      ensures ok == CaseCreate(input, table, draw).ok
      ensures State() == CaseCreate(input, table, draw).state
      ensures !ok ==> slides == []
      ensures ok ==> SlidesMade(slides, input.slides, slideTable, draw.slides)
      ensures forall j :: 0 <= j < |slides| ==> fresh(slides[j])
    {
      var found;
      found, ok := LookUp(input.id, table, draw.pseudoId);
      if !ok {
        return;
      }
      var held := CaseHeld(input.id, table, pseudoId.value);
      TakeName(input.name, found, held);
      assert needToBeUpdated == FieldUpdates(input.name, found, held.name, Name, PseudoName);
      TakeCreatedAt(input.createdAt, found, held, draw.createdAt);
      assert State() == CaseFields(input, found, held, draw);
      slides := CreateSlides(input.slides, slideTable, draw.slides);
    }

    method LookUp(caseId: seq<byte>, table: map<seq<byte>, CaseRow>, candidate: seq<byte>) returns (found: bool, ok: bool)
      requires State() == NEW_CASE && slides == []
      modifies this
      ensures slides == []
      ensures found == (caseId in table)
      ensures ok == (found || UniquePseudoId(candidate, CasePseudoIds(table), CHECK_EXIST_TRIALS).Some?)
      ensures !ok ==> State() == NEW_CASE.(id := Some(caseId))
      ensures ok ==> var held := CaseHeld(caseId, table, candidate);
        State() == NEW_CASE.(id := Some(caseId), pseudoId := Some(held.pseudoId), pseudoName := held.pseudoName,
                             pseudoCreatedAt := held.pseudoCreatedAt, getFromDatabase := found)
    {
      id := Some(caseId);
      found := caseId in table;
      if found {
        var stored := table[caseId];
        pseudoId := Some(stored.pseudoId);
        pseudoName := stored.pseudoName;
        pseudoCreatedAt := stored.pseudoCreatedAt;
        getFromDatabase := true;
        ok := true;
      } else {
        var p := CreateUniquePseudoId(candidate, CasePseudoIds(table), CHECK_EXIST_TRIALS);
        ok := p.Some?;
        if ok {
          pseudoId := p;
        }
      }
    }
  
    method TakeName(given: Option<seq<byte>>, found: bool, held: CaseRow)
      requires pseudoId == Some(held.pseudoId) && pseudoName == held.pseudoName
      modifies this
      ensures slides == old(slides)
      ensures State() == old(State()).(
          name := if given.Some? then given else old(name),
          pseudoName := Pseudonym(given, found, held.name, held.pseudoName, Some(CASE_PREFIX + held.pseudoId)),
          needToBeUpdated := old(needToBeUpdated) + FieldUpdates(given, found, held.name, Name, PseudoName),
          fieldsCount := old(fieldsCount) + Present(given))
    {
      if given.Some? {
        name := given;
        if !found {
          pseudoName := Some(CASE_PREFIX + pseudoId.value);
        } else if held.name.None? {
          pseudoName := Some(CASE_PREFIX + pseudoId.value);
          needToBeUpdated := needToBeUpdated + {Name, PseudoName};
        } else if held.name != name {
          needToBeUpdated := needToBeUpdated + {Name};
        }
        fieldsCount := fieldsCount + 1;
      }
    }

    method TakeCreatedAt(given: Option<Date>, found: bool, held: CaseRow, drawn: Date)
      requires pseudoCreatedAt == held.pseudoCreatedAt
      modifies this
      ensures slides == old(slides)
      ensures State() == old(State()).(
          createdAt := if given.Some? then given else old(createdAt),
          pseudoCreatedAt := Pseudonym(given, found, held.createdAt, held.pseudoCreatedAt, Some(drawn)),
          needToBeUpdated := old(needToBeUpdated) + FieldUpdates(given, found, held.createdAt, CreatedAt, PseudoCreatedAt))
    {
      if given.Some? {
        createdAt := given;
        if !found {
          pseudoCreatedAt := Some(drawn);
        } else if held.createdAt.None? {
          pseudoCreatedAt := Some(drawn);
          needToBeUpdated := needToBeUpdated + {CreatedAt, PseudoCreatedAt};
        } else if held.createdAt != createdAt {
          needToBeUpdated := needToBeUpdated + {CreatedAt};
        }
      }
    }
  }

  // ---------------------------------------------------------------------
  // Patient
  // ---------------------------------------------------------------------

  datatype PatientRow = PatientRow(id: seq<byte>, name: Option<seq<byte>>, sex: Option<int>, age: Option<int>,
                                   pseudoId: seq<byte>, pseudoName: Option<seq<byte>>, pseudoAge: Option<int>)

  /** sex is the input's value as text; age is already an integer. */
  datatype PatientInput = PatientInput(id: seq<byte>, name: Option<seq<byte>>, sex: Option<seq<byte>>, age: Option<int>,
                                       slides: seq<WsiInput>)

  /** The draws of one Patient.create: a pseudo-ID, a person name, an age, one per slide. */
  datatype PatientDraw = PatientDraw(pseudoId: seq<byte>, name: seq<byte>, age: int, slides: seq<WsiDraw>)

  datatype PatientState = PatientState(id: Option<seq<byte>>, name: Option<seq<byte>>, sex: int, age: int,
                                       pseudoId: Option<seq<byte>>, pseudoName: Option<seq<byte>>, pseudoAge: Option<int>,
                                       fieldsCount: int, getFromDatabase: bool, needToBeUpdated: set<Column>)

  /** A new Patient: unknown sex, age and pseudo age 0. */
  const NEW_PATIENT := PatientState(None, None, UNKNOWN_SEX, 0, None, None, Some(0), 1, false, {})

  /** Patient.SEX for the input's text, compared case-insensitively. */
  function SexCode(sex: seq<byte>): (r: int)
    ensures r in {FEMALE, MALE, UNKNOWN_SEX}
    ensures r == MALE <==> LowerAscii(sex) == MALE_TEXT
    ensures r == FEMALE <==> LowerAscii(sex) == FEMALE_TEXT
  {
    var lower := LowerAscii(sex);
    if lower == MALE_TEXT then MALE else if lower == FEMALE_TEXT then FEMALE else UNKNOWN_SEX
  }

  /** Case does not matter: "Male" and "MALE" are both MALE. */
  lemma SexCodeIgnoresCase(a: seq<byte>, b: seq<byte>)
    requires LowerAscii(a) == LowerAscii(b)
    ensures SexCode(a) == SexCode(b)
  {
  }

  function SexGiven(sex: Option<seq<byte>>): Option<int>
  {
    if sex.Some? then Some(SexCode(sex.value)) else None
  }

  function PatientPseudoIds(table: map<seq<byte>, PatientRow>): set<seq<byte>>
  {
    set k | k in table :: table[k].pseudoId
  }

  /** An empty row carries the new object's pseudo age 0. */
  function PatientHeld(id: seq<byte>, table: map<seq<byte>, PatientRow>, pseudoId: seq<byte>): PatientRow
  {
    if id in table then table[id] else PatientRow(id, None, None, None, pseudoId, None, Some(0))
  }

  function PatientCreate(input: PatientInput, table: map<seq<byte>, PatientRow>, draw: PatientDraw): (r: Created<PatientState>)
    ensures r.state.id == Some(input.id)
    ensures !r.ok <==> input.id !in table && draw.pseudoId in PatientPseudoIds(table)
  {
    var found := input.id in table;
    var pid := if found then Some(table[input.id].pseudoId)
               else UniquePseudoId(draw.pseudoId, PatientPseudoIds(table), CHECK_EXIST_TRIALS);
    if pid.None? then Created(false, NEW_PATIENT.(id := Some(input.id)))
    else Created(true, PatientFields(input, found, PatientHeld(input.id, table, pid.value), draw))
  }

  /** A patient's pseudo name is a drawn person name; no patient field is counted for the label. */
  function PatientFields(input: PatientInput, found: bool, held: PatientRow, draw: PatientDraw): PatientState
  {
    PatientState(
      id := Some(input.id), name := input.name,
      sex := if input.sex.Some? then SexCode(input.sex.value) else UNKNOWN_SEX,
      age := if input.age.Some? then input.age.value else 0,
      pseudoId := Some(held.pseudoId),
      pseudoName := Pseudonym(input.name, found, held.name, held.pseudoName, Some(draw.name)),
      pseudoAge := Pseudonym(input.age, found, held.age, held.pseudoAge, Some(draw.age)),
      fieldsCount := 1,
      getFromDatabase := found,
      needToBeUpdated := FieldUpdates(input.name, found, held.name, Name, PseudoName)
                       + PlainUpdates(SexGiven(input.sex), found, held.sex, Sex)
                       + FieldUpdates(input.age, found, held.age, Age, PseudoAge))
  }

  /** The row a created patient is stored as; sex and age are stored only when the input had them. */
  function PatientRowOf(s: PatientState, input: PatientInput, pseudoId: seq<byte>): PatientRow
  {
    PatientRow(input.id, s.name, SexGiven(input.sex), input.age, pseudoId, s.pseudoName, s.pseudoAge)
  }

  /** Idempotence of Patient.create once its row is stored. */
  lemma PatientRecreate(input: PatientInput, table: map<seq<byte>, PatientRow>, draw: PatientDraw, again: PatientDraw)
    requires PatientCreate(input, table, draw).ok
    ensures var s := PatientCreate(input, table, draw).state;
            PatientCreate(input, table[input.id := PatientRowOf(s, input, s.pseudoId.value)], again)
              == Created(true, s.(getFromDatabase := true, needToBeUpdated := {}))
  {
    var s := PatientCreate(input, table, draw).state;
    var row := PatientRowOf(s, input, s.pseudoId.value);
    RulesQuietOnStoredInput(input.name, row.name, Name, PseudoName);
    RulesQuietOnStoredInput(SexGiven(input.sex), row.sex, Sex, Sex);
    RulesQuietOnStoredInput(input.age, row.age, Age, PseudoAge);
    var r := PatientFields(input, true, row, again);
    assert r.needToBeUpdated == {};
    assert r == s.(getFromDatabase := true, needToBeUpdated := {});
  }

  /** A stored patient keeps its pseudo-ID; a new one gets the drawn name and age. */
  lemma PatientPseudonyms(input: PatientInput, table: map<seq<byte>, PatientRow>, draw: PatientDraw)
    ensures var r := PatientCreate(input, table, draw);
      (input.id in table ==> r.ok && r.state.pseudoId == Some(table[input.id].pseudoId) && r.state.getFromDatabase) &&
      (input.id !in table && r.ok ==>
         r.state.pseudoId == Some(draw.pseudoId) && r.state.needToBeUpdated == {} &&
         r.state.pseudoName == (if input.name.Some? then Some(draw.name) else None) &&
         r.state.pseudoAge == (if input.age.Some? then Some(draw.age) else Some(0)))
  {
  }

  /** The draws cover every slide of every patient. */
  predicate PatientDrawsFit(inputs: seq<PatientInput>, draws: seq<PatientDraw>)
  {
    |draws| == |inputs| && forall j :: 0 <= j < |inputs| ==> |draws[j].slides| == |inputs[j].slides|
  }

  class Patient {
    var id: Option<seq<byte>>
    var name: Option<seq<byte>>
    var sex: int
    var age: int
    var pseudoId: Option<seq<byte>>
    var pseudoName: Option<seq<byte>>
    var pseudoAge: Option<int>
    var slides: seq<Wsi>
    var fieldsCount: int
    var getFromDatabase: bool
    var needToBeUpdated: set<Column>

    function State(): PatientState
      reads this
    {
      PatientState(id, name, sex, age, pseudoId, pseudoName, pseudoAge, fieldsCount, getFromDatabase, needToBeUpdated)
    }

    constructor ()
      ensures State() == NEW_PATIENT && slides == []
    {
      id, name, sex, age, pseudoId, pseudoName, pseudoAge := None, None, UNKNOWN_SEX, 0, None, None, Some(0);
      slides, fieldsCount, getFromDatabase, needToBeUpdated := [], 1, false, {};
    }

    /** Patient.create, then WSI.create for every slide of the patient. */
    method Create(input: PatientInput, table: map<seq<byte>, PatientRow>, slideTable: map<seq<byte>, WsiRow>, draw: PatientDraw)
      returns (ok: bool)
      requires State() == NEW_PATIENT && slides == [] && |draw.slides| == |input.slides|
      modifies this
      ensures ok == PatientCreate(input, table, draw).ok
      ensures State() == PatientCreate(input, table, draw).state
      ensures !ok ==> slides == []
      ensures ok ==> SlidesMade(slides, input.slides, slideTable, draw.slides)
      ensures forall j :: 0 <= j < |slides| ==> fresh(slides[j])
    {
      var found;
      found, ok := LookUp(input.id, table, draw.pseudoId);
      if !ok {
        return;
      }
      var held := PatientHeld(input.id, table, pseudoId.value);
      TakeName(input.name, found, held, draw.name);
      assert needToBeUpdated == FieldUpdates(input.name, found, held.name, Name, PseudoName);
      TakeSex(input.sex, found, held);
      TakeAge(input.age, found, held, draw.age);
      assert State() == PatientFields(input, found, held, draw);
      slides := CreateSlides(input.slides, slideTable, draw.slides);
    }

    method LookUp(patientId: seq<byte>, table: map<seq<byte>, PatientRow>, candidate: seq<byte>) returns (found: bool, ok: bool)
      requires State() == NEW_PATIENT && slides == []
      modifies this
      ensures slides == []
      ensures found == (patientId in table)
      ensures ok == (found || UniquePseudoId(candidate, PatientPseudoIds(table), CHECK_EXIST_TRIALS).Some?)
      ensures !ok ==> State() == NEW_PATIENT.(id := Some(patientId))
      ensures ok ==> var held := PatientHeld(patientId, table, candidate);
        State() == NEW_PATIENT.(id := Some(patientId), pseudoId := Some(held.pseudoId), pseudoName := held.pseudoName,
                                pseudoAge := held.pseudoAge, getFromDatabase := found)
    {
      id := Some(patientId);
      found := patientId in table;
      if found {
        var stored := table[patientId];
        pseudoId := Some(stored.pseudoId);
        pseudoName := stored.pseudoName;
        pseudoAge := stored.pseudoAge;
        getFromDatabase := true;
        ok := true;
      } else {
        var p := CreateUniquePseudoId(candidate, PatientPseudoIds(table), CHECK_EXIST_TRIALS);
        ok := p.Some?;
        if ok {
          pseudoId := p;
        }
      }
    }

    /** The "name" block: a drawn person name unless the row has a name. */
    method TakeName(given: Option<seq<byte>>, found: bool, held: PatientRow, drawn: seq<byte>)
      requires pseudoName == held.pseudoName
      modifies this
      ensures slides == old(slides)
      ensures State() == old(State()).(
          name := if given.Some? then given else old(name),
          pseudoName := Pseudonym(given, found, held.name, held.pseudoName, Some(drawn)),
          needToBeUpdated := old(needToBeUpdated) + FieldUpdates(given, found, held.name, Name, PseudoName))
    {
      if given.Some? {
        name := given;
        if !found {
          pseudoName := Some(drawn);
        } else if held.name.None? {
          pseudoName := Some(drawn);
          needToBeUpdated := needToBeUpdated + {Name, PseudoName};
        } else if held.name != name {
          needToBeUpdated := needToBeUpdated + {Name};
        }
      }
    }

    /** The "sex" block: "male" is MALE, "female" FEMALE, anything else UNKNOWN. */
    method TakeSex(given: Option<seq<byte>>, found: bool, held: PatientRow)
      modifies this
      ensures slides == old(slides)
      ensures State() == old(State()).(
          sex := if given.Some? then SexCode(given.value) else old(sex),
          needToBeUpdated := old(needToBeUpdated) + PlainUpdates(SexGiven(given), found, held.sex, Sex))
    {
      if given.Some? {
        var lower := LowerAscii(given.value);
        if lower == MALE_TEXT {
          sex := MALE;
        } else if lower == FEMALE_TEXT {
          sex := FEMALE;
        } else {
          sex := UNKNOWN_SEX;
        }
        if found && (held.sex.None? || held.sex.value != sex) {
          needToBeUpdated := needToBeUpdated + {Sex};
        }
      }
    }

    /** The "age" block: a drawn pseudo age unless the row has an age. */
    method TakeAge(given: Option<int>, found: bool, held: PatientRow, drawn: int)
      requires pseudoAge == held.pseudoAge
      modifies this
      ensures slides == old(slides)
      ensures State() == old(State()).(
          age := if given.Some? then given.value else old(age),
          pseudoAge := Pseudonym(given, found, held.age, held.pseudoAge, Some(drawn)),
          needToBeUpdated := old(needToBeUpdated) + FieldUpdates(given, found, held.age, Age, PseudoAge))
    {
      if given.Some? {
        age := given.value;
        if !found {
          pseudoAge := Some(drawn);
        } else if held.age.None? {
          pseudoAge := Some(drawn);
          needToBeUpdated := needToBeUpdated + {Age, PseudoAge};
        } else if held.age.value != age {
          needToBeUpdated := needToBeUpdated + {Age};
        }
      }
    }
  }

  /** A patient object holds what Patient.create made of its input, slides included. */
  predicate PatientMade(patient: Patient, input: PatientInput, table: map<seq<byte>, PatientRow>,
                        slideTable: map<seq<byte>, WsiRow>, draw: PatientDraw)
    requires |draw.slides| == |input.slides|
    reads patient, patient.slides
  {
    var r := PatientCreate(input, table, draw);
    patient.State() == r.state &&
    (r.ok ==> SlidesMade(patient.slides, input.slides, slideTable, draw.slides)) &&
    (!r.ok ==> patient.slides == [])
  }

  /** The patient loop of Study.create: a new Patient per entry, kept whatever its create returned. */
  method CreatePatients(inputs: seq<PatientInput>, table: map<seq<byte>, PatientRow>, slideTable: map<seq<byte>, WsiRow>,
                        draws: seq<PatientDraw>) returns (patients: seq<Patient>)
    requires PatientDrawsFit(inputs, draws)
    ensures |patients| == |inputs|
    ensures forall j :: 0 <= j < |patients| ==> fresh(patients[j])
    ensures forall j, k :: 0 <= j < k < |patients| ==> patients[j] != patients[k]
    ensures forall j :: 0 <= j < |patients| ==> PatientMade(patients[j], inputs[j], table, slideTable, draws[j])
  {
    patients := [];
    var i := 0;
    while i < |inputs|
      invariant 0 <= i <= |inputs| && |patients| == i
      invariant forall j :: 0 <= j < i ==> fresh(patients[j])
      invariant forall j, k :: 0 <= j < k < i ==> patients[j] != patients[k]
      invariant forall j :: 0 <= j < i ==> PatientMade(patients[j], inputs[j], table, slideTable, draws[j])
    {
      var patient := new Patient();
      var created := patient.Create(inputs[i], table, slideTable, draws[i]);
      patients := patients + [patient];
      i := i + 1;
    }
  }

  // ---------------------------------------------------------------------
  // Study
  // ---------------------------------------------------------------------

  datatype StudyRow = StudyRow(id: seq<byte>, name: Option<seq<byte>>, date: Option<Date>,
                               pseudoId: seq<byte>, pseudoName: Option<seq<byte>>, pseudoDate: Option<Date>)

  datatype StudyInput = StudyInput(id: seq<byte>, name: Option<seq<byte>>, date: Option<Date>, patients: seq<PatientInput>)

  datatype StudyDraw = StudyDraw(pseudoId: seq<byte>, date: Date, patients: seq<PatientDraw>)

  datatype StudyState = StudyState(id: Option<seq<byte>>, name: Option<seq<byte>>, date: Option<Date>,
                                   pseudoId: Option<seq<byte>>, pseudoName: Option<seq<byte>>, pseudoDate: Option<Date>,
                                   fieldsCount: int, getFromDatabase: bool, needToBeUpdated: set<Column>)

  const NEW_STUDY := StudyState(None, None, None, None, None, None, 1, false, {})

  function StudyPseudoIds(table: map<seq<byte>, StudyRow>): set<seq<byte>>
  {
    set k | k in table :: table[k].pseudoId
  }

  function StudyHeld(id: seq<byte>, table: map<seq<byte>, StudyRow>, pseudoId: seq<byte>): StudyRow
  {
    if id in table then table[id] else StudyRow(id, None, None, pseudoId, None, None)
  }

  function StudyCreate(input: StudyInput, table: map<seq<byte>, StudyRow>, draw: StudyDraw): (r: Created<StudyState>)
    ensures r.state.id == Some(input.id)
    ensures !r.ok <==> input.id !in table && draw.pseudoId in StudyPseudoIds(table)
  {
    var found := input.id in table;
    var pid := if found then Some(table[input.id].pseudoId)
               else UniquePseudoId(draw.pseudoId, StudyPseudoIds(table), CHECK_EXIST_TRIALS);
    if pid.None? then Created(false, NEW_STUDY.(id := Some(input.id)))
    else Created(true, StudyFields(input, found, StudyHeld(input.id, table, pid.value), draw))
  }

  /** A study's date, like a case's created_at, is not counted as a label field. */
  function StudyFields(input: StudyInput, found: bool, held: StudyRow, draw: StudyDraw): StudyState
  {
    StudyState(
      id := Some(input.id), name := input.name, date := input.date,
      pseudoId := Some(held.pseudoId),
      pseudoName := Pseudonym(input.name, found, held.name, held.pseudoName, Some(STUDY_PREFIX + held.pseudoId)),
      pseudoDate := Pseudonym(input.date, found, held.date, held.pseudoDate, Some(draw.date)),
      fieldsCount := 1 + Present(input.name),
      getFromDatabase := found,
      needToBeUpdated := FieldUpdates(input.name, found, held.name, Name, PseudoName)
                       + FieldUpdates(input.date, found, held.date, StudyDate, PseudoDate))
  }

  function StudyRowOf(s: StudyState, id: seq<byte>, pseudoId: seq<byte>): StudyRow
  {
    StudyRow(id, s.name, s.date, pseudoId, s.pseudoName, s.pseudoDate)
  }

  /** Idempotence of Study.create once its row is stored. */
  lemma StudyRecreate(input: StudyInput, table: map<seq<byte>, StudyRow>, draw: StudyDraw, again: StudyDraw)
    requires StudyCreate(input, table, draw).ok
    ensures var s := StudyCreate(input, table, draw).state;
            StudyCreate(input, table[input.id := StudyRowOf(s, input.id, s.pseudoId.value)], again)
              == Created(true, s.(getFromDatabase := true, needToBeUpdated := {}))
  {
    var s := StudyCreate(input, table, draw).state;
    var row := StudyRowOf(s, input.id, s.pseudoId.value);
    RulesQuietOnStoredInput(input.name, row.name, Name, PseudoName);
    RulesQuietOnStoredInput(input.date, row.date, StudyDate, PseudoDate);
    var r := StudyFields(input, true, row, again);
    assert r.needToBeUpdated == {};
    assert r == s.(getFromDatabase := true, needToBeUpdated := {});
  }

  /** A new study is named "study_" + its fresh pseudo-ID; a stored one keeps its pseudo-ID. */
  lemma StudyPseudonyms(input: StudyInput, table: map<seq<byte>, StudyRow>, draw: StudyDraw)
    ensures var r := StudyCreate(input, table, draw);
      (input.id in table ==> r.ok && r.state.pseudoId == Some(table[input.id].pseudoId) && r.state.getFromDatabase) &&
      (input.id !in table && r.ok ==>
         r.state.pseudoId == Some(draw.pseudoId) && r.state.needToBeUpdated == {} &&
         r.state.pseudoName == (if input.name.Some? then Some(STUDY_PREFIX + draw.pseudoId) else None))
  {
  }

  class Study {
    var id: Option<seq<byte>>
    var name: Option<seq<byte>>
    var date: Option<Date>
    var pseudoId: Option<seq<byte>>
    var pseudoName: Option<seq<byte>>
    var pseudoDate: Option<Date>
    var patients: seq<Patient>
    var fieldsCount: int
    var getFromDatabase: bool
    var needToBeUpdated: set<Column>

    function State(): StudyState
      reads this
    {
      StudyState(id, name, date, pseudoId, pseudoName, pseudoDate, fieldsCount, getFromDatabase, needToBeUpdated)
    }

    constructor ()
      ensures State() == NEW_STUDY && patients == []
    {
      id, name, date, pseudoId, pseudoName, pseudoDate := None, None, None, None, None, None;
      patients, fieldsCount, getFromDatabase, needToBeUpdated := [], 1, false, {};
    }

    /** Study.create, then Patient.create for every patient of the study. */
    method Create(input: StudyInput, table: map<seq<byte>, StudyRow>, patientTable: map<seq<byte>, PatientRow>,
                  slideTable: map<seq<byte>, WsiRow>, draw: StudyDraw) returns (ok: bool)
      requires State() == NEW_STUDY && patients == [] && PatientDrawsFit(input.patients, draw.patients)
      modifies this
      ensures ok == StudyCreate(input, table, draw).ok
      ensures State() == StudyCreate(input, table, draw).state
      ensures !ok ==> patients == []
      ensures ok ==> |patients| == |input.patients|
      ensures ok ==> forall j :: 0 <= j < |patients| ==>
          PatientMade(patients[j], input.patients[j], patientTable, slideTable, draw.patients[j])
    {
      var found;
      found, ok := LookUp(input.id, table, draw.pseudoId);
      if !ok {
        return;
      }
      var held := StudyHeld(input.id, table, pseudoId.value);
      TakeName(input.name, found, held);
      assert needToBeUpdated == FieldUpdates(input.name, found, held.name, Name, PseudoName);
      TakeDate(input.date, found, held, draw.date);
      assert State() == StudyFields(input, found, held, draw);
      patients := CreatePatients(input.patients, patientTable, slideTable, draw.patients);
    }

    method LookUp(studyId: seq<byte>, table: map<seq<byte>, StudyRow>, candidate: seq<byte>) returns (found: bool, ok: bool)
      requires State() == NEW_STUDY && patients == []
      modifies this
      ensures patients == []
      ensures found == (studyId in table)
      ensures ok == (found || UniquePseudoId(candidate, StudyPseudoIds(table), CHECK_EXIST_TRIALS).Some?)
      ensures !ok ==> State() == NEW_STUDY.(id := Some(studyId))
      ensures ok ==> var held := StudyHeld(studyId, table, candidate);
        State() == NEW_STUDY.(id := Some(studyId), pseudoId := Some(held.pseudoId), pseudoName := held.pseudoName,
                              pseudoDate := held.pseudoDate, getFromDatabase := found)
    {
      id := Some(studyId);
      found := studyId in table;
      if found {
        var stored := table[studyId];
        pseudoId := Some(stored.pseudoId);
        pseudoName := stored.pseudoName;
        pseudoDate := stored.pseudoDate;
        getFromDatabase := true;
        ok := true;
      } else {
        var p := CreateUniquePseudoId(candidate, StudyPseudoIds(table), CHECK_EXIST_TRIALS);
        ok := p.Some?;
        if ok {
          pseudoId := p;
        }
      }
    }

    method TakeName(given: Option<seq<byte>>, found: bool, held: StudyRow)
      requires pseudoId == Some(held.pseudoId) && pseudoName == held.pseudoName
      modifies this
      ensures patients == old(patients)
      ensures State() == old(State()).(
          name := if given.Some? then given else old(name),
          pseudoName := Pseudonym(given, found, held.name, held.pseudoName, Some(STUDY_PREFIX + held.pseudoId)),
          needToBeUpdated := old(needToBeUpdated) + FieldUpdates(given, found, held.name, Name, PseudoName),
          fieldsCount := old(fieldsCount) + Present(given))
    {
      if given.Some? {
        name := given;
        if !found {
          pseudoName := Some(STUDY_PREFIX + pseudoId.value);
        } else if held.name.None? {
          pseudoName := Some(STUDY_PREFIX + pseudoId.value);
          needToBeUpdated := needToBeUpdated + {Name, PseudoName};
        } else if held.name != name {
          needToBeUpdated := needToBeUpdated + {Name};
        }
        fieldsCount := fieldsCount + 1;
      }
    }

    method TakeDate(given: Option<Date>, found: bool, held: StudyRow, drawn: Date)
      requires pseudoDate == held.pseudoDate
      modifies this
      ensures patients == old(patients)
      ensures State() == old(State()).(
          date := if given.Some? then given else old(date),
          pseudoDate := Pseudonym(given, found, held.date, held.pseudoDate, Some(drawn)),
          needToBeUpdated := old(needToBeUpdated) + FieldUpdates(given, found, held.date, StudyDate, PseudoDate))
    {
      if given.Some? {
        date := given;
        if !found {
          pseudoDate := Some(drawn);
        } else if held.date.None? {
          pseudoDate := Some(drawn);
          needToBeUpdated := needToBeUpdated + {StudyDate, PseudoDate};
        } else if held.date != date {
          needToBeUpdated := needToBeUpdated + {StudyDate};
        }
      }
    }
  }
}
