/**
 * The output JSON of a single slide (create_json for SINGLE_WSI): the
 * input's JSON object, rewritten in place with the slide's pseudo-fields
 * when pseudonymising, or with its original fields when de-pseudonymising.
 * Formatting a date with DATETIME_FORMAT is not modelled: a written date
 * is the JDate value.
 */
module OutputJson {
  import opened Wrappers
  import opened CompressionUtils
  import opened Identity
  import opened Naming

  /** A JSON value: text, null, a formatted date, or any other value the input held. */
  datatype JsonValue = JText(text: seq<byte>) | JNull | JDate(date: Date) | JOther(token: nat)

  /** "slide_data", "id", "path", "name" and "acquired_at" in ASCII. */
  const SLIDE_DATA: seq<byte> := [115, 108, 105, 100, 101, 95, 100, 97, 116, 97]
  const ID: seq<byte> := [105, 100]
  const PATH: seq<byte> := [112, 97, 116, 104]
  const NAME: seq<byte> := [110, 97, 109, 101]
  const ACQUIRED_AT: seq<byte> := [97, 99, 113, 117, 105, 114, 101, 100, 95, 97, 116]

  /** A Python str or None as it lands in the JSON. */
  function TextOrNull(o: Option<seq<byte>>): JsonValue
  {
    if o.Some? then JText(o.value) else JNull
  }

  /** The basic JSON object, a dict the rewrite updates in place. */
  class JsonObject {
    var entries: map<seq<byte>, JsonValue>

    constructor(entries: map<seq<byte>, JsonValue>)
      ensures this.entries == entries
    {
      this.entries := entries;
    }
  }

  /**
   * The fields written for one mode: the ID, the path, the name and the
   * date. Pseudonymising writes the pseudo-ID, the pseudonymised file's
   * path, the pseudo name and the pseudo date; de-pseudonymising writes the
   * originals.
   */
  datatype Written = Written(id: Option<seq<byte>>, path: Option<seq<byte>>, name: Option<seq<byte>>,
                             acquiredAt: Option<Date>)

  function WrittenFor(slide: WsiState, pseudoFilePath: Option<seq<byte>>, dePseudonym: bool): Written
  {
    if dePseudonym then Written(slide.id, slide.path, slide.name, slide.acquiredAt)
    else Written(slide.pseudoId, pseudoFilePath, slide.pseudoName, slide.pseudoAcquiredAt)
  }

  /**
   * The output, key by key: "slide_data" is gone; "id" and "path" are
   * always written; "name" is rewritten only when the input had it;
   * "acquired_at" only when the input had it and the written date is not
   * None; every other key keeps its value.
   */
  function OutputEntries(json: map<seq<byte>, JsonValue>, w: Written): (r: map<seq<byte>, JsonValue>)
    ensures r.Keys == json.Keys - {SLIDE_DATA} + {ID, PATH}
    ensures r[ID] == TextOrNull(w.id) && r[PATH] == JText(Shown(w.path))
    ensures NAME in json ==> r[NAME] == TextOrNull(w.name)
    ensures ACQUIRED_AT in json ==> r[ACQUIRED_AT] == if w.acquiredAt.Some? then JDate(w.acquiredAt.value)
                                                       else json[ACQUIRED_AT]
    ensures forall k :: k in json && k !in {SLIDE_DATA, ID, PATH, NAME, ACQUIRED_AT} ==> r[k] == json[k]
  {
    var kept := (json - {SLIDE_DATA})[ID := TextOrNull(w.id)][PATH := JText(Shown(w.path))];
    var named := if NAME in kept then kept[NAME := TextOrNull(w.name)] else kept;
    if ACQUIRED_AT in named && w.acquiredAt.Some? then named[ACQUIRED_AT := JDate(w.acquiredAt.value)] else named
  }

  /** create_json for a single slide: rewrites the object in place. */
  method SingleWsiJson(json: JsonObject, slide: WsiState, pseudoFilePath: Option<seq<byte>>, dePseudonym: bool)
    modifies json
    ensures json.entries == OutputEntries(old(json.entries), WrittenFor(slide, pseudoFilePath, dePseudonym))
  {
    if SLIDE_DATA in json.entries {
      json.entries := json.entries - {SLIDE_DATA};
    } else {
      assert json.entries - {SLIDE_DATA} == json.entries;
    }
    var w := WrittenFor(slide, pseudoFilePath, dePseudonym);
    json.entries := json.entries[ID := TextOrNull(w.id)];
    json.entries := json.entries[PATH := JText(Shown(w.path))];
    if NAME in json.entries {
      json.entries := json.entries[NAME := TextOrNull(w.name)];
    }
    if ACQUIRED_AT in json.entries && w.acquiredAt.Some? {
      json.entries := json.entries[ACQUIRED_AT := JDate(w.acquiredAt.value)];
    }
  }

  /**
   * De-pseudonymising a pseudonymised output with the same slide gives what
   * de-pseudonymising the input gives, as long as a slide with a pseudo
   * date also has its original date (otherwise the pseudo date stays).
   */
  lemma DePseudonymiseOutput(json: map<seq<byte>, JsonValue>, slide: WsiState, pseudoFilePath: Option<seq<byte>>)
    requires slide.pseudoAcquiredAt.Some? ==> slide.acquiredAt.Some?
    ensures OutputEntries(OutputEntries(json, WrittenFor(slide, pseudoFilePath, false)), WrittenFor(slide, pseudoFilePath, true))
            == OutputEntries(json, WrittenFor(slide, pseudoFilePath, true))
  {
    var once := OutputEntries(json, WrittenFor(slide, pseudoFilePath, false));
    var a := OutputEntries(once, WrittenFor(slide, pseudoFilePath, true));
    var b := OutputEntries(json, WrittenFor(slide, pseudoFilePath, true));
    assert a.Keys == b.Keys;
    forall k | k in a
      ensures a[k] == b[k]
    {
    }
  }

  /**
   * A slide whose pseudo date is set but whose original date is not keeps
   * the pseudo date in the de-pseudonymised output.
   */
  lemma PseudoDateSurvives(json: map<seq<byte>, JsonValue>, slide: WsiState, pseudoFilePath: Option<seq<byte>>)
    requires ACQUIRED_AT in json
    requires slide.pseudoAcquiredAt.Some? && slide.acquiredAt.None?
    ensures OutputEntries(OutputEntries(json, WrittenFor(slide, pseudoFilePath, false)),
                          WrittenFor(slide, pseudoFilePath, true))[ACQUIRED_AT]
            == JDate(slide.pseudoAcquiredAt.value)
  {
  }
}
