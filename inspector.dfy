/**
 * The row search that `checkAvailability` runs inside the browser through
 * `page.evaluate`: it builds the search keys of a subject, keeps the table rows
 * whose text contains one of them, and turns each kept row into a section record.
 * The document is modelled as the sequence of its `tr` rows, each with just the
 * parts the search looks at.
 */
module Inspector {
  import opened Wrappers
  import opened Text

  /** A subject the user wants, with the section labels they accept. */
  datatype Subject = Subject(name: string, sections: seq<string>)

  /** The `input.seleccion` checkbox of a row. */
  datatype Checkbox = Checkbox(id: string, disabled: bool)

  /** A `tr` of the enrollment table: its text, the text of its `.inscritos`,
      `.cupo` and `label.label` cells when present, and its checkbox when present. */
  datatype Row = Row(
    text: string,
    inscritos: Option<string>,
    cupo: Option<string>,
    labelText: Option<string>,
    checkbox: Option<Checkbox>)

  /** What the search returns for one row; `selectorToClick` is `null` as `None`. */
  datatype SectionData = SectionData(
    nombreSeccion: string,
    inscritos: int,
    cupo: int,
    selectorToClick: Option<string>)

  /** The name a row without a label (or with an empty one) is reported under. */
  const UnknownSection: string := "Sección Desconocida"

  function SearchKey(name: string, section: string): string
  {
    name + " - " + section
  }

  /** `subject.sections.map(section => `${name} - ${section}`)`. */
  function SearchStrings(s: Subject): (keys: seq<string>)
    ensures |keys| == |s.sections|
    ensures forall i :: 0 <= i < |keys| ==> keys[i] == SearchKey(s.name, s.sections[i])
    decreases |s.sections|
  {
    if s.sections == [] then []
    else [SearchKey(s.name, s.sections[0])] + SearchStrings(Subject(s.name, s.sections[1..]))
  }

  /** `searchStrings.some(k => text.toLowerCase().includes(k.toLowerCase()))`. */
  predicate AnyKeyIn(text: string, keys: seq<string>)
  {
    if keys == [] then false
    else Includes(Lower(text), Lower(keys[0])) || AnyKeyIn(text, keys[1..])
  }

  /** `some` finds a key exactly when one of the keys occurs in the lower-cased text. */
  lemma {:induction false} AnyKeyInSpec(text: string, keys: seq<string>)
    ensures AnyKeyIn(text, keys) <==> exists k :: k in keys && Includes(Lower(text), Lower(k))
    decreases |keys|
  {
    if keys != [] {
      AnyKeyInSpec(text, keys[1..]);
      assert keys[0] in keys;
      assert forall k :: k in keys ==> k == keys[0] || k in keys[1..];
      assert forall k :: k in keys[1..] ==> k in keys;
    }
  }

  predicate Matches(row: Row, keys: seq<string>)
  {
    AnyKeyIn(row.text, keys)
  }

  /** `Array.from(rows).filter(keep)`. */
  function Filter(rows: seq<Row>, keep: Row -> bool): (kept: seq<Row>)
    ensures |kept| <= |rows|
  {
    if rows == [] then []
    else (if keep(rows[0]) then [rows[0]] else []) + Filter(rows[1..], keep)
  }

  function MatchesAny(keys: seq<string>): Row -> bool
  {
    (row: Row) => Matches(row, keys)
  }

  /** The rows the search keeps. */
  function FoundRows(rows: seq<Row>, keys: seq<string>): seq<Row>
  {
    Filter(rows, MatchesAny(keys))
  }

  /** The selector the search builds for a clickable row. */
  function CheckmarkSelector(id: string): string
  {
    "#" + id + " + .checkmark"
  }

  /** The `foundRows.map(...)` step for one row. */
  function ToSectionData(row: Row): (d: SectionData)
    ensures d.inscritos == ParseCount(row.inscritos) && d.cupo == ParseCount(row.cupo)
    ensures d.nombreSeccion == if row.labelText.Some? && row.labelText.value != [] then row.labelText.value else UnknownSection
    ensures d.selectorToClick.Some? <==>
              d.inscritos < d.cupo && row.checkbox.Some? && !row.checkbox.value.disabled
    ensures d.selectorToClick.Some? ==> d.selectorToClick.value == CheckmarkSelector(row.checkbox.value.id)
  {
    var inscritos := ParseCount(row.inscritos);
    var cupo := ParseCount(row.cupo);
    var name := match row.labelText
      case Some(t) => if t != [] then t else UnknownSection
      case None => UnknownSection;
    match row.checkbox
    case Some(box) =>
      if inscritos < cupo && !box.disabled then SectionData(name, inscritos, cupo, Some(CheckmarkSelector(box.id)))
      else SectionData(name, inscritos, cupo, None)
    case None => SectionData(name, inscritos, cupo, None)
  }

  function MapToSectionData(rows: seq<Row>): (data: seq<SectionData>)
    ensures |data| == |rows|
  {
    if rows == [] then [] else [ToSectionData(rows[0])] + MapToSectionData(rows[1..])
  }

  /** The whole body of the `page.evaluate` callback. */
  function Inspect(rows: seq<Row>, s: Subject): (found: seq<SectionData>)
    ensures |found| <= |rows|
  {
    MapToSectionData(FoundRows(rows, SearchStrings(s)))
  }

  // ---------------------------------------------------------------------------
  // Properties

  /** The positions, counted from `off`, of the rows a filter keeps. */
  function KeptFrom(rows: seq<Row>, keep: Row -> bool, off: nat): seq<nat>
  {
    if rows == [] then []
    else (if keep(rows[0]) then [off] else []) + KeptFrom(rows[1..], keep, off + 1)
  }

  lemma {:induction false} KeptFromAt(rows: seq<Row>, keep: Row -> bool, off: nat)
    ensures |KeptFrom(rows, keep, off)| == |Filter(rows, keep)|
    ensures forall j :: 0 <= j < |KeptFrom(rows, keep, off)| ==>
      off <= KeptFrom(rows, keep, off)[j] < off + |rows|
      && Filter(rows, keep)[j] == rows[KeptFrom(rows, keep, off)[j] - off]
    decreases |rows|
  {
    if rows != [] {
      KeptFromAt(rows[1..], keep, off + 1);
      var idx := KeptFrom(rows, keep, off);
      var tail := KeptFrom(rows[1..], keep, off + 1);
      var h := if keep(rows[0]) then 1 else 0;
      assert idx == (if keep(rows[0]) then [off] else []) + tail;
      forall j | h <= j < |idx|
        ensures off <= idx[j] < off + |rows| && Filter(rows, keep)[j] == rows[idx[j] - off]
      {
        assert idx[j] == tail[j - h];
        assert rows[1..][tail[j - h] - (off + 1)] == rows[idx[j] - off];
      }
    }
  }

  lemma {:induction false} KeptFromIncreasing(rows: seq<Row>, keep: Row -> bool, off: nat)
    ensures forall j, k :: 0 <= j < k < |KeptFrom(rows, keep, off)| ==>
      KeptFrom(rows, keep, off)[j] < KeptFrom(rows, keep, off)[k]
    ensures forall j :: 0 <= j < |KeptFrom(rows, keep, off)| ==> off <= KeptFrom(rows, keep, off)[j]
    decreases |rows|
  {
    if rows != [] {
      KeptFromIncreasing(rows[1..], keep, off + 1);
    }
  }

  lemma {:induction false} KeptFromMembers(rows: seq<Row>, keep: Row -> bool, off: nat)
    ensures forall i :: 0 <= i < |rows| ==> (keep(rows[i]) <==> off + i in KeptFrom(rows, keep, off))
    decreases |rows|
  {
    if rows != [] {
      KeptFromMembers(rows[1..], keep, off + 1);
      KeptFromIncreasing(rows[1..], keep, off + 1);
      var idx := KeptFrom(rows, keep, off);
      var tail := KeptFrom(rows[1..], keep, off + 1);
      var head: seq<nat> := if keep(rows[0]) then [off] else [];
      assert idx == head + tail;
      assert off !in tail;
      assert forall x :: x in idx <==> x in head || x in tail;
      forall i | 0 < i < |rows| ensures keep(rows[i]) <==> off + i in idx {
        assert rows[1..][i - 1] == rows[i];
        assert keep(rows[1..][i - 1]) <==> (off + 1) + (i - 1) in tail;
      }
    }
  }

  /** A filter keeps exactly the rows it accepts, in order: `idx` lists the
      positions of the kept rows, strictly increasing. */
  lemma FilterInOrder(rows: seq<Row>, keep: Row -> bool) returns (idx: seq<nat>)
    ensures |idx| == |Filter(rows, keep)|
    ensures forall j :: 0 <= j < |idx| ==> idx[j] < |rows| && Filter(rows, keep)[j] == rows[idx[j]]
    ensures forall j, k :: 0 <= j < k < |idx| ==> idx[j] < idx[k]
    ensures forall i :: 0 <= i < |rows| ==> (keep(rows[i]) <==> i in idx)
  {
    idx := KeptFrom(rows, keep, 0);
    KeptFromAt(rows, keep, 0);
    KeptFromIncreasing(rows, keep, 0);
    KeptFromMembers(rows, keep, 0);
  }

  /** The rows kept are exactly the matching ones, in document order. */
  lemma FoundRowsInOrder(rows: seq<Row>, keys: seq<string>) returns (idx: seq<nat>)
    ensures |idx| == |FoundRows(rows, keys)|
    ensures forall j :: 0 <= j < |idx| ==> idx[j] < |rows| && FoundRows(rows, keys)[j] == rows[idx[j]]
    ensures forall j, k :: 0 <= j < k < |idx| ==> idx[j] < idx[k]
    ensures forall i :: 0 <= i < |rows| ==> (Matches(rows[i], keys) <==> i in idx)
  {
    idx := FilterInOrder(rows, MatchesAny(keys));
  }

  lemma {:induction false} MapToSectionDataAt(rows: seq<Row>)
    ensures |MapToSectionData(rows)| == |rows|
    ensures forall j :: 0 <= j < |rows| ==> MapToSectionData(rows)[j] == ToSectionData(rows[j])
    decreases |rows|
  {
    if rows != [] {
      MapToSectionDataAt(rows[1..]);
    }
  }

  /** The row's lower-cased text contains `name - sec`, lower-cased, for some accepted section. */
  ghost predicate MentionsSubject(row: Row, s: Subject)
  {
    exists sec :: sec in s.sections && Includes(Lower(row.text), Lower(SearchKey(s.name, sec)))
  }

  lemma MatchesIffMentions(row: Row, s: Subject)
    ensures Matches(row, SearchStrings(s)) <==> MentionsSubject(row, s)
  {
    var keys := SearchStrings(s);
    AnyKeyInSpec(row.text, keys);
    if Matches(row, keys) {
      var k :| k in keys && Includes(Lower(row.text), Lower(k));
      var j :| 0 <= j < |keys| && keys[j] == k;
      assert s.sections[j] in s.sections;
    }
    if MentionsSubject(row, s) {
      var sec :| sec in s.sections && Includes(Lower(row.text), Lower(SearchKey(s.name, sec)));
      var j :| 0 <= j < |s.sections| && s.sections[j] == sec;
      assert keys[j] in keys;
    }
  }

  /** What `page.evaluate` returns: one record per row that mentions the subject
      under one of its accepted sections, in document order. */
  lemma InspectSpec(rows: seq<Row>, s: Subject) returns (idx: seq<nat>)
    ensures |idx| == |Inspect(rows, s)|
    ensures forall j :: 0 <= j < |idx| ==> idx[j] < |rows| && Inspect(rows, s)[j] == ToSectionData(rows[idx[j]])
    ensures forall j, k :: 0 <= j < k < |idx| ==> idx[j] < idx[k]
    ensures forall i :: 0 <= i < |rows| ==> (MentionsSubject(rows[i], s) <==> i in idx)
  {
    var keys := SearchStrings(s);
    idx := FoundRowsInOrder(rows, keys);
    MapToSectionDataAt(FoundRows(rows, keys));
    forall i | 0 <= i < |rows| ensures Matches(rows[i], keys) <==> MentionsSubject(rows[i], s) {
      MatchesIffMentions(rows[i], s);
    }
  }

  /** A row whose capacity cell is missing counts as capacity 0 and so, unless its
      enrolled count is negative, as full: it is never offered for a click. */
  lemma MissingCapacityIsFull(row: Row)
    requires row.cupo.None?
    requires ParseCount(row.inscritos) >= 0
    ensures ToSectionData(row).selectorToClick.None?
    ensures !(ToSectionData(row).inscritos < ToSectionData(row).cupo)
  {
  }
}
