/** Turning SPARQL JSON results into matching-service records, for linking
    against a SPARQL endpoint instead of the matching service (`_get_value`
    and `map_results` in arpa_linker/arpa.py). */
module SparqlMapping {
  import opened Wrappers
  import opened Text
  import opened Candidates
  import opened Dates

  /** One variable binding of a result row: its `type`, `value` and
      `datatype` keys, each of which may be absent. */
  datatype Term = Term(kind: Option<String>, value: Option<String>, dt: Option<String>)

  /** A result row: variable name to binding. */
  type Row = map<String, Term>

  /** `_get_value`: a literal is written in double quotes, followed by
      `^^` and its datatype when it has a non-empty one; a URI is written in
      angle brackets; anything else is its bare value. A missing value is
      the empty string. */
  function GetValue(t: Term): (r: String)
    ensures var v := t.value.GetOr("");
            t.kind == Some("uri") ==> |r| == |v| + 2 && r[0] == '<' && r[|r| - 1] == '>' && r[1..|r| - 1] == v
    ensures var v := t.value.GetOr("");
            t.kind == Some("literal") ==> |r| >= |v| + 2 && r[0] == '"' && r[1..|v| + 1] == v && r[|v| + 1] == '"'
    ensures var v := t.value.GetOr("");
            t.kind == Some("literal") ==> (|r| == |v| + 2 <==> t.dt.None? || t.dt.value == "")
    ensures var v := t.value.GetOr("");
            t.kind == Some("literal") && t.dt.Some? && t.dt.value != "" ==> r[|v| + 2..] == "^^" + t.dt.value
    ensures t.kind != Some("literal") && t.kind != Some("uri") ==> r == t.value.GetOr("")
  {
    var v := t.value.GetOr("");
    if t.kind == Some("literal") then
      if t.dt.Some? && t.dt.value != "" then "\"" + v + "\"^^" + t.dt.value
      else "\"" + v + "\""
    else if t.kind == Some("uri") then "<" + v + ">"
    else v
  }

  /** A date literal, typed or not, renders to a string the person
      validators' date parser reads back as the same date. */
  lemma DateLiteralParses(y: int, m: int, d: int, dt: Option<String>)
    requires ValidDate(y, m, d)
    requires dt.Some? ==> '"' !in dt.value
    ensures ParseDate(GetValue(Term(Some("literal"), Some(IsoFormat(y, m, d)), dt))) == Some(Ordinal(y, m, d))
  {
    var iso := IsoFormat(y, m, d);
    if dt.Some? && dt.value != "" {
      ParseTypedLiteral(y, m, d, dt.value);
    } else {
      ParseQuotedIso(y, m, d);
    }
  }

  // ---------------------------------------------------------------------
  // map_results
  // ---------------------------------------------------------------------

  /** Every row binds `id` to a term with a value; the loop indexes it
      directly. */
  predicate HasIds(rows: seq<Row>) {
    forall i :: 0 <= i < |rows| ==> HasId(rows[i])
  }

  predicate HasId(row: Row) {
    "id" in row && row["id"].value.Some?
  }

  function RowId(row: Row): String
    requires HasId(row)
  {
    row["id"].value.value
  }

  /** The value a row binds to `key`, or the empty string when the key or
      its value is missing. */
  function Field(row: Row, key: String): String {
    if key in row then row[key].value.GetOr("") else ""
  }

  /** The first index of a record with the given id. */
  function IndexOfId(res: seq<Candidate>, id: String): (r: Option<nat>)
    ensures r.Some? ==> r.value < |res| && res[r.value].id == id
                        && forall j :: 0 <= j < r.value ==> res[j].id != id
    ensures r.None? ==> forall j :: 0 <= j < |res| ==> res[j].id != id
    decreases |res|
  {
    if |res| == 0 then None
    else if res[0].id == id then Some(0)
    else
      match IndexOfId(res[1..], id)
      case None => None
      case Some(k) => Some(k + 1)
  }

  /** The record a row starts: its id, label, n-gram, and each binding
      rendered as a one-element list. */
  function NewRecord(row: Row): Candidate
    requires HasId(row)
  {
    Candidate(RowId(row), Field(row, "label"), [Field(row, "ngram")],
              map k | k in row :: [GetValue(row[k])])
  }

  /** A later row of the same id: its n-gram is added when new, and each
      binding is appended to the list of its name. */
  function MergeRow(o: Candidate, row: Row): Candidate {
    var ngram := Field(row, "ngram");
    o.(matches := if ngram in o.matches then o.matches else o.matches + [ngram],
       properties := map k | k in o.properties.Keys + row.Keys ::
                       (if k in o.properties then o.properties[k] else [])
                       + (if k in row then [GetValue(row[k])] else []))
  }

  function AddRow(res: seq<Candidate>, row: Row): seq<Candidate>
    requires HasId(row)
  {
    match IndexOfId(res, RowId(row))
    case None => res + [NewRecord(row)]
    case Some(i) => res[i := MergeRow(res[i], row)]
  }

  /** The loop of `map_results` over the rows seen so far. */
  function MapResults(rows: seq<Row>): (r: seq<Candidate>)
    requires HasIds(rows)
    ensures |r| == |Distinct(RowIds(rows))|
    ensures forall i :: 0 <= i < |r| ==> r[i].id == Distinct(RowIds(rows))[i]
    ensures forall i :: 0 <= i < |r| ==> |RowsWith(rows, r[i].id)| > 0 && r[i] == RecordFor(rows, r[i].id)
  {
    MapResultsIsRecords(rows);
    MapRows(rows)
  }

  function MapRows(rows: seq<Row>): seq<Candidate>
    requires HasIds(rows)
  {
    if |rows| == 0 then []
    else AddRow(MapRows(rows[..|rows| - 1]), rows[|rows| - 1])
  }

  // ---------------------------------------------------------------------
  // Reference: the record of an id, read off all of its rows at once.
  // ---------------------------------------------------------------------

  function RowIds(rows: seq<Row>): seq<String>
    requires HasIds(rows)
  {
    if |rows| == 0 then [] else RowIds(rows[..|rows| - 1]) + [RowId(rows[|rows| - 1])]
  }

  /** The rows with the given id, in order. */
  function RowsWith(rows: seq<Row>, id: String): seq<Row>
    requires HasIds(rows)
  {
    if |rows| == 0 then []
    else RowsWith(rows[..|rows| - 1], id) + (if RowId(rows[|rows| - 1]) == id then [rows[|rows| - 1]] else [])
  }

  function Ngrams(rs: seq<Row>): seq<String> {
    if |rs| == 0 then [] else Ngrams(rs[..|rs| - 1]) + [Field(rs[|rs| - 1], "ngram")]
  }

  function KeysOf(rs: seq<Row>): set<String> {
    if |rs| == 0 then {} else KeysOf(rs[..|rs| - 1]) + rs[|rs| - 1].Keys
  }

  /** One rendered value per row that binds `key`, in row order. */
  function ValuesFor(rs: seq<Row>, key: String): seq<String> {
    if |rs| == 0 then []
    else ValuesFor(rs[..|rs| - 1], key) + (if key in rs[|rs| - 1] then [GetValue(rs[|rs| - 1][key])] else [])
  }

  /** The record `map_results` promises for an id: the label of its first
      row, its distinct n-grams in order, and for each variable the values
      of all its rows that bind it. */
  function RecordFor(rows: seq<Row>, id: String): Candidate
    requires HasIds(rows) && |RowsWith(rows, id)| > 0
  {
    var rs := RowsWith(rows, id);
    Candidate(id, Field(rs[0], "label"), Distinct(Ngrams(rs)),
              map k | k in KeysOf(rs) :: ValuesFor(rs, k))
  }

  lemma {:induction false} RowsWithEmpty(rows: seq<Row>, id: String)
    requires HasIds(rows)
    ensures |RowsWith(rows, id)| > 0 <==> id in RowIds(rows)
    decreases |rows|
  {
    if |rows| > 0 {
      RowsWithEmpty(rows[..|rows| - 1], id);
    }
  }

  lemma {:induction false} ValuesForMissing(rs: seq<Row>, key: String)
    requires key !in KeysOf(rs)
    ensures ValuesFor(rs, key) == []
    decreases |rs|
  {
    if |rs| > 0 {
      ValuesForMissing(rs[..|rs| - 1], key);
    }
  }

  /** The reference record of a lone row is the record the loop starts. */
  lemma SingleRowProperties(row: Row)
    ensures Distinct(Ngrams([row])) == [Field(row, "ngram")]
    ensures (map k | k in KeysOf([row]) :: ValuesFor([row], k)) == map k | k in row :: [GetValue(row[k])]
  {
    SingleRowNgrams(row);
    SingleRowKeys(row);
    var m1 := map k | k in KeysOf([row]) :: ValuesFor([row], k);
    var m2 := map k | k in row :: [GetValue(row[k])];
    forall k | k in row.Keys ensures m1[k] == m2[k] {
      SingleRowValues(row, k);
    }
    assert m1 == m2;
  }

  lemma SingleRowNgrams(row: Row)
    ensures Ngrams([row]) == [Field(row, "ngram")]
  {
    assert [row][..0] == [];
  }

  lemma SingleRowKeys(row: Row)
    ensures KeysOf([row]) == row.Keys
  {
    assert [row][..0] == [];
  }

  lemma SingleRowValues(row: Row, k: String)
    requires k in row
    ensures ValuesFor([row], k) == [GetValue(row[k])]
  {
    assert [row][..0] == [];
  }

  /** Adding a row with a new id appends its record. */
  lemma RecordOfNewId(rows: seq<Row>, row: Row)
    requires HasIds(rows) && HasId(row)
    requires RowId(row) !in RowIds(rows)
    ensures HasIds(rows + [row])
    ensures |RowsWith(rows + [row], RowId(row))| > 0
    ensures RecordFor(rows + [row], RowId(row)) == NewRecord(row)
  {
    var id := RowId(row);
    var rows' := rows + [row];
    assert HasIds(rows');
    assert rows'[..|rows'| - 1] == rows;
    RowsWithEmpty(rows, id);
    assert RowsWith(rows', id) == [row];
    SingleRowProperties(row);
  }

  /** Adding a row with a known id merges it into that id's record. */
  lemma RecordOfKnownId(rows: seq<Row>, row: Row, o: Candidate)
    requires HasIds(rows) && HasId(row)
    requires |RowsWith(rows, RowId(row))| > 0 && o == RecordFor(rows, RowId(row))
    ensures HasIds(rows + [row])
    ensures |RowsWith(rows + [row], RowId(row))| > 0
    ensures RecordFor(rows + [row], RowId(row)) == MergeRow(o, row)
  {
    var id := RowId(row);
    var rows' := rows + [row];
    assert HasIds(rows');
    assert rows'[..|rows'| - 1] == rows;
    var rs := RowsWith(rows, id);
    var rs' := RowsWith(rows', id);
    assert rs' == rs + [row];
    assert rs'[0] == rs[0];
    NgramsSnoc(rs, row);
    var merged := MergeRow(o, row);
    var m' := map k | k in KeysOf(rs') :: ValuesFor(rs', k);
    KeysOfSnoc(rs, row);
    forall k | k in KeysOf(rs') ensures m'[k] == merged.properties[k] {
      ValuesForSnoc(rs, row, k);
    }
    assert m' == merged.properties;
  }

  /** A further row adds its n-gram to the distinct n-grams when new. */
  lemma NgramsSnoc(rs: seq<Row>, row: Row)
    ensures var ng := Field(row, "ngram");
            Distinct(Ngrams(rs + [row])) ==
              if ng in Distinct(Ngrams(rs)) then Distinct(Ngrams(rs)) else Distinct(Ngrams(rs)) + [ng]
  {
    var rs' := rs + [row];
    assert rs'[..|rs'| - 1] == rs;
    var ngrams' := Ngrams(rs');
    assert ngrams' == Ngrams(rs) + [Field(row, "ngram")];
    assert ngrams'[..|ngrams'| - 1] == Ngrams(rs);
  }

  lemma KeysOfSnoc(rs: seq<Row>, row: Row)
    ensures KeysOf(rs + [row]) == KeysOf(rs) + row.Keys
  {
    assert (rs + [row])[..|rs|] == rs;
  }

  /** A further row appends its rendering of the key, if it binds it. */
  lemma ValuesForSnoc(rs: seq<Row>, row: Row, k: String)
    ensures ValuesFor(rs + [row], k) ==
              (if k in KeysOf(rs) then ValuesFor(rs, k) else []) + (if k in row then [GetValue(row[k])] else [])
  {
    assert (rs + [row])[..|rs|] == rs;
    if k !in KeysOf(rs) {
      ValuesForMissing(rs, k);
    }
  }

  /** Other ids' records are untouched by a row. */
  lemma RecordOfOtherId(rows: seq<Row>, row: Row, id: String)
    requires HasIds(rows) && HasId(row)
    requires id != RowId(row) && |RowsWith(rows, id)| > 0
    ensures HasIds(rows + [row])
    ensures RowsWith(rows + [row], id) == RowsWith(rows, id)
  {
    assert HasIds(rows + [row]);
    assert (rows + [row])[..|rows|] == rows;
  }

  /** `res` holds the reference records of `rows`, one per distinct id in
      order of first appearance. */
  ghost predicate RecordsOf(rows: seq<Row>, res: seq<Candidate>)
    requires HasIds(rows)
  {
    && |res| == |Distinct(RowIds(rows))|
    && forall i :: 0 <= i < |res| ==>
         res[i].id == Distinct(RowIds(rows))[i]
         && |RowsWith(rows, res[i].id)| > 0
         && res[i] == RecordFor(rows, res[i].id)
  }

  /** A row with a new id appends its record and leaves the others. */
  lemma AddNewRow(init: seq<Row>, row: Row, res: seq<Candidate>)
    requires HasIds(init) && HasId(row) && RecordsOf(init, res)
    requires IndexOfId(res, RowId(row)).None?
    ensures HasIds(init + [row])
    ensures RecordsOf(init + [row], res + [NewRecord(row)])
  {
    var rows, id := init + [row], RowId(row);
    var d, ids := Distinct(RowIds(init)), RowIds(rows);
    assert rows[..|rows| - 1] == init;
    assert ids[..|ids| - 1] == RowIds(init);
    assert id !in d;
    assert Distinct(ids) == d + [id];
    RowsWithEmpty(init, id);
    RecordOfNewId(init, row);
    forall i | 0 <= i < |res| ensures RowsWith(rows, res[i].id) == RowsWith(init, res[i].id) {
      RecordOfOtherId(init, row, res[i].id);
    }
  }

  /** A row with a known id merges into that id's record and leaves the
      others. */
  lemma AddKnownRow(init: seq<Row>, row: Row, res: seq<Candidate>, k: nat)
    requires HasIds(init) && HasId(row) && RecordsOf(init, res)
    requires IndexOfId(res, RowId(row)) == Some(k)
    ensures HasIds(init + [row])
    ensures RecordsOf(init + [row], res[k := MergeRow(res[k], row)])
  {
    var rows, id := init + [row], RowId(row);
    var d, ids := Distinct(RowIds(init)), RowIds(rows);
    assert rows[..|rows| - 1] == init;
    assert ids[..|ids| - 1] == RowIds(init);
    assert d[k] == id;
    assert Distinct(ids) == d;
    var res' := res[k := MergeRow(res[k], row)];
    forall i | 0 <= i < |res'|
      ensures res'[i].id == d[i] && |RowsWith(rows, res'[i].id)| > 0 && res'[i] == RecordFor(rows, res'[i].id)
    {
      if i == k {
        RecordOfKnownId(init, row, res[k]);
      } else {
        assert d[i] != d[k];
        RecordOfOtherId(init, row, res[i].id);
      }
    }
  }

  /** The loop builds exactly the reference records, one per distinct id in
      order of first appearance. */
  lemma {:induction false} MapResultsIsRecords(rows: seq<Row>)
    requires HasIds(rows)
    ensures |MapRows(rows)| == |Distinct(RowIds(rows))|
    ensures forall i :: 0 <= i < |MapRows(rows)| ==>
              MapRows(rows)[i].id == Distinct(RowIds(rows))[i]
              && |RowsWith(rows, MapRows(rows)[i].id)| > 0
              && MapRows(rows)[i] == RecordFor(rows, MapRows(rows)[i].id)
    decreases |rows|
  {
    if |rows| > 0 {
      var init, row := rows[..|rows| - 1], rows[|rows| - 1];
      assert rows == init + [row];
      MapResultsIsRecords(init);
      var res := MapRows(init);
      match IndexOfId(res, RowId(row))
      case None => AddNewRow(init, row, res);
      case Some(k) => AddKnownRow(init, row, res, k);
    }
  }
}
