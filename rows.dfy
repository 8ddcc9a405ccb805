/**
  The per-row part of process_csv: a record read from the input file is a
  map from column name to text, the cleaned record is built from five of
  its columns, and the writer lays the cleaned record out along the
  header's column names.
 */
module Rows {
  import opened Wrappers
  import opened Text
  import opened Normalizers
  import opened Dates

  /** A record as the reader delivers it: column name to cell text. */
  type Row = map<string, string>

  const NAME: string := "name"
  const EMAIL: string := "email"
  const AGE: string := "age"
  const COUNTRY: string := "country"
  const SIGNUP_DATE: string := "signup_date"

  /** The cleaned record's keys, in the order `process_csv` looks them up. */
  const COLUMNS: seq<string> := [NAME, EMAIL, AGE, COUNTRY, SIGNUP_DATE]

  /** Building the cleaned record either succeeds or raises `KeyError` for
      the first column it looks up that the record lacks. */
  datatype Outcome = Cleaned(row: Row) | KeyError(column: string)

  /** The first of `cols` that `row` lacks, if any. */
  function FirstMissing(row: Row, cols: seq<string>): (r: Option<string>)
    ensures r.None? <==> forall i :: 0 <= i < |cols| ==> cols[i] in row
    ensures r.Some? ==>
              exists i :: 0 <= i < |cols| && cols[i] == r.value && cols[i] !in row
                          && forall j :: 0 <= j < i ==> cols[j] in row
  {
    if cols == [] then None
    else if cols[0] !in row then Some(cols[0])
    else
      var r := FirstMissing(row, cols[1..]);
      assert forall i :: 1 <= i < |cols| ==> cols[i] == cols[1..][i - 1];
      if r.Some? then
        var i :| 0 <= i < |cols[1..]| && cols[1..][i] == r.value && cols[1..][i] !in row
                 && forall j :: 0 <= j < i ==> cols[1..][j] in row;
        assert cols[i + 1] == r.value;
        r
      else r
  }

  /** The record has every column the cleaner looks up. */
  predicate HasColumns(row: Row) {
    NAME in row && EMAIL in row && AGE in row && COUNTRY in row && SIGNUP_DATE in row
  }

  /** The cleaned record of `row`: the columns are looked up in turn, so
      the first absent one decides the error, and each value is cleaned by
      its own normalizer; `country` is only trimmed. */
  function CleanRow(row: Row): (r: Outcome)
    ensures r.Cleaned? <==> HasColumns(row)
    ensures r.KeyError? ==> r.column !in row
    ensures r.Cleaned? ==> r.row.Keys == {NAME, EMAIL, AGE, COUNTRY, SIGNUP_DATE}
  {
    assert COLUMNS[0] == NAME && COLUMNS[1] == EMAIL && COLUMNS[2] == AGE
           && COLUMNS[3] == COUNTRY && COLUMNS[4] == SIGNUP_DATE;
    match FirstMissing(row, COLUMNS)
    case Some(c) => KeyError(c)
    case None =>
      Cleaned(map[
        NAME := CleanName(row[NAME]),
        EMAIL := CleanEmail(row[EMAIL]),
        AGE := CleanAge(row[AGE]),
        COUNTRY := Strip(row[COUNTRY]),
        SIGNUP_DATE := NormalizeDate(row[SIGNUP_DATE])])
  }

  /** Cleaning succeeds exactly when all five columns are present, and a
      failure names the first absent column in lookup order. */
  lemma CleanRowOutcome(row: Row)
    ensures CleanRow(row).Cleaned? <==> forall i :: 0 <= i < |COLUMNS| ==> COLUMNS[i] in row
    ensures CleanRow(row).KeyError? ==>
              exists i :: 0 <= i < |COLUMNS| && COLUMNS[i] == CleanRow(row).column && COLUMNS[i] !in row
                          && forall j :: 0 <= j < i ==> COLUMNS[j] in row
  {
    assert COLUMNS[0] == NAME && COLUMNS[1] == EMAIL && COLUMNS[2] == AGE
           && COLUMNS[3] == COUNTRY && COLUMNS[4] == SIGNUP_DATE;
    assert CleanRow(row).KeyError? ==> FirstMissing(row, COLUMNS) == Some(CleanRow(row).column);
  }

  /** Each of the five columns of a cleaned record holds the cleaned form
      of the input's cell. */
  lemma CleanRowValues(row: Row)
    requires CleanRow(row).Cleaned?
    ensures CleanRow(row).row[NAME] == CleanName(row[NAME])
    ensures CleanRow(row).row[EMAIL] == CleanEmail(row[EMAIL])
    ensures CleanRow(row).row[AGE] == CleanAge(row[AGE])
    ensures CleanRow(row).row[COUNTRY] == Strip(row[COUNTRY])
    ensures CleanRow(row).row[SIGNUP_DATE] == NormalizeDate(row[SIGNUP_DATE])
  {
    var n, e, a := CleanName(row[NAME]), CleanEmail(row[EMAIL]), CleanAge(row[AGE]);
    var c, d := Strip(row[COUNTRY]), NormalizeDate(row[SIGNUP_DATE]);
    assert CleanRow(row).row == map[NAME := n, EMAIL := e, AGE := a, COUNTRY := c, SIGNUP_DATE := d];
  }

  /** Every cell of a cleaned record is in its cleaned shape: a
      single-spaced name, a lower-case trimmed address, an age that is
      empty or all digits, a trimmed country and a date that is empty or
      an ISO date. */
  lemma CleanRowShape(row: Row)
    requires CleanRow(row).Cleaned?
    ensures SingleSpaced(CleanRow(row).row[NAME])
    ensures HasNoUpper(CleanRow(row).row[EMAIL]) && NoEdgeSpace(CleanRow(row).row[EMAIL])
    ensures CleanRow(row).row[AGE] == "" || IsDigits(CleanRow(row).row[AGE])
    ensures NoEdgeSpace(CleanRow(row).row[COUNTRY])
    ensures CleanRow(row).row[SIGNUP_DATE] == "" || IsIsoDate(CleanRow(row).row[SIGNUP_DATE])
  {
    CleanRowValues(row);
    CleanNameProperties(row[NAME]);
    var e := CleanEmail(row[EMAIL]);
    StripProperties(row[COUNTRY]);
    NormalizeDateShape(row[SIGNUP_DATE]);
  }

  /** A cleaned record is clean: cleaning it again gives it back. */
  lemma CleanRowIdempotent(row: Row)
    requires CleanRow(row).Cleaned?
    ensures CleanRow(CleanRow(row).row) == CleanRow(row)
  {
    var r := CleanRow(row).row;
    CleanRowValues(row);
    assert CleanRow(r).Cleaned?;
    CleanRowValues(r);
    CleanNameIdempotent(row[NAME]);
    CleanEmailIdempotent(row[EMAIL]);
    CleanAgeIdempotent(row[AGE]);
    StripIdempotent(row[COUNTRY]);
    NormalizeDateIdempotent(row[SIGNUP_DATE]);
  }

  // ----------------------------------------------------------- writing

  /** Why a record could not be written. */
  datatype Failure =
    | MissingKey(column: string)        // `KeyError` while building it
    | ExtraFields(fields: set<string>)  // `ValueError` from the writer

  /** A record's fate: a line of cell values, or the exception raised. */
  datatype Written = Line(values: seq<string>) | Failed(failure: Failure)

  /** The writer's layout of `cleaned` along `fieldnames`, with "" for a
      column the record lacks; keys outside the header are refused. */
  function WriteRecord(fieldnames: seq<string>, cleaned: Row): (r: Written)
    ensures r.Line? ==> |r.values| == |fieldnames| && forall k :: k in cleaned ==> k in fieldnames
    ensures r.Failed? ==> r.failure.ExtraFields? && r.failure.fields != {}
                          && forall k :: k in r.failure.fields <==> k in cleaned && k !in fieldnames
  {
    var extra := set k | k in cleaned && k !in fieldnames;
    if extra != {} then Failed(ExtraFields(extra))
    else
      assert forall k | k in cleaned :: k in fieldnames || k in extra;
      Line(seq(|fieldnames|, i requires 0 <= i < |fieldnames| =>
                if fieldnames[i] in cleaned then cleaned[fieldnames[i]] else ""))
  }

  /** One pass of the loop body: clean the record, then write it. */
  function ProcessRow(fieldnames: seq<string>, row: Row): (r: Written)
    ensures r.Line? ==> CleanRow(row).Cleaned? && |r.values| == |fieldnames|
  {
    match CleanRow(row)
    case KeyError(c) => Failed(MissingKey(c))
    case Cleaned(r) => WriteRecord(fieldnames, r)
  }

  /** The writer on a record with exactly the five cleaned columns: it
      writes a line exactly when the header names all five, and refuses
      the record with the five columns the header lacks otherwise. */
  lemma WriteCleanedRecord(fieldnames: seq<string>, r: Row)
    requires r.Keys == {NAME, EMAIL, AGE, COUNTRY, SIGNUP_DATE}
    ensures WriteRecord(fieldnames, r).Line? <==>
              forall i :: 0 <= i < |COLUMNS| ==> COLUMNS[i] in fieldnames
    ensures WriteRecord(fieldnames, r).Failed? ==>
              WriteRecord(fieldnames, r).failure.fields
                == set i | 0 <= i < |COLUMNS| && COLUMNS[i] !in fieldnames :: COLUMNS[i]
    ensures WriteRecord(fieldnames, r).Line? ==>
              forall i :: 0 <= i < |fieldnames| ==>
                WriteRecord(fieldnames, r).values[i] == if fieldnames[i] in r then r[fieldnames[i]] else ""
  {
    var extra := set k | k in r && k !in fieldnames;
    assert extra == set i | 0 <= i < |COLUMNS| && COLUMNS[i] !in fieldnames :: COLUMNS[i] by {
      forall k | k in extra
        ensures k in set i | 0 <= i < |COLUMNS| && COLUMNS[i] !in fieldnames :: COLUMNS[i]
      {
        if k == NAME { assert COLUMNS[0] == k; }
        else if k == EMAIL { assert COLUMNS[1] == k; }
        else if k == AGE { assert COLUMNS[2] == k; }
        else if k == COUNTRY { assert COLUMNS[3] == k; }
        else { assert COLUMNS[4] == k; }
      }
    }
    if forall i :: 0 <= i < |COLUMNS| ==> COLUMNS[i] in fieldnames {
      assert extra == {};
    } else {
      var i :| 0 <= i < |COLUMNS| && COLUMNS[i] !in fieldnames;
      assert COLUMNS[i] in extra;
    }
  }

  /** A record is written exactly when it has the five columns and the
      header names all five; the line has one cell per header column,
      the cleaned value under each of the five and "" under the rest. */
  lemma ProcessRowOutcome(fieldnames: seq<string>, row: Row)
    ensures ProcessRow(fieldnames, row).Line? <==>
              forall i :: 0 <= i < |COLUMNS| ==> COLUMNS[i] in row && COLUMNS[i] in fieldnames
    ensures ProcessRow(fieldnames, row).Failed? && ProcessRow(fieldnames, row).failure.MissingKey? <==>
              CleanRow(row).KeyError?
    ensures CleanRow(row).KeyError? ==>
              ProcessRow(fieldnames, row) == Failed(MissingKey(CleanRow(row).column))
    ensures ProcessRow(fieldnames, row).Failed? && ProcessRow(fieldnames, row).failure.ExtraFields? ==>
              ProcessRow(fieldnames, row).failure.fields
                == set i | 0 <= i < |COLUMNS| && COLUMNS[i] !in fieldnames :: COLUMNS[i]
    ensures ProcessRow(fieldnames, row).Line? ==>
              var r := CleanRow(row).row;
              var values := ProcessRow(fieldnames, row).values;
              && |values| == |fieldnames|
              && forall i :: 0 <= i < |fieldnames| ==>
                   values[i] == if fieldnames[i] in r then r[fieldnames[i]] else ""
  {
    CleanRowOutcome(row);
    if CleanRow(row).Cleaned? {
      WriteCleanedRecord(fieldnames, CleanRow(row).row);
    }
  }

  /** The writer along `COLUMNS` lays a five-column record out in
      lookup order. */
  lemma WriteColumns(r: Row)
    requires r.Keys == {NAME, EMAIL, AGE, COUNTRY, SIGNUP_DATE}
    ensures WriteRecord(COLUMNS, r) == Line([r[NAME], r[EMAIL], r[AGE], r[COUNTRY], r[SIGNUP_DATE]])
  {
    assert COLUMNS[0] == NAME && COLUMNS[1] == EMAIL && COLUMNS[2] == AGE
           && COLUMNS[3] == COUNTRY && COLUMNS[4] == SIGNUP_DATE;
    WriteCleanedRecord(COLUMNS, r);
    var v := WriteRecord(COLUMNS, r).values;
    assert |v| == 5;
    assert v[0] == r[NAME] && v[1] == r[EMAIL] && v[2] == r[AGE] && v[3] == r[COUNTRY] && v[4] == r[SIGNUP_DATE];
  }

  /** Under a header that is exactly the five cleaned columns, in lookup
      order, a complete record is written as its five cleaned values in
      that order. */
  lemma ProcessRowColumns(row: Row)
    requires HasColumns(row)
    ensures ProcessRow(COLUMNS, row) == Line([CleanName(row[NAME]), CleanEmail(row[EMAIL]),
                                              CleanAge(row[AGE]), Strip(row[COUNTRY]),
                                              NormalizeDate(row[SIGNUP_DATE])])
  {
    var r := CleanRow(row).row;
    assert ProcessRow(COLUMNS, row) == WriteRecord(COLUMNS, r);
    CleanRowValues(row);
    WriteColumns(r);
  }

  /** The loop of process_csv over the records in file order: the header
      line first, then one line per record, stopping at the first record
      whose cleaning or writing raises. */
  method ProcessRows(fieldnames: seq<string>, rows: seq<Row>) returns (out: seq<seq<string>>, error: Option<Failure>)
    ensures 1 <= |out| <= |rows| + 1 && out[0] == fieldnames
    ensures forall i :: 0 <= i < |out| - 1 ==> ProcessRow(fieldnames, rows[i]) == Line(out[i + 1])
    ensures error.None? ==> |out| == |rows| + 1
    ensures error.Some? ==> |out| <= |rows| && ProcessRow(fieldnames, rows[|out| - 1]) == Failed(error.value)
  {
    out := [fieldnames];
    error := None;
    for n := 0 to |rows|
      invariant |out| == n + 1 && out[0] == fieldnames
      invariant forall i :: 0 <= i < n ==> ProcessRow(fieldnames, rows[i]) == Line(out[i + 1])
    {
      var written := ProcessRow(fieldnames, rows[n]);
      if written.Failed? {
        error := Some(written.failure);
        return;
      }
      out := out + [written.values];
    }
  }
}
