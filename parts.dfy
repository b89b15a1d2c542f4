/** The parts stage: a header of `name`, `type` and `dnasequence`, each at most once and in any
    order; one `parts` record per data row. */
module PartsStage {
  import opened Ucf
  import opened Tables

  const NAME := "name"
  const TYPE := "type"
  const DNA_SEQUENCE := "dnasequence"

  const PART_NAMES: set<string> := {NAME, TYPE, DNA_SEQUENCE}

  // ---------------------------------------------------------------------------
  // Header
  // ---------------------------------------------------------------------------

  /** What the header scan records: the column of each of the three names, once seen. */
  datatype PartHeader = PartHeader(name: Option<nat>, partType: Option<nat>, dnaSequence: Option<nat>)

  /** The state of the header scan: the names it still expects, and what it has recorded. */
  datatype PartScan = PartScan(expected: set<string>, keys: PartHeader)

  const INITIAL_PART_SCAN := PartScan(PART_NAMES, PartHeader(None, None, None))

  /** One step of the header loop: column `i` holds `key`. Each name is accepted once. */
  function PartHeaderStep(file: string, s: PartScan, i: nat, key: string): (r: Result<PartScan>)
    requires s.expected <= PART_NAMES
    ensures r.Ok? ==> r.value.expected <= PART_NAMES
    ensures r.Err? <==> key !in s.expected
    ensures r.Err? ==> r.error == UnexpectedHeaderKey(file, i)
  {
    if key !in s.expected then Err(UnexpectedHeaderKey(file, i))
    else if key == NAME then Ok(PartScan(s.expected - {NAME}, s.keys.(name := Some(i))))
    else if key == TYPE then Ok(PartScan(s.expected - {TYPE}, s.keys.(partType := Some(i))))
    else Ok(PartScan(s.expected - {DNA_SEQUENCE}, s.keys.(dnaSequence := Some(i))))
  }

  /** The scan after the first `n` columns of `h`. */
  function PartHeaderScan(file: string, h: seq<string>, n: nat): (r: Result<PartScan>)
    requires n <= |h|
    ensures r.Ok? ==> r.value.expected <= PART_NAMES
    decreases n
  {
    if n == 0 then Ok(INITIAL_PART_SCAN)
    else
      match PartHeaderScan(file, h, n - 1)
      case Err(e) => Err(e)
      case Ok(s) => PartHeaderStep(file, s, n - 1, h[n - 1])
  }

  /** What scanning the whole header yields. */
  function PartHeaderKeys(file: string, h: seq<string>): Result<PartHeader> {
    match PartHeaderScan(file, h, |h|)
    case Err(e) => Err(e)
    case Ok(s) => Ok(s.keys)
  }

  lemma {:induction false} PartHeaderErrorPersists(file: string, h: seq<string>, m: nat, n: nat)
    requires m <= n <= |h| && PartHeaderScan(file, h, m).Err?
    ensures PartHeaderScan(file, h, n) == PartHeaderScan(file, h, m)
    decreases n
  {
    if m < n {
      PartHeaderErrorPersists(file, h, m, n - 1);
    }
  }

  /** Scans the header left to right, removing each name from the expected set as it is seen. */
  method ScanPartsHeader(file: string, header: seq<string>) returns (r: Result<PartHeader>)
    ensures r == PartHeaderKeys(file, header)
  {
    var headerKeys := PartHeader(None, None, None);
    var expected := {NAME, TYPE, DNA_SEQUENCE};
    assert PartScan(expected, headerKeys) == INITIAL_PART_SCAN;
    var i := 0;
    while i < |header|
      invariant i <= |header|
      invariant PartHeaderScan(file, header, i) == Ok(PartScan(expected, headerKeys))
    {
      var key := header[i];
      if key in expected {
        if key == NAME {
          headerKeys := headerKeys.(name := Some(i));
          expected := expected - {NAME};
        } else if key == TYPE {
          headerKeys := headerKeys.(partType := Some(i));
          expected := expected - {TYPE};
        } else if key == DNA_SEQUENCE {
          headerKeys := headerKeys.(dnaSequence := Some(i));
          expected := expected - {DNA_SEQUENCE};
        }
      } else {
        PartHeaderErrorPersists(file, header, i + 1, |header|);
        return Err(UnexpectedHeaderKey(file, i));
      }
      i := i + 1;
    }
    return Ok(headerKeys);
  }

  // What the header grammar means, stated column by column.

  /** Column `i` is acceptable where it stands: one of the three names, not seen before. */
  predicate PartAdmissible(h: seq<string>, i: nat)
    requires i < |h|
  {
    h[i] in PART_NAMES && h[i] !in h[..i]
  }

  /** The names expected after the first `n` columns: those not seen yet. */
  function PartExpectedAfter(h: seq<string>, n: nat): set<string>
    requires n <= |h|
  {
    (if NAME in h[..n] then {} else {NAME}) +
    (if TYPE in h[..n] then {} else {TYPE}) +
    (if DNA_SEQUENCE in h[..n] then {} else {DNA_SEQUENCE})
  }

  /** After the first `n` columns, `k` records the column of each name. */
  predicate PartColumnsAfter(h: seq<string>, n: nat, k: PartHeader)
    requires n <= |h|
  {
    SingleColumn(h, n, NAME, k.name) &&
    SingleColumn(h, n, TYPE, k.partType) &&
    SingleColumn(h, n, DNA_SEQUENCE, k.dnaSequence)
  }

  lemma PartStepExpected(file: string, h: seq<string>, n: nat, s: PartScan)
    requires n < |h| && s.expected == PartExpectedAfter(h, n)
    ensures PartHeaderStep(file, s, n, h[n]).Ok? <==> PartAdmissible(h, n)
    ensures PartHeaderStep(file, s, n, h[n]).Ok? ==>
      PartHeaderStep(file, s, n, h[n]).value.expected == PartExpectedAfter(h, n + 1)
  {
    assert h[..n + 1] == h[..n] + [h[n]];
  }

  lemma PartStepColumns(file: string, h: seq<string>, n: nat, s: PartScan)
    requires n < |h| && s.expected == PartExpectedAfter(h, n)
    requires PartColumnsAfter(h, n, s.keys) && PartAdmissible(h, n)
    ensures PartHeaderStep(file, s, n, h[n]).Ok?
    ensures PartColumnsAfter(h, n + 1, PartHeaderStep(file, s, n, h[n]).value.keys)
  {
    PartStepExpected(file, h, n, s);
    var t := h[n];
    var k := s.keys;
    var k' := PartHeaderStep(file, s, n, t).value.keys;
    assert t == NAME ==> NAME !in h[..n] && k.name.None?;
    assert t == TYPE ==> TYPE !in h[..n] && k.partType.None?;
    assert t == DNA_SEQUENCE ==> DNA_SEQUENCE !in h[..n] && k.dnaSequence.None?;
    SingleColumnStep(h, n, NAME, k.name);
    SingleColumnStep(h, n, TYPE, k.partType);
    SingleColumnStep(h, n, DNA_SEQUENCE, k.dnaSequence);
    assert k'.name == if t == NAME then Some(n) else k.name;
    assert k'.partType == if t == TYPE then Some(n) else k.partType;
    assert k'.dnaSequence == if t == DNA_SEQUENCE then Some(n) else k.dnaSequence;
  }

  /** What the scan after the first `n` columns means. */
  predicate PartScanMeaning(file: string, h: seq<string>, n: nat, r: Result<PartScan>)
    requires n <= |h|
  {
    (r.Ok? <==> forall i :: 0 <= i < n ==> PartAdmissible(h, i)) &&
    (r.Ok? ==> r.value.expected == PartExpectedAfter(h, n) && PartColumnsAfter(h, n, r.value.keys)) &&
    (r.Err? ==>
      r.error.UnexpectedHeaderKey? && r.error.file == file && r.error.position < n &&
      !PartAdmissible(h, r.error.position) &&
      forall i :: 0 <= i < r.error.position ==> PartAdmissible(h, i))
  }

  lemma PartScanMeaningOk(file: string, h: seq<string>, n: nat, r: Result<PartScan>)
    requires n <= |h| && r.Ok? && forall i :: 0 <= i < n ==> PartAdmissible(h, i)
    requires r.value.expected == PartExpectedAfter(h, n) && PartColumnsAfter(h, n, r.value.keys)
    ensures PartScanMeaning(file, h, n, r)
  {
  }

  lemma PartScanMeaningErrStep(file: string, h: seq<string>, m: nat)
    requires m < |h| && PartHeaderScan(file, h, m).Err?
    requires PartScanMeaning(file, h, m, PartHeaderScan(file, h, m))
    ensures PartScanMeaning(file, h, m + 1, PartHeaderScan(file, h, m + 1))
  {
    var prev := PartHeaderScan(file, h, m);
    assert PartHeaderScan(file, h, m + 1) == prev;
    assert !PartAdmissible(h, prev.error.position);
  }


  lemma PartScanAcceptStep(file: string, h: seq<string>, m: nat)
    requires m < |h| && PartHeaderScan(file, h, m).Ok? && PartAdmissible(h, m)
    requires PartScanMeaning(file, h, m, PartHeaderScan(file, h, m))
    ensures PartScanMeaning(file, h, m + 1, PartHeaderScan(file, h, m + 1))
  {
    var s := PartHeaderScan(file, h, m).value;
    var r := PartHeaderStep(file, s, m, h[m]);
    assert PartHeaderScan(file, h, m + 1) == r;
    PartScanAccepted(file, h, m, s, r);
  }

  lemma PartScanAccepted(file: string, h: seq<string>, m: nat, s: PartScan, r: Result<PartScan>)
    requires m < |h| && PartAdmissible(h, m) && forall i :: 0 <= i < m ==> PartAdmissible(h, i)
    requires s.expected == PartExpectedAfter(h, m) && PartColumnsAfter(h, m, s.keys)
    requires r == PartHeaderStep(file, s, m, h[m])
    ensures PartScanMeaning(file, h, m + 1, r)
  {
    PartStepColumns(file, h, m, s);
    PartStepExpected(file, h, m, s);
    assert forall i :: 0 <= i < m + 1 ==> PartAdmissible(h, i);
    PartScanMeaningOk(file, h, m + 1, r);
  }

  lemma PartScanRejectStep(file: string, h: seq<string>, m: nat)
    requires m < |h| && PartHeaderScan(file, h, m).Ok? && !PartAdmissible(h, m)
    requires PartScanMeaning(file, h, m, PartHeaderScan(file, h, m))
    ensures PartScanMeaning(file, h, m + 1, PartHeaderScan(file, h, m + 1))
  {
    var s := PartHeaderScan(file, h, m).value;
    assert PartHeaderScan(file, h, m + 1) == PartHeaderStep(file, s, m, h[m]);
    PartStepExpected(file, h, m, s);
    assert PartHeaderScan(file, h, m + 1) == Err(UnexpectedHeaderKey(file, m));
  }


  lemma {:induction false} PartHeaderScanMeaning(file: string, h: seq<string>, n: nat)
    requires n <= |h|
    ensures PartScanMeaning(file, h, n, PartHeaderScan(file, h, n))
    decreases n
  {
    if n == 0 {
      assert h[..0] == [];
      assert PartExpectedAfter(h, 0) == PART_NAMES;
      PartScanMeaningOk(file, h, 0, Ok(INITIAL_PART_SCAN));
    } else {
      var m := n - 1;
      assert m + 1 == n;
      PartHeaderScanMeaning(file, h, m);
      if PartHeaderScan(file, h, m).Err? {
        PartScanMeaningErrStep(file, h, m);
      } else if PartAdmissible(h, m) {
        PartScanAcceptStep(file, h, m);
      } else {
        PartScanRejectStep(file, h, m);
      }
    }
  }

  /** The header is accepted exactly when every column is one of the three names, seen for the first time. */
  lemma PartHeaderAccepted(file: string, h: seq<string>)
    ensures PartHeaderKeys(file, h).Ok? <==> forall i :: 0 <= i < |h| ==> PartAdmissible(h, i)
  {
    PartHeaderScanMeaning(file, h, |h|);
  }

  /** A rejected header is rejected at its first unacceptable column, whose position is reported. */
  lemma PartHeaderRejected(file: string, h: seq<string>)
    ensures PartHeaderKeys(file, h).Err? ==>
      var e := PartHeaderKeys(file, h).error;
      e.UnexpectedHeaderKey? && e.file == file && e.position < |h| && !PartAdmissible(h, e.position) &&
      forall i :: 0 <= i < e.position ==> PartAdmissible(h, i)
  {
    PartHeaderScanMeaning(file, h, |h|);
  }

  /** An accepted header records the one column of each name it holds. */
  lemma PartHeaderColumns(file: string, h: seq<string>)
    ensures PartHeaderKeys(file, h).Ok? ==> PartColumnsAfter(h, |h|, PartHeaderKeys(file, h).value)
  {
    PartHeaderScanMeaning(file, h, |h|);
  }

  // ---------------------------------------------------------------------------
  // Rows
  // ---------------------------------------------------------------------------

  /** The row can be read at all three columns (otherwise the source fails with a KeyError or an
      IndexError, which this model does not cover). */
  predicate PartRowFits(k: PartHeader, row: Row) {
    k.name.Some? && k.name.value < |row| &&
    k.partType.Some? && k.partType.value < |row| &&
    k.dnaSequence.Some? && k.dnaSequence.value < |row|
  }

  predicate PartRowsFit(k: PartHeader, rows: seq<Row>) {
    forall row :: row in rows && |row| > 0 ==> PartRowFits(k, row)
  }

  function PartNameOf(k: PartHeader, row: Row): string
    requires PartRowFits(k, row)
  {
    row[k.name.value]
  }

  function PartTypeOf(k: PartHeader, row: Row): string
    requires PartRowFits(k, row)
  {
    row[k.partType.value]
  }

  function PartDnaSequenceOf(k: PartHeader, row: Row): string
    requires PartRowFits(k, row)
  {
    row[k.dnaSequence.value]
  }

  /** One row of the row loop, given the records built from the earlier rows: the name is checked
      first, then that no earlier record has it, then the type and the sequence. */
  function PartRow(k: PartHeader, row: Row, earlier: seq<Collection>): Result<Collection>
    requires PartRowFits(k, row)
  {
    var name := PartNameOf(k, row);
    if name == "" then Err(PartNameNotSpecified)
    else if HasKey(earlier, name) then Err(PartAlreadySpecified(name))
    else if PartTypeOf(k, row) == "" then Err(PartTypeNotSpecified(name))
    else if PartDnaSequenceOf(k, row) == "" then Err(PartDnaSequenceNotSpecified(name))
    else Ok(Part(name, PartTypeOf(k, row), PartDnaSequenceOf(k, row)))
  }

  /** The `parts` list after the rows `rows`; zero-length rows are skipped. */
  function PartRows(k: PartHeader, rows: seq<Row>): Result<seq<Collection>>
    requires PartRowsFit(k, rows)
    decreases |rows|
  {
    if rows == [] then Ok([])
    else
      var last := rows[|rows| - 1];
      assert forall r :: r in rows[..|rows| - 1] ==> r in rows;
      match PartRows(k, rows[..|rows| - 1])
      case Err(e) => Err(e)
      case Ok(cs) => PartRowAppend(k, last, cs)
  }

  /** One turn of the row loop: a zero-length row is skipped, any other row adds its record or fails. */
  function PartRowAppend(k: PartHeader, row: Row, cs: seq<Collection>): Result<seq<Collection>>
    requires |row| > 0 ==> PartRowFits(k, row)
  {
    if |row| == 0 then Ok(cs)
    else
      match PartRow(k, row, cs)
      case Err(e) => Err(e)
      case Ok(c) => Ok(cs + [c])
  }

  /** The fold after `i + 1` rows is one more turn of the loop after `i` rows. */
  lemma PartRowsStep(k: PartHeader, rows: seq<Row>, i: nat, cs: seq<Collection>)
    requires i < |rows| && PartRowsFit(k, rows) && PartRowsFit(k, rows[..i]) && PartRows(k, rows[..i]) == Ok(cs)
    ensures PartRowsFit(k, rows[..i + 1])
    ensures PartRows(k, rows[..i + 1]) == PartRowAppend(k, rows[i], cs)
  {
    assert rows[..i + 1][..i] == rows[..i];
    assert forall x :: x in rows[..i + 1] ==> x in rows;
  }

  lemma {:induction false} PartRowsErrorPersists(k: PartHeader, rows: seq<Row>, m: nat)
    requires m <= |rows| && PartRowsFit(k, rows) && PartRowsFit(k, rows[..m]) && PartRows(k, rows[..m]).Err?
    ensures PartRows(k, rows) == PartRows(k, rows[..m])
    decreases |rows|
  {
    if m == |rows| {
      assert rows[..m] == rows;
    } else {
      var p := rows[..|rows| - 1];
      assert p[..m] == rows[..m];
      assert forall r :: r in p ==> r in rows;
      PartRowsErrorPersists(k, p, m);
    }
  }

  /** The row loop: one `parts` record per non-empty row. */
  method CollectParts(k: PartHeader, rows: seq<Row>) returns (r: Result<seq<Collection>>)
    requires PartRowsFit(k, rows)
    ensures r == PartRows(k, rows)
  {
    var parts: seq<Collection> := [];
    var i := 0;
    while i < |rows|
      invariant i <= |rows|
      invariant PartRowsFit(k, rows[..i])
      invariant PartRows(k, rows[..i]) == Ok(parts)
    {
      var row := rows[i];
      PartRowsStep(k, rows, i, parts);
      if |row| > 0 {
        var partName := row[k.name.value];
        if |partName| == 0 {
          PartRowsErrorPersists(k, rows, i + 1);
          return Err(PartNameNotSpecified);
        }
        var found := FindByKey(parts, partName);
        if found {
          PartRowsErrorPersists(k, rows, i + 1);
          return Err(PartAlreadySpecified(partName));
        }
        var partType := row[k.partType.value];
        if |partType| == 0 {
          PartRowsErrorPersists(k, rows, i + 1);
          return Err(PartTypeNotSpecified(partName));
        }
        var partDnaSequence := row[k.dnaSequence.value];
        if |partDnaSequence| == 0 {
          PartRowsErrorPersists(k, rows, i + 1);
          return Err(PartDnaSequenceNotSpecified(partName));
        }
        parts := parts + [Part(partName, partType, partDnaSequence)];
      }
      i := i + 1;
    }
    assert rows[..|rows|] == rows;
    return Ok(parts);
  }

  // What the row loop yields, stated row by row.

  /** A row is acceptable on its own: none of its three cells is empty. */
  predicate PartRowAcceptable(k: PartHeader, row: Row)
    requires PartRowFits(k, row)
  {
    PartNameOf(k, row) != "" && PartTypeOf(k, row) != "" && PartDnaSequenceOf(k, row) != ""
  }

  /** The record an acceptable row yields: its three cells as they are. */
  function PartRecord(k: PartHeader, row: Row): Collection
    requires PartRowFits(k, row)
  {
    Part(PartNameOf(k, row), PartTypeOf(k, row), PartDnaSequenceOf(k, row))
  }

  predicate EachPartRowFits(k: PartHeader, ne: seq<Row>) {
    forall i :: 0 <= i < |ne| ==> PartRowFits(k, ne[i])
  }

  /** Every row is acceptable and no two rows name the same part. */
  predicate PartRowsOk(k: PartHeader, ne: seq<Row>)
    requires EachPartRowFits(k, ne)
  {
    (forall i :: 0 <= i < |ne| ==> PartRowAcceptable(k, ne[i])) &&
    (forall a, b :: 0 <= a < b < |ne| ==> PartNameOf(k, ne[a]) != PartNameOf(k, ne[b]))
  }

  /** `cs` holds the record of each row, in row order. */
  predicate PartRecordsOf(k: PartHeader, ne: seq<Row>, cs: seq<Collection>)
    requires EachPartRowFits(k, ne)
  {
    |cs| == |ne| &&
    forall i :: 0 <= i < |ne| ==> cs[i] == PartRecord(k, ne[i])
  }

  lemma NonEmptyPartRowsFit(k: PartHeader, rows: seq<Row>)
    requires PartRowsFit(k, rows)
    ensures EachPartRowFits(k, NonEmptyRows(rows))
  {
  }

  /** The meaning of the row loop's result after `rows`. */
  ghost predicate PartRowsMeaning(k: PartHeader, rows: seq<Row>, r: Result<seq<Collection>>)
    requires PartRowsFit(k, rows)
  {
    NonEmptyPartRowsFit(k, rows);
    var ne := NonEmptyRows(rows);
    (r.Ok? <==> PartRowsOk(k, ne)) && (r.Ok? ==> PartRecordsOf(k, ne, r.value))
  }

  lemma PartRowsOkPrefix(k: PartHeader, ne: seq<Row>)
    requires |ne| > 0 && EachPartRowFits(k, ne) && PartRowsOk(k, ne)
    ensures EachPartRowFits(k, ne[..|ne| - 1]) && PartRowsOk(k, ne[..|ne| - 1])
  {
  }

  /** Adding one row to rows that are fine: the result is fine exactly when the new row is
      acceptable and its name is not among the records so far. */
  lemma PartRowsOkExtend(k: PartHeader, ne: seq<Row>, cs: seq<Collection>)
    requires |ne| > 0 && EachPartRowFits(k, ne)
    requires EachPartRowFits(k, ne[..|ne| - 1])
    requires PartRowsOk(k, ne[..|ne| - 1]) && PartRecordsOf(k, ne[..|ne| - 1], cs)
    ensures PartRowsOk(k, ne) <==>
      PartRowAcceptable(k, ne[|ne| - 1]) && !HasKey(cs, PartNameOf(k, ne[|ne| - 1]))
    ensures PartRowsOk(k, ne) ==> PartRecordsOf(k, ne, cs + [PartRecord(k, ne[|ne| - 1])])
  {
    var np := ne[..|ne| - 1];
    var b := |np|;
    var last := ne[b];
    assert forall i :: 0 <= i < b ==> ne[i] == np[i];
    if PartRowAcceptable(k, last) {
      var name := PartNameOf(k, last);
      if HasKey(cs, name) {
        var j :| 0 <= j < |cs| && Key(cs[j]) == name;
        assert cs[j] == PartRecord(k, np[j]);
        assert PartNameOf(k, ne[j]) == PartNameOf(k, ne[b]);
      } else {
        forall a | 0 <= a < b
          ensures PartNameOf(k, ne[a]) != PartNameOf(k, ne[b])
        {
          assert cs[a] == PartRecord(k, np[a]);
          assert Key(cs[a]) == PartNameOf(k, np[a]);
        }
      }
    }
  }

  lemma PartRowStepMeaning(k: PartHeader, rows: seq<Row>)
    requires |rows| > 0 && PartRowsFit(k, rows)
    requires PartRowsFit(k, rows[..|rows| - 1])
    requires PartRowsMeaning(k, rows[..|rows| - 1], PartRows(k, rows[..|rows| - 1]))
    ensures PartRowsMeaning(k, rows, PartRows(k, rows))
  {
    var p := rows[..|rows| - 1];
    var last := rows[|rows| - 1];
    NonEmptyPartRowsFit(k, p);
    NonEmptyPartRowsFit(k, rows);
    var np := NonEmptyRows(p);
    var ne := NonEmptyRows(rows);
    var prev := PartRows(k, p);
    if |last| == 0 {
      assert ne == np;
    } else {
      assert ne == np + [last];
      assert ne[..|ne| - 1] == np;
      if prev.Err? {
        if PartRowsOk(k, ne) {
          PartRowsOkPrefix(k, ne);
        }
      } else {
        PartRowsOkExtend(k, ne, prev.value);
      }
    }
  }

  lemma {:induction false} PartRowsMeaningAt(k: PartHeader, rows: seq<Row>)
    requires PartRowsFit(k, rows)
    ensures PartRowsMeaning(k, rows, PartRows(k, rows))
    decreases |rows|
  {
    if rows != [] {
      var p := rows[..|rows| - 1];
      assert forall r :: r in p ==> r in rows;
      PartRowsMeaningAt(k, p);
      PartRowStepMeaning(k, rows);
    }
  }

  /** The row loop succeeds exactly when every non-empty row has a name, a type and a sequence and
      no two non-empty rows share a name; it then yields one record per non-empty row, in row order. */
  lemma PartRowsResult(k: PartHeader, rows: seq<Row>)
    requires PartRowsFit(k, rows)
    ensures EachPartRowFits(k, NonEmptyRows(rows))
    ensures PartRows(k, rows).Ok? <==> PartRowsOk(k, NonEmptyRows(rows))
    ensures PartRows(k, rows).Ok? ==> PartRecordsOf(k, NonEmptyRows(rows), PartRows(k, rows).value)
  {
    PartRowsMeaningAt(k, rows);
  }

  /** Some earlier row names the same part as row `i`. */
  predicate PartNamedEarlier(k: PartHeader, ne: seq<Row>, i: nat)
    requires EachPartRowFits(k, ne) && i < |ne|
  {
    exists a :: 0 <= a < i && PartNameOf(k, ne[a]) == PartNameOf(k, ne[i])
  }

  /** The error row `i` raises given the rows before it, stated on the rows themselves. */
  function PartRowError(k: PartHeader, ne: seq<Row>, i: nat): Option<Error>
    requires EachPartRowFits(k, ne) && i < |ne|
  {
    var row := ne[i];
    var name := PartNameOf(k, row);
    if name == "" then Some(PartNameNotSpecified)
    else if PartNamedEarlier(k, ne, i) then Some(PartAlreadySpecified(name))
    else if PartTypeOf(k, row) == "" then Some(PartTypeNotSpecified(name))
    else if PartDnaSequenceOf(k, row) == "" then Some(PartDnaSequenceNotSpecified(name))
    else None
  }

  /** Row `i` is the first row that raises an error, and that error is `e`. */
  predicate FirstPartError(k: PartHeader, ne: seq<Row>, i: nat, e: Error)
    requires EachPartRowFits(k, ne)
  {
    i < |ne| && PartRowError(k, ne, i) == Some(e) &&
    forall a :: 0 <= a < i ==> PartRowError(k, ne, a).None?
  }

  lemma PartRowErrorPrefix(k: PartHeader, ne: seq<Row>, a: nat)
    requires |ne| > 0 && EachPartRowFits(k, ne) && a < |ne| - 1
    ensures EachPartRowFits(k, ne[..|ne| - 1])
    ensures PartRowError(k, ne[..|ne| - 1], a) == PartRowError(k, ne, a)
  {
    var np := ne[..|ne| - 1];
    assert forall b :: 0 <= b <= a ==> np[b] == ne[b];
    assert PartNamedEarlier(k, np, a) <==> PartNamedEarlier(k, ne, a);
  }

  /** Rows that are fine raise no error. */
  lemma PartRowsOkNoError(k: PartHeader, ne: seq<Row>)
    requires EachPartRowFits(k, ne) && PartRowsOk(k, ne)
    ensures forall a :: 0 <= a < |ne| ==> PartRowError(k, ne, a).None?
  {
    forall a | 0 <= a < |ne|
      ensures PartRowError(k, ne, a).None?
    {
      assert !PartNamedEarlier(k, ne, a);
    }
  }

  /** After rows that are fine, the next row fails as `PartRowError` says. */
  lemma PartRowErrorAfterOk(k: PartHeader, ne: seq<Row>, cs: seq<Collection>)
    requires |ne| > 0 && EachPartRowFits(k, ne)
    requires EachPartRowFits(k, ne[..|ne| - 1])
    requires PartRowsOk(k, ne[..|ne| - 1]) && PartRecordsOf(k, ne[..|ne| - 1], cs)
    ensures PartRow(k, ne[|ne| - 1], cs).Err? <==> PartRowError(k, ne, |ne| - 1).Some?
    ensures PartRow(k, ne[|ne| - 1], cs).Err? ==>
      PartRowError(k, ne, |ne| - 1) == Some(PartRow(k, ne[|ne| - 1], cs).error)
  {
    var np := ne[..|ne| - 1];
    var b := |np|;
    var name := PartNameOf(k, ne[b]);
    assert forall i :: 0 <= i < b ==> ne[i] == np[i];
    if HasKey(cs, name) {
      var j :| 0 <= j < |cs| && Key(cs[j]) == name;
      assert cs[j] == PartRecord(k, np[j]);
      assert PartNameOf(k, ne[j]) == name;
    }
    if PartNamedEarlier(k, ne, b) {
      var a :| 0 <= a < b && PartNameOf(k, ne[a]) == name;
      assert cs[a] == PartRecord(k, np[a]);
      assert Key(cs[a]) == name;
    }
  }

  /** The first failing row among all but the last is still the first failing row. */
  lemma FirstPartErrorKept(k: PartHeader, ne: seq<Row>, i: nat, e: Error)
    requires |ne| > 0 && EachPartRowFits(k, ne) && EachPartRowFits(k, ne[..|ne| - 1])
    requires FirstPartError(k, ne[..|ne| - 1], i, e)
    ensures FirstPartError(k, ne, i, e)
  {
    forall a | 0 <= a <= i
      ensures PartRowError(k, ne, a) == PartRowError(k, ne[..|ne| - 1], a)
    {
      PartRowErrorPrefix(k, ne, a);
    }
  }

  /** After rows that are fine, a failing last row is the first failing row. */
  lemma FirstPartErrorLast(k: PartHeader, ne: seq<Row>, cs: seq<Collection>)
    requires |ne| > 0 && EachPartRowFits(k, ne) && EachPartRowFits(k, ne[..|ne| - 1])
    requires PartRowsOk(k, ne[..|ne| - 1]) && PartRecordsOf(k, ne[..|ne| - 1], cs)
    ensures PartRow(k, ne[|ne| - 1], cs).Err? ==>
      FirstPartError(k, ne, |ne| - 1, PartRow(k, ne[|ne| - 1], cs).error)
  {
    var np := ne[..|ne| - 1];
    PartRowsOkNoError(k, np);
    forall a | 0 <= a < |np|
      ensures PartRowError(k, ne, a).None?
    {
      PartRowErrorPrefix(k, ne, a);
    }
    PartRowErrorAfterOk(k, ne, cs);
  }

  lemma {:induction false} PartRowsErrorAt(k: PartHeader, rows: seq<Row>)
    requires PartRowsFit(k, rows)
    ensures EachPartRowFits(k, NonEmptyRows(rows))
    ensures PartRows(k, rows).Err? ==>
      exists i :: FirstPartError(k, NonEmptyRows(rows), i, PartRows(k, rows).error)
    decreases |rows|
  {
    NonEmptyPartRowsFit(k, rows);
    if rows != [] {
      var p := rows[..|rows| - 1];
      var last := rows[|rows| - 1];
      assert forall r :: r in p ==> r in rows;
      PartRowsErrorAt(k, p);
      var np := NonEmptyRows(p);
      var ne := NonEmptyRows(rows);
      var prev := PartRows(k, p);
      if |last| == 0 {
        assert ne == np;
      } else {
        assert ne == np + [last];
        assert ne[..|ne| - 1] == np && ne[|ne| - 1] == last;
        if prev.Err? {
          var i :| FirstPartError(k, np, i, prev.error);
          FirstPartErrorKept(k, ne, i, prev.error);
        } else {
          PartRowsMeaningAt(k, p);
          FirstPartErrorLast(k, ne, prev.value);
        }
      }
    }
  }

  /** A failing row loop fails at its first non-empty row that lacks a name, repeats an earlier
      row's name, or lacks a type or a sequence, checked in that order; the error says which. */
  lemma PartRowsRejected(k: PartHeader, rows: seq<Row>)
    requires PartRowsFit(k, rows)
    ensures EachPartRowFits(k, NonEmptyRows(rows))
    ensures PartRows(k, rows).Err? ==>
      exists i :: FirstPartError(k, NonEmptyRows(rows), i, PartRows(k, rows).error)
  {
    PartRowsErrorAt(k, rows);
  }

  // The whole stage.

  /** The rows can be read at every column an accepted header records. */
  predicate PartStageFits(t: Table) {
    match PartHeaderKeys(t.file, t.header)
    case Err(_) => true
    case Ok(k) => PartRowsFit(k, t.rows)
  }

  /** The collections the stage appends: the header scan, then the row loop. */
  function PartsOf(t: Table): Result<seq<Collection>>
    requires PartStageFits(t)
  {
    match PartHeaderKeys(t.file, t.header)
    case Err(e) => Err(e)
    case Ok(k) => PartRows(k, t.rows)
  }

  /** Reads the parts table and appends its records to the document. */
  method AddParts(t: Table, ucf: Document) returns (r: Outcome)
    requires PartStageFits(t)
    modifies ucf
    ensures PartsOf(t).Ok? ==> r == Pass && ucf.entries == old(ucf.entries) + PartsOf(t).value
    ensures PartsOf(t).Err? ==> r == Fail(PartsOf(t).error) && ucf.entries == old(ucf.entries)
  {
    var keys := ScanPartsHeader(t.file, t.header);
    if keys.Err? {
      return Fail(keys.error);
    }
    var parts := CollectParts(keys.value, t.rows);
    if parts.Err? {
      return Fail(parts.error);
    }
    ucf.Extend(parts.value);
    return Pass;
  }
}
