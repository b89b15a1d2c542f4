/** The gate-parts stage: a header of `gate_name`, `promoter` and repeated `variable` groups,
    each followed by its `part` columns; one `gate_parts` record per data row. */
module GatePartsStage {
  import opened Ucf
  import opened Tables

  const GATE_NAME := "gate_name"
  const PROMOTER := "promoter"
  const VARIABLE := "variable"
  const PART := "part"

  // ---------------------------------------------------------------------------
  // Header
  // ---------------------------------------------------------------------------

  /** The columns of one cassette group: the `variable` column that opened it and its `part` columns. */
  datatype CassetteColumns = CassetteColumns(variable: nat, parts: seq<nat>)

  /** What the header scan records about the columns. */
  datatype GateHeader = GateHeader(gateName: Option<nat>, promoter: Option<nat>, cassettes: seq<CassetteColumns>)

  /** The state of the header scan: the set of column names it expects next, and what it has recorded. */
  datatype GateScan = GateScan(expected: set<string>, keys: GateHeader)

  const INITIAL_GATE_SCAN := GateScan({GATE_NAME, PROMOTER, VARIABLE}, GateHeader(None, None, []))

  /** The shape every reachable scan state has: only the four names are ever expected, and
      `part` is expected only once some group is open. */
  predicate ScanShape(s: GateScan) {
    s.expected <= {GATE_NAME, PROMOTER, VARIABLE, PART} &&
    (PART in s.expected ==> |s.keys.cassettes| > 0)
  }

  /** One step of the header loop: column `i` holds `key`. */
  function GateHeaderStep(file: string, s: GateScan, i: nat, key: string): (r: Result<GateScan>)
    requires ScanShape(s)
    ensures r.Ok? ==> ScanShape(r.value)
    ensures r.Err? <==> key !in s.expected
    ensures r.Err? ==> r.error == UnexpectedHeaderKey(file, i)
  {
    if key !in s.expected then Err(UnexpectedHeaderKey(file, i))
    else if key == GATE_NAME then
      Ok(GateScan(s.expected - {GATE_NAME}, s.keys.(gateName := Some(i))))
    else if key == PROMOTER then
      Ok(GateScan(s.expected - {PROMOTER}, s.keys.(promoter := Some(i))))
    else if key == VARIABLE then
      Ok(GateScan(s.expected + {PART}, s.keys.(cassettes := s.keys.cassettes + [CassetteColumns(i, [])])))
    else
      // key == PART: attach the column to the group opened last
      var cs := s.keys.cassettes;
      var last := cs[|cs| - 1];
      Ok(GateScan(s.expected, s.keys.(cassettes := cs[|cs| - 1 := last.(parts := last.parts + [i])])))
  }

  /** The scan after the first `n` columns of `h`. */
  function GateHeaderScan(file: string, h: seq<string>, n: nat): (r: Result<GateScan>)
    requires n <= |h|
    ensures r.Ok? ==> ScanShape(r.value)
    decreases n
  {
    if n == 0 then Ok(INITIAL_GATE_SCAN)
    else
      match GateHeaderScan(file, h, n - 1)
      case Err(e) => Err(e)
      case Ok(s) => GateHeaderStep(file, s, n - 1, h[n - 1])
  }

  /** What scanning the whole header yields. */
  function GateHeaderKeys(file: string, h: seq<string>): Result<GateHeader> {
    match GateHeaderScan(file, h, |h|)
    case Err(e) => Err(e)
    case Ok(s) => Ok(s.keys)
  }

  lemma {:induction false} GateHeaderErrorPersists(file: string, h: seq<string>, m: nat, n: nat)
    requires m <= n <= |h| && GateHeaderScan(file, h, m).Err?
    ensures GateHeaderScan(file, h, n) == GateHeaderScan(file, h, m)
    decreases n
  {
    if m < n {
      GateHeaderErrorPersists(file, h, m, n - 1);
    }
  }

  /** Scans the header left to right, updating the expected set and the recorded columns. */
  method ScanGatePartsHeader(file: string, header: seq<string>) returns (r: Result<GateHeader>)
    ensures r == GateHeaderKeys(file, header)
  {
    var headerKeys := GateHeader(None, None, []);
    var expected := {GATE_NAME, PROMOTER, VARIABLE};
    assert GateScan(expected, headerKeys) == INITIAL_GATE_SCAN;
    var i := 0;
    while i < |header|
      invariant i <= |header|
      invariant GateHeaderScan(file, header, i) == Ok(GateScan(expected, headerKeys))
    {
      var key := header[i];
      if key in expected {
        if key == GATE_NAME {
          headerKeys := headerKeys.(gateName := Some(i));
          expected := expected - {GATE_NAME};
        } else if key == PROMOTER {
          headerKeys := headerKeys.(promoter := Some(i));
          expected := expected - {PROMOTER};
        } else if key == VARIABLE {
          headerKeys := headerKeys.(cassettes := headerKeys.cassettes + [CassetteColumns(i, [])]);
          expected := expected + {PART};
        } else if key == PART {
          var last := |headerKeys.cassettes| - 1;
          var cassette := headerKeys.cassettes[last];
          headerKeys := headerKeys.(cassettes := headerKeys.cassettes[last := cassette.(parts := cassette.parts + [i])]);
        }
      } else {
        GateHeaderErrorPersists(file, header, i + 1, |header|);
        return Err(UnexpectedHeaderKey(file, i));
      }
      i := i + 1;
    }
    return Ok(headerKeys);
  }

  // What the header grammar means, stated column by column.

  /** Column `i` is acceptable where it stands: `gate_name` and `promoter` the first time,
      `variable` always, `part` once some `variable` column came before it. */
  predicate GateAdmissible(h: seq<string>, i: nat)
    requires i < |h|
  {
    (h[i] == GATE_NAME && GATE_NAME !in h[..i]) ||
    (h[i] == PROMOTER && PROMOTER !in h[..i]) ||
    h[i] == VARIABLE ||
    (h[i] == PART && VARIABLE in h[..i])
  }

  /** The names expected after the first `n` columns. */
  function GateExpectedAfter(h: seq<string>, n: nat): set<string>
    requires n <= |h|
  {
    {VARIABLE} +
    (if GATE_NAME in h[..n] then {} else {GATE_NAME}) +
    (if PROMOTER in h[..n] then {} else {PROMOTER}) +
    (if VARIABLE in h[..n] then {PART} else {})
  }

  /** The cassette groups after the first `n` columns: one per `variable` column in header order,
      each holding exactly the `part` columns between its `variable` column and the next one
      (or column `n`), in header order. */
  ghost predicate GroupsAfter(h: seq<string>, n: nat, cassettes: seq<CassetteColumns>)
    requires n <= |h|
  {
    var vs := PositionsIn(h, VARIABLE, 0, n);
    |cassettes| == |vs| &&
    forall j :: 0 <= j < |vs| ==> GroupAt(h, n, vs, cassettes[j], j)
  }

  /** Group `j` opened at `vs[j]` and holds the `part` columns up to the next group or column `n`. */
  ghost predicate GroupAt(h: seq<string>, n: nat, vs: seq<nat>, c: CassetteColumns, j: nat)
    requires n <= |h| && j < |vs| && forall a :: 0 <= a < |vs| ==> vs[a] < n
  {
    c.variable == vs[j] && c.parts == PositionsIn(h, PART, vs[j] + 1, Next(vs, j, n))
  }

  /** After the first `n` columns, `k` records the `gate_name` and `promoter` columns and the
      cassette groups. */
  ghost predicate GateColumnsAfter(h: seq<string>, n: nat, k: GateHeader)
    requires n <= |h|
  {
    SingleColumn(h, n, GATE_NAME, k.gateName) &&
    SingleColumn(h, n, PROMOTER, k.promoter) &&
    GroupsAfter(h, n, k.cassettes)
  }

  lemma GateStepExpected(file: string, h: seq<string>, n: nat, s: GateScan)
    requires n < |h| && ScanShape(s) && s.expected == GateExpectedAfter(h, n)
    ensures GateHeaderStep(file, s, n, h[n]).Ok? <==> GateAdmissible(h, n)
    ensures GateHeaderStep(file, s, n, h[n]).Ok? ==>
      GateHeaderStep(file, s, n, h[n]).value.expected == GateExpectedAfter(h, n + 1)
  {
    assert h[..n + 1] == h[..n] + [h[n]];
  }

  lemma OpenGroup(h: seq<string>, n: nat, cassettes: seq<CassetteColumns>)
    requires n < |h| && h[n] == VARIABLE && GroupsAfter(h, n, cassettes)
    ensures GroupsAfter(h, n + 1, cassettes + [CassetteColumns(n, [])])
  {
    var vs := PositionsIn(h, VARIABLE, 0, n);
    var vs' := PositionsIn(h, VARIABLE, 0, n + 1);
    assert vs' == vs + [n];
    var cs' := cassettes + [CassetteColumns(n, [])];
    forall j | 0 <= j < |vs'|
      ensures GroupAt(h, n + 1, vs', cs'[j], j)
    {
      if j < |vs| {
        OpenGroupKeeps(h, n, vs, vs', cassettes[j], j);
      } else {
        assert PositionsIn(h, PART, n + 1, n + 1) == [];
      }
    }
  }

  lemma OpenGroupKeeps(h: seq<string>, n: nat, vs: seq<nat>, vs': seq<nat>, c: CassetteColumns, j: nat)
    requires n < |h| && j < |vs| && vs' == vs + [n]
    requires forall a :: 0 <= a < |vs| ==> vs[a] < n
    requires GroupAt(h, n, vs, c, j)
    ensures GroupAt(h, n + 1, vs', c, j)
  {
    assert Next(vs', j, n + 1) == Next(vs, j, n);
  }

  lemma AttachPart(h: seq<string>, n: nat, cassettes: seq<CassetteColumns>)
    requires n < |h| && h[n] == PART && |cassettes| > 0 && GroupsAfter(h, n, cassettes)
    ensures var last := cassettes[|cassettes| - 1];
      GroupsAfter(h, n + 1, cassettes[|cassettes| - 1 := last.(parts := last.parts + [n])])
  {
    var vs := PositionsIn(h, VARIABLE, 0, n);
    assert PositionsIn(h, VARIABLE, 0, n + 1) == vs;
    var last := |vs| - 1;
    var cs' := cassettes[last := cassettes[last].(parts := cassettes[last].parts + [n])];
    forall j | 0 <= j < |vs|
      ensures GroupAt(h, n + 1, vs, cs'[j], j)
    {
      if j < last {
        assert cs'[j] == cassettes[j] && GroupAt(h, n, vs, cassettes[j], j);
      } else {
        assert GroupAt(h, n, vs, cassettes[j], j);
        assert vs[last] < n;
        assert PositionsIn(h, PART, vs[last] + 1, n + 1) == PositionsIn(h, PART, vs[last] + 1, n) + [n];
      }
    }
  }

  lemma KeepGroups(h: seq<string>, n: nat, cassettes: seq<CassetteColumns>)
    requires n < |h| && h[n] != PART && h[n] != VARIABLE && GroupsAfter(h, n, cassettes)
    ensures GroupsAfter(h, n + 1, cassettes)
  {
    var vs := PositionsIn(h, VARIABLE, 0, n);
    assert PositionsIn(h, VARIABLE, 0, n + 1) == vs;
    forall j | 0 <= j < |vs|
      ensures GroupAt(h, n + 1, vs, cassettes[j], j)
    {
      assert GroupAt(h, n, vs, cassettes[j], j);
      if j == |vs| - 1 {
        assert vs[j] < n;
        assert PositionsIn(h, PART, vs[j] + 1, n + 1) == PositionsIn(h, PART, vs[j] + 1, n);
      }
    }
  }

  lemma GateStepColumns(file: string, h: seq<string>, n: nat, s: GateScan)
    requires n < |h| && ScanShape(s) && s.expected == GateExpectedAfter(h, n)
    requires GateColumnsAfter(h, n, s.keys) && GateAdmissible(h, n)
    ensures GateHeaderStep(file, s, n, h[n]).Ok?
    ensures GateColumnsAfter(h, n + 1, GateHeaderStep(file, s, n, h[n]).value.keys)
  {
    GateStepExpected(file, h, n, s);
    var t := h[n];
    var k := s.keys;
    var k' := GateHeaderStep(file, s, n, t).value.keys;
    assert t == GATE_NAME ==> GATE_NAME !in h[..n] && k.gateName.None?;
    assert t == PROMOTER ==> PROMOTER !in h[..n] && k.promoter.None?;
    SingleColumnStep(h, n, GATE_NAME, k.gateName);
    SingleColumnStep(h, n, PROMOTER, k.promoter);
    if t == VARIABLE {
      OpenGroup(h, n, k.cassettes);
    } else if t == PART {
      AttachPart(h, n, k.cassettes);
    } else {
      KeepGroups(h, n, k.cassettes);
    }
    assert k'.gateName == if t == GATE_NAME then Some(n) else k.gateName;
    assert k'.promoter == if t == PROMOTER then Some(n) else k.promoter;
  }

  /** What the scan after the first `n` columns means. */
  ghost predicate GateScanMeaning(file: string, h: seq<string>, n: nat, r: Result<GateScan>)
    requires n <= |h|
  {
    (r.Ok? <==> forall i :: 0 <= i < n ==> GateAdmissible(h, i)) &&
    (r.Ok? ==> r.value.expected == GateExpectedAfter(h, n) && GateColumnsAfter(h, n, r.value.keys)) &&
    (r.Err? ==>
      r.error.UnexpectedHeaderKey? && r.error.file == file && r.error.position < n &&
      !GateAdmissible(h, r.error.position) &&
      forall i :: 0 <= i < r.error.position ==> GateAdmissible(h, i))
  }

  lemma GateScanMeaningOk(file: string, h: seq<string>, n: nat, r: Result<GateScan>)
    requires n <= |h| && r.Ok? && forall i :: 0 <= i < n ==> GateAdmissible(h, i)
    requires r.value.expected == GateExpectedAfter(h, n) && GateColumnsAfter(h, n, r.value.keys)
    ensures GateScanMeaning(file, h, n, r)
  {
  }

  lemma GateScanMeaningErrStep(file: string, h: seq<string>, m: nat)
    requires m < |h| && GateHeaderScan(file, h, m).Err?
    requires GateScanMeaning(file, h, m, GateHeaderScan(file, h, m))
    ensures GateScanMeaning(file, h, m + 1, GateHeaderScan(file, h, m + 1))
  {
    var prev := GateHeaderScan(file, h, m);
    assert GateHeaderScan(file, h, m + 1) == prev;
    assert !GateAdmissible(h, prev.error.position);
  }


  lemma GateScanAcceptStep(file: string, h: seq<string>, m: nat)
    requires m < |h| && GateHeaderScan(file, h, m).Ok? && GateAdmissible(h, m)
    requires GateScanMeaning(file, h, m, GateHeaderScan(file, h, m))
    ensures GateScanMeaning(file, h, m + 1, GateHeaderScan(file, h, m + 1))
  {
    var s := GateHeaderScan(file, h, m).value;
    var r := GateHeaderStep(file, s, m, h[m]);
    assert GateHeaderScan(file, h, m + 1) == r;
    GateScanAccepted(file, h, m, s, r);
  }

  lemma GateScanAccepted(file: string, h: seq<string>, m: nat, s: GateScan, r: Result<GateScan>)
    requires m < |h| && GateAdmissible(h, m) && forall i :: 0 <= i < m ==> GateAdmissible(h, i)
    requires ScanShape(s) && s.expected == GateExpectedAfter(h, m) && GateColumnsAfter(h, m, s.keys)
    requires r == GateHeaderStep(file, s, m, h[m])
    ensures GateScanMeaning(file, h, m + 1, r)
  {
    GateStepResult(file, h, m, s, r);
    GateAdmissibleExtend(h, m);
    GateScanMeaningOk(file, h, m + 1, r);
  }

  lemma GateStepResult(file: string, h: seq<string>, n: nat, s: GateScan, r: Result<GateScan>)
    requires n < |h| && ScanShape(s) && s.expected == GateExpectedAfter(h, n)
    requires GateColumnsAfter(h, n, s.keys) && GateAdmissible(h, n)
    requires r == GateHeaderStep(file, s, n, h[n])
    ensures r.Ok? && r.value.expected == GateExpectedAfter(h, n + 1) && GateColumnsAfter(h, n + 1, r.value.keys)
  {
    GateStepColumns(file, h, n, s);
    GateStepExpected(file, h, n, s);
  }

  lemma GateAdmissibleExtend(h: seq<string>, m: nat)
    requires m < |h| && GateAdmissible(h, m) && forall i :: 0 <= i < m ==> GateAdmissible(h, i)
    ensures forall i :: 0 <= i < m + 1 ==> GateAdmissible(h, i)
  {
  }

  lemma GateScanRejectStep(file: string, h: seq<string>, m: nat)
    requires m < |h| && GateHeaderScan(file, h, m).Ok? && !GateAdmissible(h, m)
    requires GateScanMeaning(file, h, m, GateHeaderScan(file, h, m))
    ensures GateScanMeaning(file, h, m + 1, GateHeaderScan(file, h, m + 1))
  {
    var s := GateHeaderScan(file, h, m).value;
    assert GateHeaderScan(file, h, m + 1) == GateHeaderStep(file, s, m, h[m]);
    GateStepExpected(file, h, m, s);
    assert GateHeaderScan(file, h, m + 1) == Err(UnexpectedHeaderKey(file, m));
  }


  lemma {:induction false} GateHeaderScanMeaning(file: string, h: seq<string>, n: nat)
    requires n <= |h|
    ensures GateScanMeaning(file, h, n, GateHeaderScan(file, h, n))
    decreases n
  {
    if n == 0 {
      assert h[..0] == [];
      assert GateExpectedAfter(h, 0) == {GATE_NAME, PROMOTER, VARIABLE};
      GateScanMeaningOk(file, h, 0, Ok(INITIAL_GATE_SCAN));
    } else {
      var m := n - 1;
      assert m + 1 == n;
      GateHeaderScanMeaning(file, h, m);
      if GateHeaderScan(file, h, m).Err? {
        GateScanMeaningErrStep(file, h, m);
      } else if GateAdmissible(h, m) {
        GateScanAcceptStep(file, h, m);
      } else {
        GateScanRejectStep(file, h, m);
      }
    }
  }

  /** The header is accepted exactly when every column is acceptable where it stands. */
  lemma GateHeaderAccepted(file: string, h: seq<string>)
    ensures GateHeaderKeys(file, h).Ok? <==> forall i :: 0 <= i < |h| ==> GateAdmissible(h, i)
  {
    GateHeaderScanMeaning(file, h, |h|);
  }

  /** A rejected header is rejected at its first unacceptable column, whose position is reported. */
  lemma GateHeaderRejected(file: string, h: seq<string>)
    ensures GateHeaderKeys(file, h).Err? ==>
      var e := GateHeaderKeys(file, h).error;
      e.UnexpectedHeaderKey? && e.file == file && e.position < |h| && !GateAdmissible(h, e.position) &&
      forall i :: 0 <= i < e.position ==> GateAdmissible(h, i)
  {
    GateHeaderScanMeaning(file, h, |h|);
  }

  /** An accepted header records the `gate_name` and `promoter` columns, and one cassette group per
      `variable` column holding the `part` columns that follow it up to the next `variable`. */
  lemma GateHeaderColumns(file: string, h: seq<string>)
    ensures GateHeaderKeys(file, h).Ok? ==> GateColumnsAfter(h, |h|, GateHeaderKeys(file, h).value)
  {
    GateHeaderScanMeaning(file, h, |h|);
  }

  // ---------------------------------------------------------------------------
  // Rows
  // ---------------------------------------------------------------------------

  /** The row can be read where the cassette loop reads it: at the group's variable column and,
      when that cell is non-empty, at each of its part columns. */
  predicate CassetteFits(c: CassetteColumns, row: Row) {
    c.variable < |row| && (row[c.variable] != "" ==> forall q :: 0 <= q < |c.parts| ==> c.parts[q] < |row|)
  }

  predicate CassettesFit(specs: seq<CassetteColumns>, row: Row) {
    forall j :: 0 <= j < |specs| ==> CassetteFits(specs[j], row)
  }

  /** The row can be read at every column the header records (otherwise the source fails
      with a KeyError or an IndexError, which this model does not cover). */
  predicate GateRowFits(k: GateHeader, row: Row) {
    k.gateName.Some? && k.gateName.value < |row| &&
    k.promoter.Some? && k.promoter.value < |row| &&
    CassettesFit(k.cassettes, row)
  }

  predicate GateRowsFit(k: GateHeader, rows: seq<Row>) {
    forall row :: row in rows && |row| > 0 ==> GateRowFits(k, row)
  }

  predicate HasCassetteFor(cs: seq<Cassette>, variable: string) {
    exists j :: 0 <= j < |cs| && cs[j].mapsToVariable == variable
  }

  /** One step of the cassette loop of a row: the group `spec`, given the `expression_cassettes`
      field so far (`None` while the record has no such field). */
  function CassetteStep(row: Row, spec: CassetteColumns, acc: Option<seq<Cassette>>): Result<Option<seq<Cassette>>>
    requires CassetteFits(spec, row)
  {
    var variable := row[spec.variable];
    if variable == "" then Ok(acc)
    else
      match acc
      case None => Ok(Some([Cassette(variable, NonBlankCells(row, spec.parts))]))
      case Some(cs) =>
        if HasCassetteFor(cs, variable) then Err(VariableAlreadyAdded(variable))
        else Ok(Some(cs + [Cassette(variable, NonBlankCells(row, spec.parts))]))
  }

  /** The `expression_cassettes` field of a row's record after the groups `specs`. */
  function ExpressionCassettes(row: Row, specs: seq<CassetteColumns>): Result<Option<seq<Cassette>>>
    requires CassettesFit(specs, row)
    decreases |specs|
  {
    if specs == [] then Ok(None)
    else
      match ExpressionCassettes(row, specs[..|specs| - 1])
      case Err(e) => Err(e)
      case Ok(acc) => CassetteStep(row, specs[|specs| - 1], acc)
  }

  lemma {:induction false} CassettesErrorPersists(row: Row, specs: seq<CassetteColumns>, m: nat)
    requires m <= |specs| && CassettesFit(specs, row)
    requires CassettesFit(specs[..m], row) && ExpressionCassettes(row, specs[..m]).Err?
    ensures ExpressionCassettes(row, specs) == ExpressionCassettes(row, specs[..m])
    decreases |specs|
  {
    if m == |specs| {
      assert specs[..m] == specs;
    } else {
      var p := specs[..|specs| - 1];
      assert p[..m] == specs[..m];
      CassettesErrorPersists(row, p, m);
    }
  }

  /** Linear search of the cassettes for one that maps to `variable`. */
  method FindCassette(cs: seq<Cassette>, variable: string) returns (found: bool)
    ensures found <==> exists j :: 0 <= j < |cs| && cs[j].mapsToVariable == variable
  {
    found := false;
    var j := 0;
    while j < |cs|
      invariant j <= |cs|
      invariant found <==> exists i :: 0 <= i < j && cs[i].mapsToVariable == variable
    {
      if cs[j].mapsToVariable == variable {
        found := true;
      }
      j := j + 1;
    }
  }

  /** Builds the cassettes of one row, group by group. */
  method CollectCassettes(row: Row, specs: seq<CassetteColumns>) returns (r: Result<Option<seq<Cassette>>>)
    requires CassettesFit(specs, row)
    ensures r == ExpressionCassettes(row, specs)
  {
    var expressionCassettes: Option<seq<Cassette>> := None;
    var g := 0;
    while g < |specs|
      invariant g <= |specs|
      invariant CassettesFit(specs[..g], row)
      invariant ExpressionCassettes(row, specs[..g]) == Ok(expressionCassettes)
    {
      var spec := specs[g];
      assert specs[..g + 1][..g] == specs[..g] && specs[..g + 1][g] == spec;
      assert ExpressionCassettes(row, specs[..g + 1]) == CassetteStep(row, spec, expressionCassettes);
      var variable := row[spec.variable];
      if |variable| > 0 {
        var cassettes: seq<Cassette> := [];
        if expressionCassettes.Some? {
          cassettes := expressionCassettes.value;
          var found := FindCassette(cassettes, variable);
          if found {
            CassettesErrorPersists(row, specs, g + 1);
            return Err(VariableAlreadyAdded(variable));
          }
        }
        // `spec[part] == 0` compares a list with 0 and is never true: the cells are always collected
        var parts := CollectNonBlank(row, spec.parts);
        assert variable != "";
        assert expressionCassettes.Some? ==> !HasCassetteFor(cassettes, variable);
        assert expressionCassettes.None? ==> cassettes + [Cassette(variable, parts)] == [Cassette(variable, parts)];
        assert CassetteStep(row, spec, expressionCassettes) == Ok(Some(cassettes + [Cassette(variable, parts)]));
        expressionCassettes := Some(cassettes + [Cassette(variable, parts)]);
      } else {
        assert CassetteStep(row, spec, expressionCassettes) == Ok(expressionCassettes);
      }
      g := g + 1;
    }
    assert specs[..|specs|] == specs;
    return Ok(expressionCassettes);
  }

  // What a row's cassettes are, stated group by group.

  /** The groups whose variable cell is non-empty, in header order. */
  function NamedCassettes(row: Row, specs: seq<CassetteColumns>): (named: seq<CassetteColumns>)
    requires CassettesFit(specs, row)
    ensures CassettesFit(named, row)
    ensures forall i :: 0 <= i < |named| ==> row[named[i].variable] != ""
    decreases |specs|
  {
    if specs == [] then []
    else
      var last := specs[|specs| - 1];
      NamedCassettes(row, specs[..|specs| - 1]) + (if row[last.variable] == "" then [] else [last])
  }

  /** No group is named exactly when every variable cell is empty. */
  lemma {:induction false} NamedCassettesEmpty(row: Row, specs: seq<CassetteColumns>)
    requires CassettesFit(specs, row)
    ensures |NamedCassettes(row, specs)| == 0 <==> forall j :: 0 <= j < |specs| ==> row[specs[j].variable] == ""
    decreases |specs|
  {
    if specs != [] {
      var p := specs[..|specs| - 1];
      NamedCassettesEmpty(row, p);
      assert forall j :: 0 <= j < |p| ==> p[j] == specs[j];
    }
  }

  /** The cassette a group yields: its variable cell and the non-empty cells of its part columns. */
  function CassetteOf(row: Row, c: CassetteColumns): Cassette
    requires CassetteFits(c, row) && row[c.variable] != ""
  {
    Cassette(row[c.variable], NonBlankCells(row, c.parts))
  }

  /** Named group `b` repeats the variable of an earlier named group. */
  predicate RepeatsEarlier(row: Row, named: seq<CassetteColumns>, b: nat)
    requires CassettesFit(named, row) && b < |named|
  {
    exists a :: 0 <= a < b && row[named[a].variable] == row[named[b].variable]
  }

  lemma RepeatsEarlierPrefix(row: Row, x: seq<CassetteColumns>, y: seq<CassetteColumns>, b: nat)
    requires CassettesFit(y, row) && b < |x| <= |y| && x == y[..|x|]
    ensures CassettesFit(x, row) && (RepeatsEarlier(row, x, b) <==> RepeatsEarlier(row, y, b))
  {
    if RepeatsEarlier(row, y, b) {
      var a :| 0 <= a < b && row[y[a].variable] == row[y[b].variable];
      assert x[a] == y[a] && x[b] == y[b];
    }
  }

  /** The meaning of `ExpressionCassettes` after the groups `specs`. */
  ghost predicate CassettesMeaning(row: Row, specs: seq<CassetteColumns>, r: Result<Option<seq<Cassette>>>)
    requires CassettesFit(specs, row)
  {
    var named := NamedCassettes(row, specs);
    (r.Ok? <==> forall b :: 0 <= b < |named| ==> !RepeatsEarlier(row, named, b)) &&
    (r.Ok? ==> (r.value.None? <==> named == [])) &&
    (r.Ok? && r.value.Some? ==>
      |r.value.value| == |named| &&
      forall j :: 0 <= j < |named| ==> r.value.value[j] == CassetteOf(row, named[j])) &&
    (r.Err? ==> exists b :: FirstRepeat(row, named, b, r.error))
  }

  /** Named group `b` is the first to repeat an earlier variable, and `e` names that variable. */
  predicate FirstRepeat(row: Row, named: seq<CassetteColumns>, b: nat, e: Error)
    requires CassettesFit(named, row)
  {
    b < |named| && RepeatsEarlier(row, named, b) &&
    (forall b' :: 0 <= b' < b ==> !RepeatsEarlier(row, named, b')) &&
    e == VariableAlreadyAdded(row[named[b].variable])
  }

  lemma CassetteStepMeaning(row: Row, specs: seq<CassetteColumns>)
    requires |specs| > 0 && CassettesFit(specs, row)
    requires CassettesMeaning(row, specs[..|specs| - 1], ExpressionCassettes(row, specs[..|specs| - 1]))
    ensures CassettesMeaning(row, specs, ExpressionCassettes(row, specs))
  {
    var p := specs[..|specs| - 1];
    var last := specs[|specs| - 1];
    if ExpressionCassettes(row, p).Err? {
      CassetteErrorStep(row, specs);
    } else if row[last.variable] != "" {
      CassetteNamedStep(row, specs);
    } else {
      CassetteBlankStep(row, specs);
    }
  }

  /** The named groups after `specs` extend those after all but the last group. */
  lemma NamedCassettesStep(row: Row, specs: seq<CassetteColumns>)
    requires |specs| > 0 && CassettesFit(specs, row)
    ensures NamedCassettes(row, specs) ==
      NamedCassettes(row, specs[..|specs| - 1]) +
      (if row[specs[|specs| - 1].variable] == "" then [] else [specs[|specs| - 1]])
  {
  }

  /** The named groups after all but the last group are a prefix of those after `specs`, and
      repeat earlier variables at the same places. */
  lemma NamedCassettesPrefix(row: Row, specs: seq<CassetteColumns>)
    requires |specs| > 0 && CassettesFit(specs, row)
    ensures var np := NamedCassettes(row, specs[..|specs| - 1]);
      var named := NamedCassettes(row, specs);
      && |np| <= |named| && np == named[..|np|]
      && forall b :: 0 <= b < |np| ==> (RepeatsEarlier(row, np, b) <==> RepeatsEarlier(row, named, b))
  {
    var np := NamedCassettes(row, specs[..|specs| - 1]);
    var named := NamedCassettes(row, specs);
    NamedCassettesStep(row, specs);
    assert np == named[..|np|];
    forall b | 0 <= b < |np| ensures RepeatsEarlier(row, np, b) <==> RepeatsEarlier(row, named, b) {
      RepeatsEarlierPrefix(row, np, named, b);
    }
  }

  lemma CassetteErrorStep(row: Row, specs: seq<CassetteColumns>)
    requires |specs| > 0 && CassettesFit(specs, row)
    requires CassettesMeaning(row, specs[..|specs| - 1], ExpressionCassettes(row, specs[..|specs| - 1]))
    requires ExpressionCassettes(row, specs[..|specs| - 1]).Err?
    ensures CassettesMeaning(row, specs, ExpressionCassettes(row, specs))
  {
    var p := specs[..|specs| - 1];
    NamedCassettesPrefix(row, specs);
    assert ExpressionCassettes(row, specs) == ExpressionCassettes(row, p);
    ErrorStepMeaning(row, p, specs[|specs| - 1], NamedCassettes(row, p), NamedCassettes(row, specs),
                     ExpressionCassettes(row, p));
  }

  lemma CassetteNamedStep(row: Row, specs: seq<CassetteColumns>)
    requires |specs| > 0 && CassettesFit(specs, row)
    requires CassettesMeaning(row, specs[..|specs| - 1], ExpressionCassettes(row, specs[..|specs| - 1]))
    requires ExpressionCassettes(row, specs[..|specs| - 1]).Ok? && row[specs[|specs| - 1].variable] != ""
    ensures CassettesMeaning(row, specs, ExpressionCassettes(row, specs))
  {
    var p := specs[..|specs| - 1];
    var last := specs[|specs| - 1];
    var acc := ExpressionCassettes(row, p).value;
    NamedCassettesStep(row, specs);
    NamedCassettesPrefix(row, specs);
    assert ExpressionCassettes(row, specs) == CassetteStep(row, last, acc);
    NamedStepMeaning(row, p, last, NamedCassettes(row, p), NamedCassettes(row, specs), acc);
  }

  lemma CassetteBlankStep(row: Row, specs: seq<CassetteColumns>)
    requires |specs| > 0 && CassettesFit(specs, row)
    requires CassettesMeaning(row, specs[..|specs| - 1], ExpressionCassettes(row, specs[..|specs| - 1]))
    requires ExpressionCassettes(row, specs[..|specs| - 1]).Ok? && row[specs[|specs| - 1].variable] == ""
    ensures CassettesMeaning(row, specs, ExpressionCassettes(row, specs))
  {
    var p := specs[..|specs| - 1];
    assert NamedCassettes(row, specs) == NamedCassettes(row, p);
    assert ExpressionCassettes(row, specs) == ExpressionCassettes(row, p);
  }

  lemma ErrorStepMeaning(row: Row, p: seq<CassetteColumns>, last: CassetteColumns,
                         np: seq<CassetteColumns>, named: seq<CassetteColumns>, prev: Result<Option<seq<Cassette>>>)
    requires CassettesFit(np, row) && CassettesFit(named, row) && |np| <= |named| && np == named[..|np|]
    requires forall b :: 0 <= b < |np| ==> (RepeatsEarlier(row, np, b) <==> RepeatsEarlier(row, named, b))
    requires prev.Err? && exists b :: FirstRepeat(row, np, b, prev.error)
    ensures !(forall b :: 0 <= b < |named| ==> !RepeatsEarlier(row, named, b))
    ensures exists b :: FirstRepeat(row, named, b, prev.error)
  {
    var b: nat :| FirstRepeat(row, np, b, prev.error);
    assert named[b] == np[b];
    assert FirstRepeat(row, named, b, prev.error);
  }

  lemma NamedStepMeaning(row: Row, p: seq<CassetteColumns>, last: CassetteColumns,
                         np: seq<CassetteColumns>, named: seq<CassetteColumns>, acc: Option<seq<Cassette>>)
    requires CassetteFits(last, row) && row[last.variable] != ""
    requires CassettesFit(np, row) && named == np + [last]
    requires forall i :: 0 <= i < |np| ==> row[np[i].variable] != ""
    requires forall b :: 0 <= b < |np| ==> (RepeatsEarlier(row, np, b) <==> RepeatsEarlier(row, named, b))
    requires forall b :: 0 <= b < |np| ==> !RepeatsEarlier(row, np, b)
    requires acc.None? <==> np == []
    requires acc.Some? ==> |acc.value| == |np| && forall j :: 0 <= j < |np| ==> acc.value[j] == CassetteOf(row, np[j])
    ensures CassettesFit(named, row)
    ensures var r := CassetteStep(row, last, acc);
      (r.Ok? <==> forall b :: 0 <= b < |named| ==> !RepeatsEarlier(row, named, b)) &&
      (r.Ok? ==>
        r.value.Some? && |r.value.value| == |named| &&
        forall j :: 0 <= j < |named| ==> r.value.value[j] == CassetteOf(row, named[j])) &&
      (r.Err? ==> exists b :: FirstRepeat(row, named, b, r.error))
  {
    var b := |np|;
    var cell := row[last.variable];
    assert named[b] == last;
    assert forall j :: 0 <= j < |np| ==> named[j] == np[j];
    if acc.Some? {
      var cs := acc.value;
      if HasCassetteFor(cs, cell) {
        var j :| 0 <= j < |cs| && cs[j].mapsToVariable == cell;
        assert cs[j] == CassetteOf(row, np[j]);
        assert RepeatsEarlier(row, named, b);
        assert FirstRepeat(row, named, b, VariableAlreadyAdded(cell));
      } else {
        var cs' := cs + [CassetteOf(row, last)];
        assert CassetteStep(row, last, acc) == Ok(Some(cs'));
        forall j | 0 <= j < |named| ensures cs'[j] == CassetteOf(row, named[j]) {
        }
      }
    } else {
      assert !RepeatsEarlier(row, named, 0);
    }
  }

  lemma {:induction false} ExpressionCassettesMeaningAt(row: Row, specs: seq<CassetteColumns>)
    requires CassettesFit(specs, row)
    ensures CassettesMeaning(row, specs, ExpressionCassettes(row, specs))
    decreases |specs|
  {
    if specs != [] {
      var p := specs[..|specs| - 1];
      ExpressionCassettesMeaningAt(row, p);
      CassetteStepMeaning(row, specs);
    }
  }

  /** A row's cassettes: one per non-empty variable cell, in group order, mapping to that cell and
      holding the non-empty cells of the group's part columns in column order; no field at all when
      every variable cell is empty; and an error naming the first variable that repeats an earlier one. */
  lemma ExpressionCassettesMeaning(row: Row, specs: seq<CassetteColumns>)
    requires CassettesFit(specs, row)
    ensures CassettesMeaning(row, specs, ExpressionCassettes(row, specs))
    ensures ExpressionCassettes(row, specs) == Ok(None) <==>
      forall j :: 0 <= j < |specs| ==> row[specs[j].variable] == ""
  {
    ExpressionCassettesMeaningAt(row, specs);
    NamedCassettesEmpty(row, specs);
  }

  // Rows to records.

  function GateNameOf(k: GateHeader, row: Row): string
    requires GateRowFits(k, row)
  {
    row[k.gateName.value]
  }

  /** One row of the row loop, given the records built from the earlier rows. */
  function GateRow(k: GateHeader, row: Row, earlier: seq<Collection>): Result<Collection>
    requires GateRowFits(k, row)
  {
    var name := GateNameOf(k, row);
    if name == "" then Err(GateNameNotSpecified)
    else if HasKey(earlier, name) then Err(CassettesAlreadySpecified(name))
    else
      match ExpressionCassettes(row, k.cassettes)
      case Err(e) => Err(e)
      case Ok(ec) => Ok(GateParts(name, ec, row[k.promoter.value]))
  }

  /** The `gate_parts` list after the rows `rows`; zero-length rows are skipped. */
  function GateRows(k: GateHeader, rows: seq<Row>): Result<seq<Collection>>
    requires GateRowsFit(k, rows)
    decreases |rows|
  {
    if rows == [] then Ok([])
    else
      var last := rows[|rows| - 1];
      assert forall r :: r in rows[..|rows| - 1] ==> r in rows;
      match GateRows(k, rows[..|rows| - 1])
      case Err(e) => Err(e)
      case Ok(cs) => GateRowAppend(k, last, cs)
  }

  /** One turn of the row loop: a zero-length row is skipped, any other row adds its record or fails. */
  function GateRowAppend(k: GateHeader, row: Row, cs: seq<Collection>): Result<seq<Collection>>
    requires |row| > 0 ==> GateRowFits(k, row)
  {
    if |row| == 0 then Ok(cs)
    else
      match GateRow(k, row, cs)
      case Err(e) => Err(e)
      case Ok(c) => Ok(cs + [c])
  }

  /** The fold after `i + 1` rows is one more turn of the loop after `i` rows. */
  lemma GateRowsStep(k: GateHeader, rows: seq<Row>, i: nat, cs: seq<Collection>)
    requires i < |rows| && GateRowsFit(k, rows) && GateRowsFit(k, rows[..i]) && GateRows(k, rows[..i]) == Ok(cs)
    ensures GateRowsFit(k, rows[..i + 1])
    ensures GateRows(k, rows[..i + 1]) == GateRowAppend(k, rows[i], cs)
  {
    assert rows[..i + 1][..i] == rows[..i];
    assert forall x :: x in rows[..i + 1] ==> x in rows;
  }

  lemma {:induction false} GateRowsErrorPersists(k: GateHeader, rows: seq<Row>, m: nat)
    requires m <= |rows| && GateRowsFit(k, rows) && GateRowsFit(k, rows[..m]) && GateRows(k, rows[..m]).Err?
    ensures GateRows(k, rows) == GateRows(k, rows[..m])
    decreases |rows|
  {
    if m == |rows| {
      assert rows[..m] == rows;
    } else {
      var p := rows[..|rows| - 1];
      assert p[..m] == rows[..m];
      assert forall r :: r in p ==> r in rows;
      GateRowsErrorPersists(k, p, m);
    }
  }

  /** The row loop: one `gate_parts` record per non-empty row. */
  method CollectGateParts(k: GateHeader, rows: seq<Row>) returns (r: Result<seq<Collection>>)
    requires GateRowsFit(k, rows)
    ensures r == GateRows(k, rows)
  {
    var gateParts: seq<Collection> := [];
    var i := 0;
    while i < |rows|
      invariant i <= |rows|
      invariant GateRowsFit(k, rows[..i])
      invariant GateRows(k, rows[..i]) == Ok(gateParts)
    {
      var row := rows[i];
      GateRowsStep(k, rows, i, gateParts);
      if |row| > 0 {
        var name := row[k.gateName.value];
        if |name| == 0 {
          GateRowsErrorPersists(k, rows, i + 1);
          return Err(GateNameNotSpecified);
        }
        var found := FindByKey(gateParts, name);
        if found {
          GateRowsErrorPersists(k, rows, i + 1);
          return Err(CassettesAlreadySpecified(name));
        }
        var cassettes := CollectCassettes(row, k.cassettes);
        if cassettes.Err? {
          GateRowsErrorPersists(k, rows, i + 1);
          return Err(cassettes.error);
        }
        gateParts := gateParts + [GateParts(name, cassettes.value, row[k.promoter.value])];
      }
      i := i + 1;
    }
    assert rows[..|rows|] == rows;
    return Ok(gateParts);
  }

  // What the row loop yields, stated row by row.

  /** A row is acceptable on its own: it names a gate and no variable twice. */
  predicate GateRowAcceptable(k: GateHeader, row: Row)
    requires GateRowFits(k, row)
  {
    GateNameOf(k, row) != "" && ExpressionCassettes(row, k.cassettes).Ok?
  }

  /** The record an acceptable row yields: its gate name, its cassettes and its promoter cell as it is. */
  function GateRecord(k: GateHeader, row: Row): Collection
    requires GateRowFits(k, row) && GateRowAcceptable(k, row)
  {
    GateParts(GateNameOf(k, row), ExpressionCassettes(row, k.cassettes).value, row[k.promoter.value])
  }

  predicate EachGateRowFits(k: GateHeader, ne: seq<Row>) {
    forall i :: 0 <= i < |ne| ==> GateRowFits(k, ne[i])
  }

  /** Every row is acceptable and no two rows name the same gate. */
  predicate GateRowsOk(k: GateHeader, ne: seq<Row>)
    requires EachGateRowFits(k, ne)
  {
    (forall i :: 0 <= i < |ne| ==> GateRowAcceptable(k, ne[i])) &&
    (forall a, b :: 0 <= a < b < |ne| ==> GateNameOf(k, ne[a]) != GateNameOf(k, ne[b]))
  }

  /** `cs` holds the record of each row, in row order. */
  predicate GateRecordsOf(k: GateHeader, ne: seq<Row>, cs: seq<Collection>)
    requires EachGateRowFits(k, ne)
  {
    |cs| == |ne| &&
    forall i :: 0 <= i < |ne| ==> GateRowAcceptable(k, ne[i]) && cs[i] == GateRecord(k, ne[i])
  }

  lemma NonEmptyGateRowsFit(k: GateHeader, rows: seq<Row>)
    requires GateRowsFit(k, rows)
    ensures EachGateRowFits(k, NonEmptyRows(rows))
  {
  }

  /** The meaning of the row loop's result after `rows`. */
  ghost predicate GateRowsMeaning(k: GateHeader, rows: seq<Row>, r: Result<seq<Collection>>)
    requires GateRowsFit(k, rows)
  {
    NonEmptyGateRowsFit(k, rows);
    var ne := NonEmptyRows(rows);
    (r.Ok? <==> GateRowsOk(k, ne)) && (r.Ok? ==> GateRecordsOf(k, ne, r.value))
  }

  lemma GateRowsOkPrefix(k: GateHeader, ne: seq<Row>)
    requires |ne| > 0 && EachGateRowFits(k, ne) && GateRowsOk(k, ne)
    ensures EachGateRowFits(k, ne[..|ne| - 1]) && GateRowsOk(k, ne[..|ne| - 1])
  {
  }

  /** Adding one row to rows that are fine: the result is fine exactly when the new row is
      acceptable and its gate name is not among the records so far. */
  lemma GateRowsOkExtend(k: GateHeader, ne: seq<Row>, cs: seq<Collection>)
    requires |ne| > 0 && EachGateRowFits(k, ne)
    requires EachGateRowFits(k, ne[..|ne| - 1])
    requires GateRowsOk(k, ne[..|ne| - 1]) && GateRecordsOf(k, ne[..|ne| - 1], cs)
    ensures GateRowsOk(k, ne) <==>
      GateRowAcceptable(k, ne[|ne| - 1]) && !HasKey(cs, GateNameOf(k, ne[|ne| - 1]))
    ensures GateRowsOk(k, ne) ==> GateRecordsOf(k, ne, cs + [GateRecord(k, ne[|ne| - 1])])
  {
    var last := ne[|ne| - 1];
    if GateRowAcceptable(k, last) {
      if HasKey(cs, GateNameOf(k, last)) {
        GateRowsDuplicate(k, ne, ne[..|ne| - 1], cs);
      } else {
        GateRowsFresh(k, ne, ne[..|ne| - 1], cs);
      }
    }
  }

  /** A new row whose gate name is already recorded makes the rows not fine. */
  lemma GateRowsDuplicate(k: GateHeader, ne: seq<Row>, np: seq<Row>, cs: seq<Collection>)
    requires |ne| > 0 && EachGateRowFits(k, ne) && np == ne[..|ne| - 1] && EachGateRowFits(k, np)
    requires GateRecordsOf(k, np, cs) && GateRowAcceptable(k, ne[|ne| - 1])
    requires HasKey(cs, GateNameOf(k, ne[|ne| - 1]))
    ensures !GateRowsOk(k, ne)
  {
    var b := |np|;
    var j :| 0 <= j < |cs| && Key(cs[j]) == GateNameOf(k, ne[b]);
    assert ne[j] == np[j];
    assert cs[j] == GateRecord(k, np[j]);
    assert GateNameOf(k, ne[j]) == GateNameOf(k, ne[b]);
  }

  /** A new acceptable row whose gate name is not recorded keeps the rows fine and adds its record. */
  lemma GateRowsFresh(k: GateHeader, ne: seq<Row>, np: seq<Row>, cs: seq<Collection>)
    requires |ne| > 0 && EachGateRowFits(k, ne) && np == ne[..|ne| - 1] && EachGateRowFits(k, np)
    requires GateRowsOk(k, np) && GateRecordsOf(k, np, cs) && GateRowAcceptable(k, ne[|ne| - 1])
    requires !HasKey(cs, GateNameOf(k, ne[|ne| - 1]))
    ensures GateRowsOk(k, ne) && GateRecordsOf(k, ne, cs + [GateRecord(k, ne[|ne| - 1])])
  {
    GateFreshName(k, ne, np, cs);
    assert forall i :: 0 <= i < |np| ==> ne[i] == np[i];
  }

  /** The gate name of a new row that is not recorded differs from that of every earlier row. */
  lemma GateFreshName(k: GateHeader, ne: seq<Row>, np: seq<Row>, cs: seq<Collection>)
    requires |ne| > 0 && EachGateRowFits(k, ne) && np == ne[..|ne| - 1] && EachGateRowFits(k, np)
    requires GateRecordsOf(k, np, cs) && !HasKey(cs, GateNameOf(k, ne[|ne| - 1]))
    ensures forall a :: 0 <= a < |np| ==> GateNameOf(k, ne[a]) != GateNameOf(k, ne[|np|])
  {
    forall a | 0 <= a < |np|
      ensures GateNameOf(k, ne[a]) != GateNameOf(k, ne[|np|])
    {
      assert ne[a] == np[a];
      assert Key(cs[a]) == GateNameOf(k, np[a]);
    }
  }

  lemma GateRowStepMeaning(k: GateHeader, rows: seq<Row>)
    requires |rows| > 0 && GateRowsFit(k, rows)
    requires GateRowsFit(k, rows[..|rows| - 1])
    requires GateRowsMeaning(k, rows[..|rows| - 1], GateRows(k, rows[..|rows| - 1]))
    ensures GateRowsMeaning(k, rows, GateRows(k, rows))
  {
    var p := rows[..|rows| - 1];
    var last := rows[|rows| - 1];
    NonEmptyGateRowsFit(k, p);
    NonEmptyGateRowsFit(k, rows);
    var np := NonEmptyRows(p);
    var ne := NonEmptyRows(rows);
    var prev := GateRows(k, p);
    if |last| == 0 {
      assert ne == np;
    } else {
      assert ne == np + [last];
      assert ne[..|ne| - 1] == np;
      if prev.Err? {
        if GateRowsOk(k, ne) {
          GateRowsOkPrefix(k, ne);
        }
      } else {
        GateRowsOkExtend(k, ne, prev.value);
      }
    }
  }

  lemma {:induction false} GateRowsMeaningAt(k: GateHeader, rows: seq<Row>)
    requires GateRowsFit(k, rows)
    ensures GateRowsMeaning(k, rows, GateRows(k, rows))
    decreases |rows|
  {
    if rows != [] {
      var p := rows[..|rows| - 1];
      assert forall r :: r in p ==> r in rows;
      GateRowsMeaningAt(k, p);
      GateRowStepMeaning(k, rows);
    }
  }

  /** The row loop succeeds exactly when every non-empty row names a gate, names no variable twice,
      and no two non-empty rows name the same gate; it then yields one record per non-empty row,
      in row order. */
  lemma GateRowsResult(k: GateHeader, rows: seq<Row>)
    requires GateRowsFit(k, rows)
    ensures EachGateRowFits(k, NonEmptyRows(rows))
    ensures GateRows(k, rows).Ok? <==> GateRowsOk(k, NonEmptyRows(rows))
    ensures GateRows(k, rows).Ok? ==> GateRecordsOf(k, NonEmptyRows(rows), GateRows(k, rows).value)
  {
    GateRowsMeaningAt(k, rows);
  }

  /** Some earlier row names the same gate as row `i`. */
  predicate GateNamedEarlier(k: GateHeader, ne: seq<Row>, i: nat)
    requires EachGateRowFits(k, ne) && i < |ne|
  {
    exists a :: 0 <= a < i && GateNameOf(k, ne[a]) == GateNameOf(k, ne[i])
  }

  /** The error row `i` raises given the rows before it, stated on the rows themselves. */
  function GateRowError(k: GateHeader, ne: seq<Row>, i: nat): Option<Error>
    requires EachGateRowFits(k, ne) && i < |ne|
  {
    var row := ne[i];
    var name := GateNameOf(k, row);
    if name == "" then Some(GateNameNotSpecified)
    else if GateNamedEarlier(k, ne, i) then Some(CassettesAlreadySpecified(name))
    else if ExpressionCassettes(row, k.cassettes).Err? then Some(ExpressionCassettes(row, k.cassettes).error)
    else None
  }

  /** Row `i` is the first row that raises an error, and that error is `e`. */
  predicate FirstGateError(k: GateHeader, ne: seq<Row>, i: nat, e: Error)
    requires EachGateRowFits(k, ne)
  {
    i < |ne| && GateRowError(k, ne, i) == Some(e) &&
    forall a :: 0 <= a < i ==> GateRowError(k, ne, a).None?
  }

  lemma GateRowErrorPrefix(k: GateHeader, ne: seq<Row>, a: nat)
    requires |ne| > 0 && EachGateRowFits(k, ne) && a < |ne| - 1
    ensures EachGateRowFits(k, ne[..|ne| - 1])
    ensures GateRowError(k, ne[..|ne| - 1], a) == GateRowError(k, ne, a)
  {
    var np := ne[..|ne| - 1];
    assert forall b :: 0 <= b <= a ==> np[b] == ne[b];
    assert GateNamedEarlier(k, np, a) <==> GateNamedEarlier(k, ne, a);
  }

  /** Rows that are fine raise no error. */
  lemma GateRowsOkNoError(k: GateHeader, ne: seq<Row>)
    requires EachGateRowFits(k, ne) && GateRowsOk(k, ne)
    ensures forall a :: 0 <= a < |ne| ==> GateRowError(k, ne, a).None?
  {
    forall a | 0 <= a < |ne|
      ensures GateRowError(k, ne, a).None?
    {
      assert !GateNamedEarlier(k, ne, a);
    }
  }

  /** After rows that are fine, the next row fails as `GateRowError` says. */
  lemma GateRowErrorAfterOk(k: GateHeader, ne: seq<Row>, cs: seq<Collection>)
    requires |ne| > 0 && EachGateRowFits(k, ne)
    requires EachGateRowFits(k, ne[..|ne| - 1])
    requires GateRowsOk(k, ne[..|ne| - 1]) && GateRecordsOf(k, ne[..|ne| - 1], cs)
    ensures GateRow(k, ne[|ne| - 1], cs).Err? <==> GateRowError(k, ne, |ne| - 1).Some?
    ensures GateRow(k, ne[|ne| - 1], cs).Err? ==>
      GateRowError(k, ne, |ne| - 1) == Some(GateRow(k, ne[|ne| - 1], cs).error)
  {
    var np := ne[..|ne| - 1];
    var b := |np|;
    var name := GateNameOf(k, ne[b]);
    assert forall i :: 0 <= i < b ==> ne[i] == np[i];
    if HasKey(cs, name) {
      var j :| 0 <= j < |cs| && Key(cs[j]) == name;
      assert cs[j] == GateRecord(k, np[j]);
      assert GateNameOf(k, ne[j]) == name;
    }
    if GateNamedEarlier(k, ne, b) {
      var a :| 0 <= a < b && GateNameOf(k, ne[a]) == name;
      assert cs[a] == GateRecord(k, np[a]);
      assert Key(cs[a]) == name;
    }
  }

  /** The first failing row among all but the last is still the first failing row. */
  lemma FirstGateErrorKept(k: GateHeader, ne: seq<Row>, i: nat, e: Error)
    requires |ne| > 0 && EachGateRowFits(k, ne) && EachGateRowFits(k, ne[..|ne| - 1])
    requires FirstGateError(k, ne[..|ne| - 1], i, e)
    ensures FirstGateError(k, ne, i, e)
  {
    forall a | 0 <= a <= i
      ensures GateRowError(k, ne, a) == GateRowError(k, ne[..|ne| - 1], a)
    {
      GateRowErrorPrefix(k, ne, a);
    }
  }

  /** After rows that are fine, a failing last row is the first failing row. */
  lemma FirstGateErrorLast(k: GateHeader, ne: seq<Row>, cs: seq<Collection>)
    requires |ne| > 0 && EachGateRowFits(k, ne) && EachGateRowFits(k, ne[..|ne| - 1])
    requires GateRowsOk(k, ne[..|ne| - 1]) && GateRecordsOf(k, ne[..|ne| - 1], cs)
    ensures GateRow(k, ne[|ne| - 1], cs).Err? ==>
      FirstGateError(k, ne, |ne| - 1, GateRow(k, ne[|ne| - 1], cs).error)
  {
    var np := ne[..|ne| - 1];
    GateRowsOkNoError(k, np);
    forall a | 0 <= a < |np|
      ensures GateRowError(k, ne, a).None?
    {
      GateRowErrorPrefix(k, ne, a);
    }
    GateRowErrorAfterOk(k, ne, cs);
  }

  lemma {:induction false} GateRowsErrorAt(k: GateHeader, rows: seq<Row>)
    requires GateRowsFit(k, rows)
    ensures EachGateRowFits(k, NonEmptyRows(rows))
    ensures GateRows(k, rows).Err? ==>
      exists i :: FirstGateError(k, NonEmptyRows(rows), i, GateRows(k, rows).error)
    decreases |rows|
  {
    NonEmptyGateRowsFit(k, rows);
    if rows != [] {
      var p := rows[..|rows| - 1];
      var last := rows[|rows| - 1];
      assert forall r :: r in p ==> r in rows;
      GateRowsErrorAt(k, p);
      var np := NonEmptyRows(p);
      var ne := NonEmptyRows(rows);
      var prev := GateRows(k, p);
      if |last| == 0 {
        assert ne == np;
      } else {
        assert ne == np + [last];
        assert ne[..|ne| - 1] == np && ne[|ne| - 1] == last;
        if prev.Err? {
          var i :| FirstGateError(k, np, i, prev.error);
          FirstGateErrorKept(k, ne, i, prev.error);
        } else {
          GateRowsMeaningAt(k, p);
          FirstGateErrorLast(k, ne, prev.value);
        }
      }
    }
  }

  /** A failing row loop fails at its first non-empty row that lacks a gate name, repeats an
      earlier row's gate name, or names a variable twice, checked in that order; the error says which. */
  lemma GateRowsRejected(k: GateHeader, rows: seq<Row>)
    requires GateRowsFit(k, rows)
    ensures EachGateRowFits(k, NonEmptyRows(rows))
    ensures GateRows(k, rows).Err? ==>
      exists i :: FirstGateError(k, NonEmptyRows(rows), i, GateRows(k, rows).error)
  {
    GateRowsErrorAt(k, rows);
  }

  // The whole stage.

  /** The rows can be read at every column an accepted header records. */
  predicate GateStageFits(t: Table) {
    match GateHeaderKeys(t.file, t.header)
    case Err(_) => true
    case Ok(k) => GateRowsFit(k, t.rows)
  }

  /** The collections the stage appends: the header scan, then the row loop. */
  function GatePartsOf(t: Table): Result<seq<Collection>>
    requires GateStageFits(t)
  {
    match GateHeaderKeys(t.file, t.header)
    case Err(e) => Err(e)
    case Ok(k) => GateRows(k, t.rows)
  }

  /** Reads the gate-parts table and appends its records to the document. */
  method AddGateParts(t: Table, ucf: Document) returns (r: Outcome)
    requires GateStageFits(t)
    modifies ucf
    ensures GatePartsOf(t).Ok? ==> r == Pass && ucf.entries == old(ucf.entries) + GatePartsOf(t).value
    ensures GatePartsOf(t).Err? ==> r == Fail(GatePartsOf(t).error) && ucf.entries == old(ucf.entries)
  {
    var keys := ScanGatePartsHeader(t.file, t.header);
    if keys.Err? {
      return Fail(keys.error);
    }
    var gateParts := CollectGateParts(keys.value, t.rows);
    if gateParts.Err? {
      return Fail(gateParts.error);
    }
    ucf.Extend(gateParts.value);
    return Pass;
  }
}
