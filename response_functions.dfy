/** The response-functions stage: a header of `gate_name`, `equation`, repeated `variable_name`
    groups (each with its `off_threshold` and `on_threshold` columns) and repeated `parameter_name`
    groups (each with its `value` column); one `response_functions` record per data row. */
module ResponseFunctionsStage {
  import opened Ucf
  import opened Tables

  const GATE_NAME := "gate_name"
  const EQUATION := "equation"
  const VARIABLE_NAME := "variable_name"
  const OFF_THRESHOLD := "off_threshold"
  const ON_THRESHOLD := "on_threshold"
  const PARAMETER_NAME := "parameter_name"
  const PARAMETER_VALUE := "value"

  // ---------------------------------------------------------------------------
  // Header
  // ---------------------------------------------------------------------------

  /** The columns of one variable group: its `variable_name` column and, once seen, its thresholds. */
  datatype VariableColumns = VariableColumns(name: nat, offThreshold: Option<nat>, onThreshold: Option<nat>)

  /** The columns of one parameter group: its `parameter_name` column and, once seen, its `value`. */
  datatype ParameterColumns = ParameterColumns(name: nat, value: Option<nat>)

  /** What the header scan records about the columns. */
  datatype RfHeader = RfHeader(gateName: Option<nat>, equation: Option<nat>,
                               variables: seq<VariableColumns>, parameters: seq<ParameterColumns>)

  /** The state of the header scan: the names it expects next, and what it has recorded. */
  datatype RfScan = RfScan(expected: set<string>, keys: RfHeader)

  const RF_NAMES := {GATE_NAME, EQUATION, VARIABLE_NAME, OFF_THRESHOLD, ON_THRESHOLD, PARAMETER_NAME, PARAMETER_VALUE}

  /** The seven column names are pairwise different (`off_threshold` and `variable_name`, of equal
      length, differ in their first letter). */
  lemma RfNamesDistinct()
    ensures GATE_NAME != EQUATION
    ensures GATE_NAME != VARIABLE_NAME
    ensures GATE_NAME != OFF_THRESHOLD
    ensures GATE_NAME != ON_THRESHOLD
    ensures GATE_NAME != PARAMETER_NAME
    ensures GATE_NAME != PARAMETER_VALUE
    ensures EQUATION != VARIABLE_NAME
    ensures EQUATION != OFF_THRESHOLD
    ensures EQUATION != ON_THRESHOLD
    ensures EQUATION != PARAMETER_NAME
    ensures EQUATION != PARAMETER_VALUE
    ensures VARIABLE_NAME != OFF_THRESHOLD
    ensures VARIABLE_NAME != ON_THRESHOLD
    ensures VARIABLE_NAME != PARAMETER_NAME
    ensures VARIABLE_NAME != PARAMETER_VALUE
    ensures OFF_THRESHOLD != ON_THRESHOLD
    ensures OFF_THRESHOLD != PARAMETER_NAME
    ensures OFF_THRESHOLD != PARAMETER_VALUE
    ensures ON_THRESHOLD != PARAMETER_NAME
    ensures ON_THRESHOLD != PARAMETER_VALUE
    ensures PARAMETER_NAME != PARAMETER_VALUE
  {
    assert OFF_THRESHOLD[0] != VARIABLE_NAME[0];
  }

  const INITIAL_RF_SCAN := RfScan({GATE_NAME, EQUATION, VARIABLE_NAME, PARAMETER_NAME}, RfHeader(None, None, [], []))

  /** The names a `gate_name` or `equation` column stops expecting, besides itself. */
  const GROUP_FIELDS := [PARAMETER_VALUE, OFF_THRESHOLD, ON_THRESHOLD]

  /** The shape every reachable scan state has: a threshold is expected only once some variable
      group is open, a value only once some parameter group is. */
  predicate RfShape(s: RfScan) {
    (OFF_THRESHOLD in s.expected ==> |s.keys.variables| > 0) &&
    (ON_THRESHOLD in s.expected ==> |s.keys.variables| > 0) &&
    (PARAMETER_VALUE in s.expected ==> |s.keys.parameters| > 0)
  }

  /** One step of the header loop: column `i` holds `key`. */
  function RfHeaderStep(file: string, s: RfScan, i: nat, key: string): (r: Result<RfScan>)
    requires RfShape(s)
    ensures r.Ok? ==> RfShape(r.value)
    ensures r.Err? <==> key !in s.expected
    ensures r.Err? ==> r.error == UnexpectedHeaderKey(file, i)
  {
    var k := s.keys;
    if key !in s.expected then Err(UnexpectedHeaderKey(file, i))
    else if key == GATE_NAME then
      Ok(RfScan(s.expected - {GATE_NAME} - {PARAMETER_VALUE, OFF_THRESHOLD, ON_THRESHOLD}, k.(gateName := Some(i))))
    else if key == EQUATION then
      Ok(RfScan(s.expected - {EQUATION} - {PARAMETER_VALUE, OFF_THRESHOLD, ON_THRESHOLD}, k.(equation := Some(i))))
    else if key == VARIABLE_NAME then
      Ok(RfScan(s.expected + {OFF_THRESHOLD, ON_THRESHOLD} - {PARAMETER_VALUE},
                k.(variables := k.variables + [VariableColumns(i, None, None)])))
    else if key == OFF_THRESHOLD then
      // attach the column to the variable group opened last
      var vs := k.variables;
      var last := vs[|vs| - 1];
      Ok(RfScan(s.expected - {OFF_THRESHOLD}, k.(variables := vs[|vs| - 1 := last.(offThreshold := Some(i))])))
    else if key == ON_THRESHOLD then
      var vs := k.variables;
      var last := vs[|vs| - 1];
      Ok(RfScan(s.expected - {ON_THRESHOLD}, k.(variables := vs[|vs| - 1 := last.(onThreshold := Some(i))])))
    else if key == PARAMETER_NAME then
      Ok(RfScan(s.expected + {PARAMETER_VALUE}, k.(parameters := k.parameters + [ParameterColumns(i, None)])))
    else if key == PARAMETER_VALUE then
      // attach the column to the parameter group opened last
      var ps := k.parameters;
      var last := ps[|ps| - 1];
      Ok(RfScan(s.expected - {PARAMETER_VALUE}, k.(parameters := ps[|ps| - 1 := last.(value := Some(i))])))
    else
      // an expected name outside the seven changes nothing (no reachable scan state expects one)
      Ok(s)
  }

  /** The scan after the first `n` columns of `h`. */
  function RfHeaderScan(file: string, h: seq<string>, n: nat): (r: Result<RfScan>)
    requires n <= |h|
    ensures r.Ok? ==> RfShape(r.value)
    decreases n
  {
    if n == 0 then Ok(INITIAL_RF_SCAN)
    else
      match RfHeaderScan(file, h, n - 1)
      case Err(e) => Err(e)
      case Ok(s) => RfHeaderStep(file, s, n - 1, h[n - 1])
  }

  /** What scanning the whole header yields. */
  function RfHeaderKeys(file: string, h: seq<string>): Result<RfHeader> {
    match RfHeaderScan(file, h, |h|)
    case Err(e) => Err(e)
    case Ok(s) => Ok(s.keys)
  }

  /** The scan after `i + 1` columns is one more step after `i` columns. */
  lemma RfHeaderScanStep(file: string, h: seq<string>, i: nat, s: RfScan)
    requires i < |h| && RfHeaderScan(file, h, i) == Ok(s)
    ensures RfHeaderScan(file, h, i + 1) == RfHeaderStep(file, s, i, h[i])
  {
  }

  lemma {:induction false} RfHeaderErrorPersists(file: string, h: seq<string>, m: nat, n: nat)
    requires m <= n <= |h| && RfHeaderScan(file, h, m).Err?
    ensures RfHeaderScan(file, h, n) == RfHeaderScan(file, h, m)
    decreases n
  {
    if m < n {
      RfHeaderErrorPersists(file, h, m, n - 1);
    }
  }

  /** Removes each of `names` from `expected` where it is present. */
  method Discard(expected: set<string>, names: seq<string>) returns (rest: set<string>)
    ensures forall x :: x in rest <==> x in expected && x !in names
  {
    rest := expected;
    var q := 0;
    while q < |names|
      invariant q <= |names|
      invariant forall x :: x in rest <==> x in expected && x !in names[..q]
    {
      assert names[..q + 1] == names[..q] + [names[q]];
      if names[q] in rest {
        rest := rest - {names[q]};
      }
      q := q + 1;
    }
    assert names[..|names|] == names;
  }

  /** One turn of the header loop: column `i` holds `key`, the scan so far expects `expected` and
      has recorded `headerKeys`. */
  method ScanRfColumn(file: string, expected: set<string>, headerKeys: RfHeader, i: nat, key: string)
    returns (r: Result<RfScan>)
    requires RfShape(RfScan(expected, headerKeys))
    ensures r == RfHeaderStep(file, RfScan(expected, headerKeys), i, key)
  {
    if key !in expected {
      return Err(UnexpectedHeaderKey(file, i));
    }
    if key == GATE_NAME {
      var rest := Discard(expected - {GATE_NAME}, GROUP_FIELDS);
      assert rest == expected - {GATE_NAME} - {PARAMETER_VALUE, OFF_THRESHOLD, ON_THRESHOLD};
      return Ok(RfScan(rest, headerKeys.(gateName := Some(i))));
    } else if key == EQUATION {
      var rest := Discard(expected - {EQUATION}, GROUP_FIELDS);
      assert rest == expected - {EQUATION} - {PARAMETER_VALUE, OFF_THRESHOLD, ON_THRESHOLD};
      return Ok(RfScan(rest, headerKeys.(equation := Some(i))));
    } else if key == VARIABLE_NAME {
      var rest := expected + {OFF_THRESHOLD, ON_THRESHOLD};
      if PARAMETER_VALUE in rest {
        rest := rest - {PARAMETER_VALUE};
      } else {
        assert rest - {PARAMETER_VALUE} == rest;
      }
      return Ok(RfScan(rest, headerKeys.(variables := headerKeys.variables + [VariableColumns(i, None, None)])));
    } else if key == OFF_THRESHOLD {
      var last := |headerKeys.variables| - 1;
      var variable := headerKeys.variables[last];
      return Ok(RfScan(expected - {OFF_THRESHOLD},
                       headerKeys.(variables := headerKeys.variables[last := variable.(offThreshold := Some(i))])));
    } else if key == ON_THRESHOLD {
      var last := |headerKeys.variables| - 1;
      var variable := headerKeys.variables[last];
      return Ok(RfScan(expected - {ON_THRESHOLD},
                       headerKeys.(variables := headerKeys.variables[last := variable.(onThreshold := Some(i))])));
    } else if key == PARAMETER_NAME {
      return Ok(RfScan(expected + {PARAMETER_VALUE},
                       headerKeys.(parameters := headerKeys.parameters + [ParameterColumns(i, None)])));
    } else if key == PARAMETER_VALUE {
      var last := |headerKeys.parameters| - 1;
      var parameter := headerKeys.parameters[last];
      return Ok(RfScan(expected - {PARAMETER_VALUE},
                       headerKeys.(parameters := headerKeys.parameters[last := parameter.(value := Some(i))])));
    }
    return Ok(RfScan(expected, headerKeys));
  }

  /** Scans the header left to right, updating the expected set and the recorded columns. */
  method ScanResponseFunctionsHeader(file: string, header: seq<string>) returns (r: Result<RfHeader>)
    ensures r == RfHeaderKeys(file, header)
  {
    var headerKeys := RfHeader(None, None, [], []);
    var expected := {GATE_NAME, EQUATION, VARIABLE_NAME, PARAMETER_NAME};
    assert RfScan(expected, headerKeys) == INITIAL_RF_SCAN;
    var i := 0;
    while i < |header|
      invariant i <= |header|
      invariant RfHeaderScan(file, header, i) == Ok(RfScan(expected, headerKeys))
    {
      var step := ScanRfColumn(file, expected, headerKeys, i, header[i]);
      RfHeaderScanStep(file, header, i, RfScan(expected, headerKeys));
      if step.Err? {
        RfHeaderErrorPersists(file, header, i + 1, |header|);
        return Err(step.error);
      }
      expected := step.value.expected;
      headerKeys := step.value.keys;
      i := i + 1;
    }
    return Ok(headerKeys);
  }

  // What the header grammar means, stated column by column.

  /** The columns after which a threshold or a value is no longer expected. */
  const OFF_CLOSERS := {OFF_THRESHOLD, GATE_NAME, EQUATION}
  const ON_CLOSERS := {ON_THRESHOLD, GATE_NAME, EQUATION}
  const VALUE_CLOSERS := {PARAMETER_VALUE, VARIABLE_NAME, GATE_NAME, EQUATION}

  /** Column `i` is acceptable where it stands: `gate_name` and `equation` the first time,
      `variable_name` and `parameter_name` always, a threshold when a `variable_name` column came
      before it with no same threshold, `gate_name` or `equation` in between, and `value` when a
      `parameter_name` came before it with no `value`, `variable_name`, `gate_name` or `equation` in between. */
  predicate RfAdmissible(h: seq<string>, i: nat)
    requires i < |h|
  {
    (h[i] == GATE_NAME && GATE_NAME !in h[..i]) ||
    (h[i] == EQUATION && EQUATION !in h[..i]) ||
    h[i] == VARIABLE_NAME ||
    h[i] == PARAMETER_NAME ||
    (h[i] == OFF_THRESHOLD && Open(h, i, VARIABLE_NAME, OFF_CLOSERS)) ||
    (h[i] == ON_THRESHOLD && Open(h, i, VARIABLE_NAME, ON_CLOSERS)) ||
    (h[i] == PARAMETER_VALUE && Open(h, i, PARAMETER_NAME, VALUE_CLOSERS))
  }

  /** `e` is the set of names expected after the first `n` columns. */
  predicate RfExpects(h: seq<string>, n: nat, e: set<string>)
    requires n <= |h|
  {
    e <= RF_NAMES &&
    VARIABLE_NAME in e && PARAMETER_NAME in e &&
    (GATE_NAME in e <==> GATE_NAME !in h[..n]) &&
    (EQUATION in e <==> EQUATION !in h[..n]) &&
    (OFF_THRESHOLD in e <==> Open(h, n, VARIABLE_NAME, OFF_CLOSERS)) &&
    (ON_THRESHOLD in e <==> Open(h, n, VARIABLE_NAME, ON_CLOSERS)) &&
    (PARAMETER_VALUE in e <==> Open(h, n, PARAMETER_NAME, VALUE_CLOSERS))
  }

  /** Variable group `j`, opened at `vs[j]`, holds the threshold columns that stand between it and
      the next group (or column `n`). */
  ghost predicate VariableAt(h: seq<string>, n: nat, vs: seq<nat>, v: VariableColumns, j: nat)
    requires n <= |h| && j < |vs| && forall a :: 0 <= a < |vs| ==> vs[a] < n
  {
    v.name == vs[j] &&
    AttachedIn(h, n, vs, j, OFF_THRESHOLD, v.offThreshold) &&
    AttachedIn(h, n, vs, j, ON_THRESHOLD, v.onThreshold)
  }

  /** One variable group per `variable_name` column among the first `n`, in header order. */
  ghost predicate VariablesAfter(h: seq<string>, n: nat, variables: seq<VariableColumns>)
    requires n <= |h|
  {
    var vs := PositionsIn(h, VARIABLE_NAME, 0, n);
    |variables| == |vs| &&
    forall j :: 0 <= j < |vs| ==> VariableAt(h, n, vs, variables[j], j)
  }

  /** Parameter group `j`, opened at `ps[j]`, holds the `value` column that stands between it and
      the next parameter group (or column `n`). */
  ghost predicate ParameterAt(h: seq<string>, n: nat, ps: seq<nat>, p: ParameterColumns, j: nat)
    requires n <= |h| && j < |ps| && forall a :: 0 <= a < |ps| ==> ps[a] < n
  {
    p.name == ps[j] && AttachedIn(h, n, ps, j, PARAMETER_VALUE, p.value)
  }

  /** One parameter group per `parameter_name` column among the first `n`, in header order. */
  ghost predicate ParametersAfter(h: seq<string>, n: nat, parameters: seq<ParameterColumns>)
    requires n <= |h|
  {
    var ps := PositionsIn(h, PARAMETER_NAME, 0, n);
    |parameters| == |ps| &&
    forall j :: 0 <= j < |ps| ==> ParameterAt(h, n, ps, parameters[j], j)
  }

  /** After the first `n` columns, `k` records the `gate_name` and `equation` columns and the groups.
      The conjunction is written as one equation so that a proof obligation about it stays one
      goal instead of being split into the conjuncts of every predicate it calls. */
  ghost predicate RfColumnsAfter(h: seq<string>, n: nat, k: RfHeader)
    requires n <= |h|
  {
    (SingleColumn(h, n, GATE_NAME, k.gateName) &&
     SingleColumn(h, n, EQUATION, k.equation) &&
     VariablesAfter(h, n, k.variables) &&
     ParametersAfter(h, n, k.parameters)) == true
  }

  lemma RfStepExpected(file: string, h: seq<string>, n: nat, s: RfScan)
    requires n < |h| && RfShape(s) && RfExpects(h, n, s.expected)
    ensures RfHeaderStep(file, s, n, h[n]).Ok? <==> RfAdmissible(h, n)
    ensures RfHeaderStep(file, s, n, h[n]).Ok? ==> RfExpects(h, n + 1, RfHeaderStep(file, s, n, h[n]).value.expected)
  {
    assert h[..n + 1] == h[..n] + [h[n]];
    if h[n] in RF_NAMES {
      RfStepExpectedKnown(file, h, n, s);
    }
  }

  /** The same, for a column holding one of the seven names. */
  lemma RfStepExpectedKnown(file: string, h: seq<string>, n: nat, s: RfScan)
    requires n < |h| && RfShape(s) && RfExpects(h, n, s.expected) && h[..n + 1] == h[..n] + [h[n]]
    requires h[n] in RF_NAMES
    ensures RfHeaderStep(file, s, n, h[n]).Ok? <==> RfAdmissible(h, n)
    ensures RfHeaderStep(file, s, n, h[n]).Ok? ==> RfExpects(h, n + 1, RfHeaderStep(file, s, n, h[n]).value.expected)
  {
    if h[n] == GATE_NAME {
      RfExpectedGateName(file, h, n, s);
    } else if h[n] == EQUATION {
      RfExpectedEquation(file, h, n, s);
    } else if h[n] == VARIABLE_NAME {
      RfExpectedVariableName(file, h, n, s);
    } else if h[n] == OFF_THRESHOLD {
      RfExpectedOff(file, h, n, s);
    } else if h[n] == ON_THRESHOLD {
      RfExpectedOn(file, h, n, s);
    } else if h[n] == PARAMETER_NAME {
      RfExpectedParameterName(file, h, n, s);
    } else {
      RfExpectedValue(file, h, n, s);
    }
  }

  lemma RfExpectedGateName(file: string, h: seq<string>, n: nat, s: RfScan)
    requires n < |h| && RfShape(s) && RfExpects(h, n, s.expected) && h[..n + 1] == h[..n] + [h[n]]
    requires h[n] == GATE_NAME
    ensures RfHeaderStep(file, s, n, h[n]).Ok? <==> RfAdmissible(h, n)
    ensures RfHeaderStep(file, s, n, h[n]).Ok? ==> RfExpects(h, n + 1, RfHeaderStep(file, s, n, h[n]).value.expected)
  {
    RfNamesDistinct();
  }

  lemma RfExpectedEquation(file: string, h: seq<string>, n: nat, s: RfScan)
    requires n < |h| && RfShape(s) && RfExpects(h, n, s.expected) && h[..n + 1] == h[..n] + [h[n]]
    requires h[n] == EQUATION
    ensures RfHeaderStep(file, s, n, h[n]).Ok? <==> RfAdmissible(h, n)
    ensures RfHeaderStep(file, s, n, h[n]).Ok? ==> RfExpects(h, n + 1, RfHeaderStep(file, s, n, h[n]).value.expected)
  {
    RfNamesDistinct();
  }

  lemma RfExpectedVariableName(file: string, h: seq<string>, n: nat, s: RfScan)
    requires n < |h| && RfShape(s) && RfExpects(h, n, s.expected) && h[..n + 1] == h[..n] + [h[n]]
    requires h[n] == VARIABLE_NAME
    ensures RfHeaderStep(file, s, n, h[n]).Ok? <==> RfAdmissible(h, n)
    ensures RfHeaderStep(file, s, n, h[n]).Ok? ==> RfExpects(h, n + 1, RfHeaderStep(file, s, n, h[n]).value.expected)
  {
    RfNamesDistinct();
  }

  lemma RfExpectedOff(file: string, h: seq<string>, n: nat, s: RfScan)
    requires n < |h| && RfShape(s) && RfExpects(h, n, s.expected) && h[..n + 1] == h[..n] + [h[n]]
    requires h[n] == OFF_THRESHOLD
    ensures RfHeaderStep(file, s, n, h[n]).Ok? <==> RfAdmissible(h, n)
    ensures RfHeaderStep(file, s, n, h[n]).Ok? ==> RfExpects(h, n + 1, RfHeaderStep(file, s, n, h[n]).value.expected)
  {
    RfNamesDistinct();
  }

  lemma RfExpectedOn(file: string, h: seq<string>, n: nat, s: RfScan)
    requires n < |h| && RfShape(s) && RfExpects(h, n, s.expected) && h[..n + 1] == h[..n] + [h[n]]
    requires h[n] == ON_THRESHOLD
    ensures RfHeaderStep(file, s, n, h[n]).Ok? <==> RfAdmissible(h, n)
    ensures RfHeaderStep(file, s, n, h[n]).Ok? ==> RfExpects(h, n + 1, RfHeaderStep(file, s, n, h[n]).value.expected)
  {
    RfNamesDistinct();
  }

  lemma RfExpectedParameterName(file: string, h: seq<string>, n: nat, s: RfScan)
    requires n < |h| && RfShape(s) && RfExpects(h, n, s.expected) && h[..n + 1] == h[..n] + [h[n]]
    requires h[n] == PARAMETER_NAME
    ensures RfHeaderStep(file, s, n, h[n]).Ok? <==> RfAdmissible(h, n)
    ensures RfHeaderStep(file, s, n, h[n]).Ok? ==> RfExpects(h, n + 1, RfHeaderStep(file, s, n, h[n]).value.expected)
  {
    RfNamesDistinct();
  }

  lemma RfExpectedValue(file: string, h: seq<string>, n: nat, s: RfScan)
    requires n < |h| && RfShape(s) && RfExpects(h, n, s.expected) && h[..n + 1] == h[..n] + [h[n]]
    requires h[n] == PARAMETER_VALUE
    ensures RfHeaderStep(file, s, n, h[n]).Ok? <==> RfAdmissible(h, n)
    ensures RfHeaderStep(file, s, n, h[n]).Ok? ==> RfExpects(h, n + 1, RfHeaderStep(file, s, n, h[n]).value.expected)
  {
    RfNamesDistinct();
  }

  lemma OpenVariable(h: seq<string>, n: nat, variables: seq<VariableColumns>)
    requires n < |h| && h[n] == VARIABLE_NAME && VariablesAfter(h, n, variables)
    ensures VariablesAfter(h, n + 1, variables + [VariableColumns(n, None, None)])
  {
    var vs := PositionsIn(h, VARIABLE_NAME, 0, n);
    var vs' := PositionsIn(h, VARIABLE_NAME, 0, n + 1);
    assert vs' == vs + [n];
    var variables' := variables + [VariableColumns(n, None, None)];
    forall j | 0 <= j < |vs'|
      ensures VariableAt(h, n + 1, vs', variables'[j], j)
    {
      if j < |vs| {
        var v := variables[j];
        assert VariableAt(h, n, vs, v, j);
        AttachedKeptByOpening(h, n, vs, j, OFF_THRESHOLD, v.offThreshold);
        AttachedKeptByOpening(h, n, vs, j, ON_THRESHOLD, v.onThreshold);
      } else {
        AttachedAfterOpening(h, n, vs, OFF_THRESHOLD);
        AttachedAfterOpening(h, n, vs, ON_THRESHOLD);
      }
    }
  }

  /** Replacing the last group by one that holds its columns after `n + 1` columns, when every earlier
      group holds its own, gives the groups after `n + 1` columns. */
  lemma VariablesAfterUpdateLast(h: seq<string>, n: nat, variables: seq<VariableColumns>, v: VariableColumns)
    requires n < |h|
    requires var vs := PositionsIn(h, VARIABLE_NAME, 0, n + 1);
      && |vs| > 0 && |variables| == |vs|
      && (forall j :: 0 <= j < |vs| - 1 ==> VariableAt(h, n + 1, vs, variables[j], j))
      && VariableAt(h, n + 1, vs, v, |vs| - 1)
    ensures VariablesAfter(h, n + 1, variables[|variables| - 1 := v])
  {
    var vs := PositionsIn(h, VARIABLE_NAME, 0, n + 1);
    var variables' := variables[|variables| - 1 := v];
    forall j | 0 <= j < |vs|
      ensures VariableAt(h, n + 1, vs, variables'[j], j)
    {
      if j < |vs| - 1 {
        assert variables'[j] == variables[j];
      }
    }
  }

  /** An `off_threshold` column that the last variable group does not hold yet is recorded in that group. */
  lemma AttachOff(h: seq<string>, n: nat, variables: seq<VariableColumns>)
    requires n < |h| && h[n] == OFF_THRESHOLD
    requires |variables| > 0 && VariablesAfter(h, n, variables)
    requires var vs := PositionsIn(h, VARIABLE_NAME, 0, n); |vs| > 0 && |PositionsIn(h, OFF_THRESHOLD, vs[|vs| - 1] + 1, n)| == 0
    ensures var last := variables[|variables| - 1];
      VariablesAfter(h, n + 1, variables[|variables| - 1 := last.(offThreshold := Some(n))])
  {
    RfNamesDistinct();
    assert h[n] != VARIABLE_NAME && h[n] != ON_THRESHOLD;
    SkipColumn(h, VARIABLE_NAME, 0, n);
    AttachOffAt(h, n, PositionsIn(h, VARIABLE_NAME, 0, n), variables);
  }

  lemma AttachOffAt(h: seq<string>, n: nat, vs: seq<nat>, variables: seq<VariableColumns>)
    requires n < |h| && h[n] == OFF_THRESHOLD && h[n] != ON_THRESHOLD
    requires vs == PositionsIn(h, VARIABLE_NAME, 0, n) == PositionsIn(h, VARIABLE_NAME, 0, n + 1)
    requires |vs| > 0 && |variables| == |vs|
    requires forall j :: 0 <= j < |vs| ==> VariableAt(h, n, vs, variables[j], j)
    requires |PositionsIn(h, OFF_THRESHOLD, vs[|vs| - 1] + 1, n)| == 0
    ensures var v := variables[|vs| - 1];
      VariablesAfter(h, n + 1, variables[|vs| - 1 := v.(offThreshold := Some(n))])
  {
    var v := variables[|vs| - 1];
    assert VariableAt(h, n, vs, v, |vs| - 1);
    AttachedToLast(h, n, vs, OFF_THRESHOLD, v.offThreshold);
    AttachedKeptInLast(h, n, vs, ON_THRESHOLD, v.onThreshold);
    EarlierVariablesKept(h, n, vs, variables);
    VariablesAfterUpdateLast(h, n, variables, v.(offThreshold := Some(n)));
  }

  lemma AttachOn(h: seq<string>, n: nat, variables: seq<VariableColumns>)
    requires n < |h| && h[n] == ON_THRESHOLD
    requires |variables| > 0 && VariablesAfter(h, n, variables)
    requires var vs := PositionsIn(h, VARIABLE_NAME, 0, n); |vs| > 0 && |PositionsIn(h, ON_THRESHOLD, vs[|vs| - 1] + 1, n)| == 0
    ensures var last := variables[|variables| - 1];
      VariablesAfter(h, n + 1, variables[|variables| - 1 := last.(onThreshold := Some(n))])
  {
    assert h[n] != VARIABLE_NAME && h[n] != OFF_THRESHOLD;
    SkipColumn(h, VARIABLE_NAME, 0, n);
    AttachOnAt(h, n, PositionsIn(h, VARIABLE_NAME, 0, n), variables);
  }

  lemma AttachOnAt(h: seq<string>, n: nat, vs: seq<nat>, variables: seq<VariableColumns>)
    requires n < |h| && h[n] == ON_THRESHOLD && h[n] != OFF_THRESHOLD
    requires vs == PositionsIn(h, VARIABLE_NAME, 0, n) == PositionsIn(h, VARIABLE_NAME, 0, n + 1)
    requires |vs| > 0 && |variables| == |vs|
    requires forall j :: 0 <= j < |vs| ==> VariableAt(h, n, vs, variables[j], j)
    requires |PositionsIn(h, ON_THRESHOLD, vs[|vs| - 1] + 1, n)| == 0
    ensures var v := variables[|vs| - 1];
      VariablesAfter(h, n + 1, variables[|vs| - 1 := v.(onThreshold := Some(n))])
  {
    var v := variables[|vs| - 1];
    assert VariableAt(h, n, vs, v, |vs| - 1);
    AttachedKeptInLast(h, n, vs, OFF_THRESHOLD, v.offThreshold);
    AttachedToLast(h, n, vs, ON_THRESHOLD, v.onThreshold);
    EarlierVariablesKept(h, n, vs, variables);
    VariablesAfterUpdateLast(h, n, variables, v.(onThreshold := Some(n)));
  }

  lemma EarlierVariablesKept(h: seq<string>, n: nat, vs: seq<nat>, variables: seq<VariableColumns>)
    requires n < |h| && |variables| == |vs| && forall a :: 0 <= a < |vs| ==> vs[a] < n
    requires forall j :: 0 <= j < |vs| ==> VariableAt(h, n, vs, variables[j], j)
    ensures forall j :: 0 <= j < |vs| - 1 ==> VariableAt(h, n + 1, vs, variables[j], j)
  {
    forall j | 0 <= j < |vs| - 1
      ensures VariableAt(h, n + 1, vs, variables[j], j)
    {
      AttachedKeptEarlier(h, n, vs, j, OFF_THRESHOLD, variables[j].offThreshold);
      AttachedKeptEarlier(h, n, vs, j, ON_THRESHOLD, variables[j].onThreshold);
    }
  }

  lemma KeepVariables(h: seq<string>, n: nat, variables: seq<VariableColumns>)
    requires n < |h| && h[n] != VARIABLE_NAME && h[n] != OFF_THRESHOLD && h[n] != ON_THRESHOLD
    requires VariablesAfter(h, n, variables)
    ensures VariablesAfter(h, n + 1, variables)
  {
    var vs := PositionsIn(h, VARIABLE_NAME, 0, n);
    assert PositionsIn(h, VARIABLE_NAME, 0, n + 1) == vs;
    forall j | 0 <= j < |vs|
      ensures VariableAt(h, n + 1, vs, variables[j], j)
    {
      var u := variables[j];
      assert VariableAt(h, n, vs, u, j);
      AttachedKeptByOther(h, n, vs, j, OFF_THRESHOLD, u.offThreshold);
      AttachedKeptByOther(h, n, vs, j, ON_THRESHOLD, u.onThreshold);
    }
  }

  lemma OpenParameter(h: seq<string>, n: nat, parameters: seq<ParameterColumns>)
    requires n < |h| && h[n] == PARAMETER_NAME && ParametersAfter(h, n, parameters)
    ensures ParametersAfter(h, n + 1, parameters + [ParameterColumns(n, None)])
  {
    var ps := PositionsIn(h, PARAMETER_NAME, 0, n);
    var ps' := PositionsIn(h, PARAMETER_NAME, 0, n + 1);
    assert ps' == ps + [n];
    var parameters' := parameters + [ParameterColumns(n, None)];
    forall j | 0 <= j < |ps'|
      ensures ParameterAt(h, n + 1, ps', parameters'[j], j)
    {
      if j < |ps| {
        assert ParameterAt(h, n, ps, parameters[j], j);
        AttachedKeptByOpening(h, n, ps, j, PARAMETER_VALUE, parameters[j].value);
      } else {
        AttachedAfterOpening(h, n, ps, PARAMETER_VALUE);
      }
    }
  }

  lemma ParametersAfterUpdateLast(h: seq<string>, n: nat, parameters: seq<ParameterColumns>, p: ParameterColumns)
    requires n < |h|
    requires var ps := PositionsIn(h, PARAMETER_NAME, 0, n + 1);
      && |ps| > 0 && |parameters| == |ps|
      && (forall j :: 0 <= j < |ps| - 1 ==> ParameterAt(h, n + 1, ps, parameters[j], j))
      && ParameterAt(h, n + 1, ps, p, |ps| - 1)
    ensures ParametersAfter(h, n + 1, parameters[|parameters| - 1 := p])
  {
    var ps := PositionsIn(h, PARAMETER_NAME, 0, n + 1);
    var parameters' := parameters[|parameters| - 1 := p];
    forall j | 0 <= j < |ps|
      ensures ParameterAt(h, n + 1, ps, parameters'[j], j)
    {
      if j < |ps| - 1 {
        assert parameters'[j] == parameters[j];
      }
    }
  }

  /** A `value` column that the last parameter group does not hold yet is recorded in that group. */
  lemma AttachValue(h: seq<string>, n: nat, parameters: seq<ParameterColumns>)
    requires n < |h| && h[n] == PARAMETER_VALUE
    requires |parameters| > 0 && ParametersAfter(h, n, parameters)
    requires var ps := PositionsIn(h, PARAMETER_NAME, 0, n); |ps| > 0 && |PositionsIn(h, PARAMETER_VALUE, ps[|ps| - 1] + 1, n)| == 0
    ensures var last := parameters[|parameters| - 1];
      ParametersAfter(h, n + 1, parameters[|parameters| - 1 := last.(value := Some(n))])
  {
    assert h[n] != PARAMETER_NAME;
    SkipColumn(h, PARAMETER_NAME, 0, n);
    AttachValueAt(h, n, PositionsIn(h, PARAMETER_NAME, 0, n), parameters);
  }

  lemma AttachValueAt(h: seq<string>, n: nat, ps: seq<nat>, parameters: seq<ParameterColumns>)
    requires n < |h| && h[n] == PARAMETER_VALUE
    requires ps == PositionsIn(h, PARAMETER_NAME, 0, n) == PositionsIn(h, PARAMETER_NAME, 0, n + 1)
    requires |ps| > 0 && |parameters| == |ps|
    requires forall j :: 0 <= j < |ps| ==> ParameterAt(h, n, ps, parameters[j], j)
    requires |PositionsIn(h, PARAMETER_VALUE, ps[|ps| - 1] + 1, n)| == 0
    ensures var p := parameters[|ps| - 1];
      ParametersAfter(h, n + 1, parameters[|ps| - 1 := p.(value := Some(n))])
  {
    var p := parameters[|ps| - 1];
    assert ParameterAt(h, n, ps, p, |ps| - 1);
    AttachedToLast(h, n, ps, PARAMETER_VALUE, p.value);
    EarlierParametersKept(h, n, ps, parameters);
    ParametersAfterUpdateLast(h, n, parameters, p.(value := Some(n)));
  }

  lemma EarlierParametersKept(h: seq<string>, n: nat, ps: seq<nat>, parameters: seq<ParameterColumns>)
    requires n < |h| && |parameters| == |ps| && forall a :: 0 <= a < |ps| ==> ps[a] < n
    requires forall j :: 0 <= j < |ps| ==> ParameterAt(h, n, ps, parameters[j], j)
    ensures forall j :: 0 <= j < |ps| - 1 ==> ParameterAt(h, n + 1, ps, parameters[j], j)
  {
    forall j | 0 <= j < |ps| - 1
      ensures ParameterAt(h, n + 1, ps, parameters[j], j)
    {
      AttachedKeptEarlier(h, n, ps, j, PARAMETER_VALUE, parameters[j].value);
    }
  }

  lemma KeepParameters(h: seq<string>, n: nat, parameters: seq<ParameterColumns>)
    requires n < |h| && h[n] != PARAMETER_NAME && h[n] != PARAMETER_VALUE && ParametersAfter(h, n, parameters)
    ensures ParametersAfter(h, n + 1, parameters)
  {
    var ps := PositionsIn(h, PARAMETER_NAME, 0, n);
    assert PositionsIn(h, PARAMETER_NAME, 0, n + 1) == ps;
    forall j | 0 <= j < |ps|
      ensures ParameterAt(h, n + 1, ps, parameters[j], j)
    {
      assert ParameterAt(h, n, ps, parameters[j], j);
      AttachedKeptByOther(h, n, ps, j, PARAMETER_VALUE, parameters[j].value);
    }
  }

  // One lemma per kind of column: what it does to the recorded columns.

  lemma ColumnsGateName(h: seq<string>, n: nat, k: RfHeader)
    requires n < |h| && h[n] == GATE_NAME && GATE_NAME !in h[..n] && RfColumnsAfter(h, n, k)
    ensures RfColumnsAfter(h, n + 1, k.(gateName := Some(n)))
  {
    SingleColumnStep(h, n, GATE_NAME, k.gateName);
    SingleColumnStep(h, n, EQUATION, k.equation);
    KeepVariables(h, n, k.variables);
    KeepParameters(h, n, k.parameters);
  }

  lemma ColumnsEquation(h: seq<string>, n: nat, k: RfHeader)
    requires n < |h| && h[n] == EQUATION && EQUATION !in h[..n] && RfColumnsAfter(h, n, k)
    ensures RfColumnsAfter(h, n + 1, k.(equation := Some(n)))
  {
    SingleColumnStep(h, n, GATE_NAME, k.gateName);
    SingleColumnStep(h, n, EQUATION, k.equation);
    KeepVariables(h, n, k.variables);
    KeepParameters(h, n, k.parameters);
  }

  lemma ColumnsVariableName(h: seq<string>, n: nat, k: RfHeader)
    requires n < |h| && h[n] == VARIABLE_NAME && RfColumnsAfter(h, n, k)
    ensures RfColumnsAfter(h, n + 1, k.(variables := k.variables + [VariableColumns(n, None, None)]))
  {
    SingleColumnStep(h, n, GATE_NAME, k.gateName);
    SingleColumnStep(h, n, EQUATION, k.equation);
    OpenVariable(h, n, k.variables);
    KeepParameters(h, n, k.parameters);
  }

  lemma ColumnsOff(h: seq<string>, n: nat, k: RfHeader)
    requires n < |h| && h[n] == OFF_THRESHOLD
    requires var vs := PositionsIn(h, VARIABLE_NAME, 0, n);
      |vs| > 0 && |PositionsIn(h, OFF_THRESHOLD, vs[|vs| - 1] + 1, n)| == 0
    requires RfColumnsAfter(h, n, k)
    ensures |k.variables| > 0
    ensures var vs := k.variables; var last := vs[|vs| - 1];
      RfColumnsAfter(h, n + 1, k.(variables := vs[|vs| - 1 := last.(offThreshold := Some(n))]))
  {
    RfNamesDistinct();
    SingleColumnKept(h, n, GATE_NAME, k.gateName);
    SingleColumnKept(h, n, EQUATION, k.equation);
    AttachOff(h, n, k.variables);
    KeepParameters(h, n, k.parameters);
  }
  lemma ColumnsOffOpen(h: seq<string>, n: nat, k: RfHeader)
    requires n < |h| && h[n] == OFF_THRESHOLD && Open(h, n, VARIABLE_NAME, OFF_CLOSERS)
    requires RfColumnsAfter(h, n, k)
    ensures |k.variables| > 0
    ensures var gs := k.variables; var last := gs[|gs| - 1];
      RfColumnsAfter(h, n + 1, k.(variables := gs[|gs| - 1 := last.(offThreshold := Some(n))]))
  {
    OpenClearSince(h, n, VARIABLE_NAME, OFF_CLOSERS, OFF_THRESHOLD);
    ColumnsOff(h, n, k);
  }


  lemma ColumnsOn(h: seq<string>, n: nat, k: RfHeader)
    requires n < |h| && h[n] == ON_THRESHOLD
    requires var vs := PositionsIn(h, VARIABLE_NAME, 0, n);
      |vs| > 0 && |PositionsIn(h, ON_THRESHOLD, vs[|vs| - 1] + 1, n)| == 0
    requires RfColumnsAfter(h, n, k)
    ensures |k.variables| > 0
    ensures var vs := k.variables; var last := vs[|vs| - 1];
      RfColumnsAfter(h, n + 1, k.(variables := vs[|vs| - 1 := last.(onThreshold := Some(n))]))
  {
    RfNamesDistinct();
    SingleColumnKept(h, n, GATE_NAME, k.gateName);
    SingleColumnKept(h, n, EQUATION, k.equation);
    AttachOn(h, n, k.variables);
    KeepParameters(h, n, k.parameters);
  }
  lemma ColumnsOnOpen(h: seq<string>, n: nat, k: RfHeader)
    requires n < |h| && h[n] == ON_THRESHOLD && Open(h, n, VARIABLE_NAME, ON_CLOSERS)
    requires RfColumnsAfter(h, n, k)
    ensures |k.variables| > 0
    ensures var gs := k.variables; var last := gs[|gs| - 1];
      RfColumnsAfter(h, n + 1, k.(variables := gs[|gs| - 1 := last.(onThreshold := Some(n))]))
  {
    OpenClearSince(h, n, VARIABLE_NAME, ON_CLOSERS, ON_THRESHOLD);
    ColumnsOn(h, n, k);
  }


  lemma ColumnsParameterName(h: seq<string>, n: nat, k: RfHeader)
    requires n < |h| && h[n] == PARAMETER_NAME && RfColumnsAfter(h, n, k)
    ensures RfColumnsAfter(h, n + 1, k.(parameters := k.parameters + [ParameterColumns(n, None)]))
  {
    SingleColumnStep(h, n, GATE_NAME, k.gateName);
    SingleColumnStep(h, n, EQUATION, k.equation);
    KeepVariables(h, n, k.variables);
    OpenParameter(h, n, k.parameters);
  }

  lemma ColumnsValue(h: seq<string>, n: nat, k: RfHeader)
    requires n < |h| && h[n] == PARAMETER_VALUE
    requires var ps := PositionsIn(h, PARAMETER_NAME, 0, n);
      |ps| > 0 && |PositionsIn(h, PARAMETER_VALUE, ps[|ps| - 1] + 1, n)| == 0
    requires RfColumnsAfter(h, n, k)
    ensures |k.parameters| > 0
    ensures var ps := k.parameters; var last := ps[|ps| - 1];
      RfColumnsAfter(h, n + 1, k.(parameters := ps[|ps| - 1 := last.(value := Some(n))]))
  {
    RfNamesDistinct();
    SingleColumnKept(h, n, GATE_NAME, k.gateName);
    SingleColumnKept(h, n, EQUATION, k.equation);
    KeepVariables(h, n, k.variables);
    AttachValue(h, n, k.parameters);
  }
  lemma ColumnsValueOpen(h: seq<string>, n: nat, k: RfHeader)
    requires n < |h| && h[n] == PARAMETER_VALUE && Open(h, n, PARAMETER_NAME, VALUE_CLOSERS)
    requires RfColumnsAfter(h, n, k)
    ensures |k.parameters| > 0
    ensures var gs := k.parameters; var last := gs[|gs| - 1];
      RfColumnsAfter(h, n + 1, k.(parameters := gs[|gs| - 1 := last.(value := Some(n))]))
  {
    OpenClearSince(h, n, PARAMETER_NAME, VALUE_CLOSERS, PARAMETER_VALUE);
    ColumnsValue(h, n, k);
  }


  lemma RfStepColumns(file: string, h: seq<string>, n: nat, s: RfScan)
    requires n < |h| && RfShape(s) && RfExpects(h, n, s.expected)
    requires RfColumnsAfter(h, n, s.keys) && RfAdmissible(h, n)
    ensures RfHeaderStep(file, s, n, h[n]).Ok?
    ensures RfColumnsAfter(h, n + 1, RfHeaderStep(file, s, n, h[n]).value.keys)
  {
    RfStepExpected(file, h, n, s);
    var t := h[n];
    if t == GATE_NAME {
      RfStepGateName(file, h, n, s);
    } else if t == EQUATION {
      RfStepEquation(file, h, n, s);
    } else if t == VARIABLE_NAME {
      RfStepVariableName(file, h, n, s);
    } else if t == OFF_THRESHOLD {
      RfStepOff(file, h, n, s);
    } else if t == ON_THRESHOLD {
      RfStepOn(file, h, n, s);
    } else if t == PARAMETER_NAME {
      RfStepParameterName(file, h, n, s);
    } else {
      RfStepValue(file, h, n, s);
    }
  }

  lemma RfStepGateName(file: string, h: seq<string>, n: nat, s: RfScan)
    requires n < |h| && RfShape(s) && h[n] == GATE_NAME && GATE_NAME in s.expected
    requires GATE_NAME !in h[..n]
    requires RfColumnsAfter(h, n, s.keys)
    ensures RfHeaderStep(file, s, n, h[n]).Ok?
    ensures RfColumnsAfter(h, n + 1, RfHeaderStep(file, s, n, h[n]).value.keys)
  {
    ColumnsGateName(h, n, s.keys);
  }

  lemma RfStepEquation(file: string, h: seq<string>, n: nat, s: RfScan)
    requires n < |h| && RfShape(s) && h[n] == EQUATION && EQUATION in s.expected
    requires EQUATION !in h[..n]
    requires RfColumnsAfter(h, n, s.keys)
    ensures RfHeaderStep(file, s, n, h[n]).Ok?
    ensures RfColumnsAfter(h, n + 1, RfHeaderStep(file, s, n, h[n]).value.keys)
  {
    ColumnsEquation(h, n, s.keys);
  }

  lemma RfStepVariableName(file: string, h: seq<string>, n: nat, s: RfScan)
    requires n < |h| && RfShape(s) && h[n] == VARIABLE_NAME && VARIABLE_NAME in s.expected
    requires RfColumnsAfter(h, n, s.keys)
    ensures RfHeaderStep(file, s, n, h[n]).Ok?
    ensures RfColumnsAfter(h, n + 1, RfHeaderStep(file, s, n, h[n]).value.keys)
  {
    ColumnsVariableName(h, n, s.keys);
  }

  lemma RfStepOff(file: string, h: seq<string>, n: nat, s: RfScan)
    requires n < |h| && RfShape(s) && h[n] == OFF_THRESHOLD && OFF_THRESHOLD in s.expected
    requires Open(h, n, VARIABLE_NAME, OFF_CLOSERS)
    requires RfColumnsAfter(h, n, s.keys)
    ensures RfHeaderStep(file, s, n, h[n]).Ok?
    ensures RfColumnsAfter(h, n + 1, RfHeaderStep(file, s, n, h[n]).value.keys)
  {
    RfNamesDistinct();
    RfHeaderStepOff(file, s, n, h[n]);
    ColumnsOffOpen(h, n, s.keys);
  }

  /** The step on an `off_threshold` column records it in the last variable group. */
  lemma RfHeaderStepOff(file: string, s: RfScan, i: nat, key: string)
    requires RfShape(s) && key == OFF_THRESHOLD && key in s.expected
    ensures RfHeaderStep(file, s, i, key).Ok?
    ensures var gs := s.keys.variables;
      RfHeaderStep(file, s, i, key).value.keys == s.keys.(variables := gs[|gs| - 1 := gs[|gs| - 1].(offThreshold := Some(i))])
  {
    RfNamesDistinct();
  }

  lemma RfStepOn(file: string, h: seq<string>, n: nat, s: RfScan)
    requires n < |h| && RfShape(s) && h[n] == ON_THRESHOLD && ON_THRESHOLD in s.expected
    requires Open(h, n, VARIABLE_NAME, ON_CLOSERS)
    requires RfColumnsAfter(h, n, s.keys)
    ensures RfHeaderStep(file, s, n, h[n]).Ok?
    ensures RfColumnsAfter(h, n + 1, RfHeaderStep(file, s, n, h[n]).value.keys)
  {
    RfNamesDistinct();
    RfHeaderStepOn(file, s, n, h[n]);
    ColumnsOnOpen(h, n, s.keys);
  }

  /** The step on an `on_threshold` column records it in the last variable group. */
  lemma RfHeaderStepOn(file: string, s: RfScan, i: nat, key: string)
    requires RfShape(s) && key == ON_THRESHOLD && key in s.expected
    ensures RfHeaderStep(file, s, i, key).Ok?
    ensures var gs := s.keys.variables;
      RfHeaderStep(file, s, i, key).value.keys == s.keys.(variables := gs[|gs| - 1 := gs[|gs| - 1].(onThreshold := Some(i))])
  {
    RfNamesDistinct();
  }

  lemma RfStepParameterName(file: string, h: seq<string>, n: nat, s: RfScan)
    requires n < |h| && RfShape(s) && h[n] == PARAMETER_NAME && PARAMETER_NAME in s.expected
    requires RfColumnsAfter(h, n, s.keys)
    ensures RfHeaderStep(file, s, n, h[n]).Ok?
    ensures RfColumnsAfter(h, n + 1, RfHeaderStep(file, s, n, h[n]).value.keys)
  {
    ColumnsParameterName(h, n, s.keys);
  }

  lemma RfStepValue(file: string, h: seq<string>, n: nat, s: RfScan)
    requires n < |h| && RfShape(s) && h[n] == PARAMETER_VALUE && PARAMETER_VALUE in s.expected
    requires Open(h, n, PARAMETER_NAME, VALUE_CLOSERS)
    requires RfColumnsAfter(h, n, s.keys)
    ensures RfHeaderStep(file, s, n, h[n]).Ok?
    ensures RfColumnsAfter(h, n + 1, RfHeaderStep(file, s, n, h[n]).value.keys)
  {
    RfNamesDistinct();
    RfHeaderStepValue(file, s, n, h[n]);
    ColumnsValueOpen(h, n, s.keys);
  }

  /** The step on a `parameter_value` column records it in the last parameter group. */
  lemma RfHeaderStepValue(file: string, s: RfScan, i: nat, key: string)
    requires RfShape(s) && key == PARAMETER_VALUE && key in s.expected
    ensures RfHeaderStep(file, s, i, key).Ok?
    ensures var gs := s.keys.parameters;
      RfHeaderStep(file, s, i, key).value.keys == s.keys.(parameters := gs[|gs| - 1 := gs[|gs| - 1].(value := Some(i))])
  {
    RfNamesDistinct();
  }

  /** What the scan after the first `n` columns means. */
  ghost predicate RfScanMeaning(file: string, h: seq<string>, n: nat, r: Result<RfScan>)
    requires n <= |h|
  {
    (r.Ok? <==> forall i :: 0 <= i < n ==> RfAdmissible(h, i)) &&
    (r.Ok? ==> RfExpects(h, n, r.value.expected) && RfColumnsAfter(h, n, r.value.keys)) &&
    (r.Err? ==>
      r.error.UnexpectedHeaderKey? && r.error.file == file && r.error.position < n &&
      !RfAdmissible(h, r.error.position) &&
      forall i :: 0 <= i < r.error.position ==> RfAdmissible(h, i))
  }

  lemma RfScanMeaningErrStep(file: string, h: seq<string>, m: nat)
    requires m < |h| && RfHeaderScan(file, h, m).Err?
    requires RfScanMeaning(file, h, m, RfHeaderScan(file, h, m))
    ensures RfScanMeaning(file, h, m + 1, RfHeaderScan(file, h, m + 1))
  {
    var prev := RfHeaderScan(file, h, m);
    assert RfHeaderScan(file, h, m + 1) == prev;
    assert !RfAdmissible(h, prev.error.position);
  }

  lemma RfScanMeaningOk(file: string, h: seq<string>, n: nat, r: Result<RfScan>)
    requires n <= |h| && r.Ok? && forall i :: 0 <= i < n ==> RfAdmissible(h, i)
    requires RfExpects(h, n, r.value.expected) && RfColumnsAfter(h, n, r.value.keys)
    ensures RfScanMeaning(file, h, n, r)
  {
  }

  lemma RfScanAcceptStep(file: string, h: seq<string>, m: nat)
    requires m < |h| && RfHeaderScan(file, h, m).Ok? && RfAdmissible(h, m)
    requires RfScanMeaning(file, h, m, RfHeaderScan(file, h, m))
    ensures RfScanMeaning(file, h, m + 1, RfHeaderScan(file, h, m + 1))
  {
    var s := RfHeaderScan(file, h, m).value;
    var r := RfHeaderStep(file, s, m, h[m]);
    assert RfHeaderScan(file, h, m + 1) == r;
    RfScanAccepted(file, h, m, s, r);
  }

  lemma RfScanAccepted(file: string, h: seq<string>, m: nat, s: RfScan, r: Result<RfScan>)
    requires m < |h| && RfAdmissible(h, m) && forall i :: 0 <= i < m ==> RfAdmissible(h, i)
    requires RfShape(s) && RfExpects(h, m, s.expected) && RfColumnsAfter(h, m, s.keys)
    requires r == RfHeaderStep(file, s, m, h[m])
    ensures RfScanMeaning(file, h, m + 1, r)
  {
    RfStepResult(file, h, m, s, r);
    RfAdmissibleExtend(h, m);
    RfScanMeaningOk(file, h, m + 1, r);
  }

  lemma RfStepResult(file: string, h: seq<string>, n: nat, s: RfScan, r: Result<RfScan>)
    requires n < |h| && RfShape(s) && RfExpects(h, n, s.expected)
    requires RfColumnsAfter(h, n, s.keys) && RfAdmissible(h, n)
    requires r == RfHeaderStep(file, s, n, h[n])
    ensures r.Ok? && RfExpects(h, n + 1, r.value.expected) && RfColumnsAfter(h, n + 1, r.value.keys)
  {
    RfStepColumns(file, h, n, s);
    RfStepExpected(file, h, n, s);
  }

  lemma RfAdmissibleExtend(h: seq<string>, m: nat)
    requires m < |h| && RfAdmissible(h, m) && forall i :: 0 <= i < m ==> RfAdmissible(h, i)
    ensures forall i :: 0 <= i < m + 1 ==> RfAdmissible(h, i)
  {
  }

  lemma RfScanRejectStep(file: string, h: seq<string>, m: nat)
    requires m < |h| && RfHeaderScan(file, h, m).Ok? && !RfAdmissible(h, m)
    requires RfScanMeaning(file, h, m, RfHeaderScan(file, h, m))
    ensures RfScanMeaning(file, h, m + 1, RfHeaderScan(file, h, m + 1))
  {
    var s := RfHeaderScan(file, h, m).value;
    assert RfHeaderScan(file, h, m + 1) == RfHeaderStep(file, s, m, h[m]);
    RfStepExpected(file, h, m, s);
    assert RfHeaderScan(file, h, m + 1) == Err(UnexpectedHeaderKey(file, m));
  }

  lemma {:induction false} RfHeaderScanMeaning(file: string, h: seq<string>, n: nat)
    requires n <= |h|
    ensures RfScanMeaning(file, h, n, RfHeaderScan(file, h, n))
    decreases n
  {
    if n == 0 {
      assert h[..0] == [];
    } else {
      var m := n - 1;
      assert m + 1 == n;
      RfHeaderScanMeaning(file, h, m);
      if RfHeaderScan(file, h, m).Err? {
        RfScanMeaningErrStep(file, h, m);
      } else if RfAdmissible(h, m) {
        RfScanAcceptStep(file, h, m);
      } else {
        RfScanRejectStep(file, h, m);
      }
    }
  }

  /** The header is accepted exactly when every column is acceptable where it stands. */
  lemma RfHeaderAccepted(file: string, h: seq<string>)
    ensures RfHeaderKeys(file, h).Ok? <==> forall i :: 0 <= i < |h| ==> RfAdmissible(h, i)
  {
    RfHeaderScanMeaning(file, h, |h|);
  }

  /** A rejected header is rejected at its first unacceptable column, whose position is reported. */
  lemma RfHeaderRejected(file: string, h: seq<string>)
    ensures RfHeaderKeys(file, h).Err? ==>
      var e := RfHeaderKeys(file, h).error;
      e.UnexpectedHeaderKey? && e.file == file && e.position < |h| && !RfAdmissible(h, e.position) &&
      forall i :: 0 <= i < e.position ==> RfAdmissible(h, i)
  {
    RfHeaderScanMeaning(file, h, |h|);
  }

  /** An accepted header records the `gate_name` and `equation` columns, one variable group per
      `variable_name` column holding the threshold columns that follow it up to the next
      `variable_name`, and one parameter group per `parameter_name` column holding the `value`
      column that follows it up to the next `parameter_name`. */
  lemma RfHeaderColumns(file: string, h: seq<string>)
    ensures RfHeaderKeys(file, h).Ok? ==> RfColumnsAfter(h, |h|, RfHeaderKeys(file, h).value)
  {
    RfHeaderScanMeaning(file, h, |h|);
  }

  // ---------------------------------------------------------------------------
  // Rows
  // ---------------------------------------------------------------------------

  /** A variable group can be read: its name column lies within the row and, when the name cell is
      not empty, so do both its threshold columns (the source reads both before checking either). */
  predicate VariableFits(v: VariableColumns, row: Row) {
    v.name < |row| &&
    (row[v.name] != "" ==>
      v.offThreshold.Some? && v.offThreshold.value < |row| &&
      v.onThreshold.Some? && v.onThreshold.value < |row|)
  }

  predicate VariablesFit(specs: seq<VariableColumns>, row: Row) {
    forall j :: 0 <= j < |specs| ==> VariableFits(specs[j], row)
  }

  /** A parameter group can be read: its name column lies within the row and, when the name cell is
      not empty, so does its `value` column. */
  predicate ParameterFits(p: ParameterColumns, row: Row) {
    p.name < |row| && (row[p.name] != "" ==> p.value.Some? && p.value.value < |row|)
  }

  predicate ParametersFit(specs: seq<ParameterColumns>, row: Row) {
    forall j :: 0 <= j < |specs| ==> ParameterFits(specs[j], row)
  }

  /** The row can be read wherever the source reads it (otherwise the source fails with a KeyError
      or an IndexError, which this model does not cover). */
  predicate RfRowFits(k: RfHeader, row: Row) {
    k.gateName.Some? && k.gateName.value < |row| &&
    k.equation.Some? && k.equation.value < |row| &&
    VariablesFit(k.variables, row) && ParametersFit(k.parameters, row)
  }

  predicate RfRowsFit(k: RfHeader, rows: seq<Row>) {
    forall row :: row in rows && |row| > 0 ==> RfRowFits(k, row)
  }

  // Variables.

  /** One step of the variable loop of a row. */
  function VariableStep(row: Row, spec: VariableColumns, acc: seq<Variable>): Result<seq<Variable>>
    requires VariableFits(spec, row)
  {
    var name := row[spec.name];
    if name == "" then Ok(acc)
    else
      var off := row[spec.offThreshold.value];
      var on := row[spec.onThreshold.value];
      if off == "" then Err(OffThresholdNotSpecified(name))
      else if on == "" then Err(OnThresholdNotSpecified(name))
      else Ok(acc + [Variable(name, off, on)])
  }

  /** The `variables` field of a row's record after the groups `specs`. */
  function RfVariables(row: Row, specs: seq<VariableColumns>): Result<seq<Variable>>
    requires VariablesFit(specs, row)
    decreases |specs|
  {
    if specs == [] then Ok([])
    else
      match RfVariables(row, specs[..|specs| - 1])
      case Err(e) => Err(e)
      case Ok(acc) => VariableStep(row, specs[|specs| - 1], acc)
  }

  lemma {:induction false} VariablesErrorPersists(row: Row, specs: seq<VariableColumns>, m: nat)
    requires m <= |specs| && VariablesFit(specs, row)
    requires VariablesFit(specs[..m], row) && RfVariables(row, specs[..m]).Err?
    ensures RfVariables(row, specs) == RfVariables(row, specs[..m])
    decreases |specs|
  {
    if m == |specs| {
      assert specs[..m] == specs;
    } else {
      var p := specs[..|specs| - 1];
      assert p[..m] == specs[..m];
      VariablesErrorPersists(row, p, m);
    }
  }

  /** Builds the variables of one row, group by group. */
  method CollectVariables(row: Row, specs: seq<VariableColumns>) returns (r: Result<seq<Variable>>)
    requires VariablesFit(specs, row)
    ensures r == RfVariables(row, specs)
  {
    var variables: seq<Variable> := [];
    var g := 0;
    while g < |specs|
      invariant g <= |specs|
      invariant VariablesFit(specs[..g], row)
      invariant RfVariables(row, specs[..g]) == Ok(variables)
    {
      var spec := specs[g];
      assert specs[..g + 1][..g] == specs[..g] && specs[..g + 1][g] == spec;
      assert RfVariables(row, specs[..g + 1]) == VariableStep(row, spec, variables);
      var variable := row[spec.name];
      if |variable| > 0 {
        var offThreshold := row[spec.offThreshold.value];
        var onThreshold := row[spec.onThreshold.value];
        if |offThreshold| == 0 {
          VariablesErrorPersists(row, specs, g + 1);
          return Err(OffThresholdNotSpecified(variable));
        }
        if |onThreshold| == 0 {
          VariablesErrorPersists(row, specs, g + 1);
          return Err(OnThresholdNotSpecified(variable));
        }
        variables := variables + [Variable(variable, offThreshold, onThreshold)];
      }
      g := g + 1;
    }
    assert specs[..|specs|] == specs;
    return Ok(variables);
  }

  /** A variable group is complete in a row: its name cell is empty, or neither threshold cell is. */
  predicate VariableComplete(row: Row, v: VariableColumns)
    requires VariableFits(v, row)
  {
    row[v.name] == "" || (row[v.offThreshold.value] != "" && row[v.onThreshold.value] != "")
  }

  /** The error an incomplete group raises: the off threshold is checked first. */
  function VariableError(row: Row, v: VariableColumns): Error
    requires VariableFits(v, row) && !VariableComplete(row, v)
  {
    if row[v.offThreshold.value] == "" then OffThresholdNotSpecified(row[v.name])
    else OnThresholdNotSpecified(row[v.name])
  }

  /** The groups whose name cell is not empty, in header order. */
  function NamedVariables(row: Row, specs: seq<VariableColumns>): (named: seq<VariableColumns>)
    requires VariablesFit(specs, row)
    ensures VariablesFit(named, row)
    ensures forall i :: 0 <= i < |named| ==> row[named[i].name] != ""
    decreases |specs|
  {
    if specs == [] then []
    else
      var last := specs[|specs| - 1];
      NamedVariables(row, specs[..|specs| - 1]) + (if row[last.name] == "" then [] else [last])
  }

  /** The variable a named group yields: the name cell and the two threshold cells as they are. */
  function VariableOf(row: Row, v: VariableColumns): Variable
    requires VariableFits(v, row) && row[v.name] != ""
  {
    Variable(row[v.name], row[v.offThreshold.value], row[v.onThreshold.value])
  }

  /** The meaning of `RfVariables` after the groups `specs`. */
  ghost predicate VariablesMeaning(row: Row, specs: seq<VariableColumns>, r: Result<seq<Variable>>)
    requires VariablesFit(specs, row)
  {
    var named := NamedVariables(row, specs);
    (r.Ok? <==> forall j :: 0 <= j < |specs| ==> VariableComplete(row, specs[j])) &&
    (r.Ok? ==>
      |r.value| == |named| &&
      forall i :: 0 <= i < |named| ==> r.value[i] == VariableOf(row, named[i])) &&
    (r.Err? ==>
      exists j ::
        && 0 <= j < |specs| && !VariableComplete(row, specs[j])
        && (forall j' :: 0 <= j' < j ==> VariableComplete(row, specs[j']))
        && r.error == VariableError(row, specs[j]))
  }

  lemma VariablesErrorStep(row: Row, specs: seq<VariableColumns>)
    requires |specs| > 0 && VariablesFit(specs, row)
    requires VariablesMeaning(row, specs[..|specs| - 1], RfVariables(row, specs[..|specs| - 1]))
    requires RfVariables(row, specs[..|specs| - 1]).Err?
    ensures VariablesMeaning(row, specs, RfVariables(row, specs))
  {
    var p := specs[..|specs| - 1];
    var e := RfVariables(row, p).error;
    var j :| 0 <= j < |p| && !VariableComplete(row, p[j]) &&
      (forall j' :: 0 <= j' < j ==> VariableComplete(row, p[j'])) && e == VariableError(row, p[j]);
    assert specs[j] == p[j];
    assert forall j' :: 0 <= j' < j ==> specs[j'] == p[j'];
  }

  /** A last group with an empty name cell adds nothing. */
  lemma VariablesBlankStep(row: Row, specs: seq<VariableColumns>)
    requires |specs| > 0 && VariablesFit(specs, row) && row[specs[|specs| - 1].name] == ""
    requires VariablesMeaning(row, specs[..|specs| - 1], RfVariables(row, specs[..|specs| - 1]))
    requires RfVariables(row, specs[..|specs| - 1]).Ok?
    ensures VariablesMeaning(row, specs, RfVariables(row, specs))
  {
    var p := specs[..|specs| - 1];
    var r := RfVariables(row, p);
    assert RfVariables(row, specs) == r;
    assert NamedVariables(row, specs) == NamedVariables(row, p);
    assert forall j :: 0 <= j < |p| ==> specs[j] == p[j];
    assert VariableComplete(row, specs[|specs| - 1]);
    VariablesMeaningOk(row, specs, r);
  }

  /** A named, complete last group adds its variable at the end. */
  lemma VariablesNamedStep(row: Row, specs: seq<VariableColumns>)
    requires |specs| > 0 && VariablesFit(specs, row)
    requires row[specs[|specs| - 1].name] != "" && VariableComplete(row, specs[|specs| - 1])
    requires VariablesMeaning(row, specs[..|specs| - 1], RfVariables(row, specs[..|specs| - 1]))
    requires RfVariables(row, specs[..|specs| - 1]).Ok?
    ensures VariablesMeaning(row, specs, RfVariables(row, specs))
  {
    var p := specs[..|specs| - 1];
    var last := specs[|specs| - 1];
    assert specs == p + [last];
    VariablesNamedAt(row, specs, p, last, RfVariables(row, p).value, NamedVariables(row, p));
  }

  lemma VariablesNamedAt(row: Row, specs: seq<VariableColumns>, p: seq<VariableColumns>, last: VariableColumns,
                         acc: seq<Variable>, np: seq<VariableColumns>)
    requires specs == p + [last] && VariablesFit(specs, row) && VariablesFit(p, row) && VariableFits(last, row)
    requires row[last.name] != "" && VariableComplete(row, last)
    requires RfVariables(row, p) == Ok(acc) && np == NamedVariables(row, p)
    requires forall j :: 0 <= j < |p| ==> VariableComplete(row, p[j])
    requires |acc| == |np| && forall i :: 0 <= i < |np| ==> acc[i] == VariableOf(row, np[i])
    ensures VariablesMeaning(row, specs, RfVariables(row, specs))
  {
    VariablesNamedValue(row, specs, p, last, acc, np);
    VariablesAppended(row, np, acc, last);
    VariablesAllComplete(row, specs, p, last);
    VariablesMeaningOk(row, specs, Ok(acc + [VariableOf(row, last)]));
  }

  lemma VariablesNamedValue(row: Row, specs: seq<VariableColumns>, p: seq<VariableColumns>, last: VariableColumns,
                            acc: seq<Variable>, np: seq<VariableColumns>)
    requires specs == p + [last] && VariablesFit(specs, row) && VariablesFit(p, row) && VariableFits(last, row)
    requires row[last.name] != "" && VariableComplete(row, last)
    requires RfVariables(row, p) == Ok(acc) && np == NamedVariables(row, p)
    ensures RfVariables(row, specs) == Ok(acc + [VariableOf(row, last)])
    ensures NamedVariables(row, specs) == np + [last]
  {
    assert specs[..|specs| - 1] == p;
  }

  lemma VariablesAllComplete(row: Row, specs: seq<VariableColumns>, p: seq<VariableColumns>, last: VariableColumns)
    requires specs == p + [last] && VariablesFit(specs, row) && VariablesFit(p, row) && VariableFits(last, row)
    requires VariableComplete(row, last) && forall j :: 0 <= j < |p| ==> VariableComplete(row, p[j])
    ensures forall j :: 0 <= j < |specs| ==> VariableComplete(row, specs[j])
  {
    forall j | 0 <= j < |specs|
      ensures VariableComplete(row, specs[j])
    {
      if j < |p| {
        assert specs[j] == p[j];
      }
    }
  }

  /** Appending a named group and its variable keeps the two lists in step. */
  lemma VariablesAppended(row: Row, named: seq<VariableColumns>, acc: seq<Variable>, last: VariableColumns)
    requires VariablesFit(named, row) && VariableFits(last, row) && row[last.name] != ""
    requires forall i :: 0 <= i < |named| ==> row[named[i].name] != ""
    requires |acc| == |named| && forall i :: 0 <= i < |named| ==> acc[i] == VariableOf(row, named[i])
    ensures var named' := named + [last];
      var acc' := acc + [VariableOf(row, last)];
      VariablesFit(named', row) &&
      |acc'| == |named'| && forall i :: 0 <= i < |named'| ==> acc'[i] == VariableOf(row, named'[i])
  {
  }

  /** An incomplete last group is the first incomplete one. */
  lemma VariablesMissingStep(row: Row, specs: seq<VariableColumns>)
    requires |specs| > 0 && VariablesFit(specs, row) && !VariableComplete(row, specs[|specs| - 1])
    requires VariablesMeaning(row, specs[..|specs| - 1], RfVariables(row, specs[..|specs| - 1]))
    requires RfVariables(row, specs[..|specs| - 1]).Ok?
    ensures VariablesMeaning(row, specs, RfVariables(row, specs))
  {
    var p := specs[..|specs| - 1];
    var last := specs[|specs| - 1];
    var r := Err(VariableError(row, last));
    assert RfVariables(row, specs) == r;
    assert forall j :: 0 <= j < |p| ==> specs[j] == p[j];
    VariablesMeaningErr(row, specs, r, |specs| - 1);
  }

  lemma VariablesMeaningOk(row: Row, specs: seq<VariableColumns>, r: Result<seq<Variable>>)
    requires VariablesFit(specs, row) && r.Ok?
    requires forall j :: 0 <= j < |specs| ==> VariableComplete(row, specs[j])
    requires var named := NamedVariables(row, specs);
      |r.value| == |named| && forall i :: 0 <= i < |named| ==> r.value[i] == VariableOf(row, named[i])
    ensures VariablesMeaning(row, specs, r)
  {
  }

  lemma VariablesMeaningErr(row: Row, specs: seq<VariableColumns>, r: Result<seq<Variable>>, j: nat)
    requires VariablesFit(specs, row) && j < |specs| && !VariableComplete(row, specs[j])
    requires forall j' :: 0 <= j' < j ==> VariableComplete(row, specs[j'])
    requires r == Err(VariableError(row, specs[j]))
    ensures VariablesMeaning(row, specs, r)
  {
  }

  lemma {:induction false} RfVariablesMeaningAt(row: Row, specs: seq<VariableColumns>)
    requires VariablesFit(specs, row)
    ensures VariablesMeaning(row, specs, RfVariables(row, specs))
    decreases |specs|
  {
    if specs != [] {
      var p := specs[..|specs| - 1];
      RfVariablesMeaningAt(row, p);
      if RfVariables(row, p).Err? {
        VariablesErrorStep(row, specs);
      } else if row[specs[|specs| - 1].name] == "" {
        VariablesBlankStep(row, specs);
      } else if VariableComplete(row, specs[|specs| - 1]) {
        VariablesNamedStep(row, specs);
      } else {
        VariablesMissingStep(row, specs);
      }
    }
  }

  /** A row's variables: one per non-empty name cell, in group order, carrying the name and both
      threshold cells; an error for the first named group with an empty threshold cell, naming the
      off threshold when that one is empty. */
  lemma RfVariablesResult(row: Row, specs: seq<VariableColumns>)
    requires VariablesFit(specs, row)
    ensures VariablesMeaning(row, specs, RfVariables(row, specs))
  {
    RfVariablesMeaningAt(row, specs);
  }

  // Parameters.

  /** One step of the parameter loop of a row. */
  function ParameterStep(row: Row, spec: ParameterColumns, acc: seq<Parameter>): Result<seq<Parameter>>
    requires ParameterFits(spec, row)
  {
    var name := row[spec.name];
    if name == "" then Ok(acc)
    else
      var value := row[spec.value.value];
      if value == "" then Err(ParameterValueNotSpecified(name))
      else Ok(acc + [Parameter(name, value)])
  }

  /** The `parameters` field of a row's record after the groups `specs`. */
  function RfParameters(row: Row, specs: seq<ParameterColumns>): Result<seq<Parameter>>
    requires ParametersFit(specs, row)
    decreases |specs|
  {
    if specs == [] then Ok([])
    else
      match RfParameters(row, specs[..|specs| - 1])
      case Err(e) => Err(e)
      case Ok(acc) => ParameterStep(row, specs[|specs| - 1], acc)
  }

  lemma {:induction false} ParametersErrorPersists(row: Row, specs: seq<ParameterColumns>, m: nat)
    requires m <= |specs| && ParametersFit(specs, row)
    requires ParametersFit(specs[..m], row) && RfParameters(row, specs[..m]).Err?
    ensures RfParameters(row, specs) == RfParameters(row, specs[..m])
    decreases |specs|
  {
    if m == |specs| {
      assert specs[..m] == specs;
    } else {
      var p := specs[..|specs| - 1];
      assert p[..m] == specs[..m];
      ParametersErrorPersists(row, p, m);
    }
  }

  /** Builds the parameters of one row, group by group. */
  method CollectParameters(row: Row, specs: seq<ParameterColumns>) returns (r: Result<seq<Parameter>>)
    requires ParametersFit(specs, row)
    ensures r == RfParameters(row, specs)
  {
    var parameters: seq<Parameter> := [];
    var g := 0;
    while g < |specs|
      invariant g <= |specs|
      invariant ParametersFit(specs[..g], row)
      invariant RfParameters(row, specs[..g]) == Ok(parameters)
    {
      var spec := specs[g];
      assert specs[..g + 1][..g] == specs[..g] && specs[..g + 1][g] == spec;
      assert RfParameters(row, specs[..g + 1]) == ParameterStep(row, spec, parameters);
      var parameter := row[spec.name];
      if |parameter| > 0 {
        var value := row[spec.value.value];
        if |value| == 0 {
          ParametersErrorPersists(row, specs, g + 1);
          return Err(ParameterValueNotSpecified(parameter));
        }
        parameters := parameters + [Parameter(parameter, value)];
      }
      g := g + 1;
    }
    assert specs[..|specs|] == specs;
    return Ok(parameters);
  }

  /** A parameter group is complete in a row: its name cell is empty, or its value cell is not. */
  predicate ParameterComplete(row: Row, p: ParameterColumns)
    requires ParameterFits(p, row)
  {
    row[p.name] == "" || row[p.value.value] != ""
  }

  /** The groups whose name cell is not empty, in header order. */
  function NamedParameters(row: Row, specs: seq<ParameterColumns>): (named: seq<ParameterColumns>)
    requires ParametersFit(specs, row)
    ensures ParametersFit(named, row)
    ensures forall i :: 0 <= i < |named| ==> row[named[i].name] != ""
    decreases |specs|
  {
    if specs == [] then []
    else
      var last := specs[|specs| - 1];
      NamedParameters(row, specs[..|specs| - 1]) + (if row[last.name] == "" then [] else [last])
  }

  /** The parameter a named group yields: the name cell and the value cell as they are. */
  function ParameterOf(row: Row, p: ParameterColumns): Parameter
    requires ParameterFits(p, row) && row[p.name] != ""
  {
    Parameter(row[p.name], row[p.value.value])
  }

  /** The meaning of `RfParameters` after the groups `specs`. */
  ghost predicate ParametersMeaning(row: Row, specs: seq<ParameterColumns>, r: Result<seq<Parameter>>)
    requires ParametersFit(specs, row)
  {
    var named := NamedParameters(row, specs);
    (r.Ok? <==> forall j :: 0 <= j < |specs| ==> ParameterComplete(row, specs[j])) &&
    (r.Ok? ==>
      |r.value| == |named| &&
      forall i :: 0 <= i < |named| ==> r.value[i] == ParameterOf(row, named[i])) &&
    (r.Err? ==>
      exists j ::
        && 0 <= j < |specs| && !ParameterComplete(row, specs[j])
        && (forall j' :: 0 <= j' < j ==> ParameterComplete(row, specs[j']))
        && r.error == ParameterValueNotSpecified(row[specs[j].name]))
  }

  lemma ParametersErrorStep(row: Row, specs: seq<ParameterColumns>)
    requires |specs| > 0 && ParametersFit(specs, row)
    requires ParametersMeaning(row, specs[..|specs| - 1], RfParameters(row, specs[..|specs| - 1]))
    requires RfParameters(row, specs[..|specs| - 1]).Err?
    ensures ParametersMeaning(row, specs, RfParameters(row, specs))
  {
    var p := specs[..|specs| - 1];
    var e := RfParameters(row, p).error;
    var j :| 0 <= j < |p| && !ParameterComplete(row, p[j]) &&
      (forall j' :: 0 <= j' < j ==> ParameterComplete(row, p[j'])) && e == ParameterValueNotSpecified(row[p[j].name]);
    assert specs[j] == p[j];
    assert forall j' :: 0 <= j' < j ==> specs[j'] == p[j'];
  }

  /** A last group with an empty name cell adds nothing. */
  lemma ParametersBlankStep(row: Row, specs: seq<ParameterColumns>)
    requires |specs| > 0 && ParametersFit(specs, row) && row[specs[|specs| - 1].name] == ""
    requires ParametersMeaning(row, specs[..|specs| - 1], RfParameters(row, specs[..|specs| - 1]))
    requires RfParameters(row, specs[..|specs| - 1]).Ok?
    ensures ParametersMeaning(row, specs, RfParameters(row, specs))
  {
    var p := specs[..|specs| - 1];
    var r := RfParameters(row, p);
    assert RfParameters(row, specs) == r;
    assert NamedParameters(row, specs) == NamedParameters(row, p);
    assert forall j :: 0 <= j < |p| ==> specs[j] == p[j];
    assert ParameterComplete(row, specs[|specs| - 1]);
    ParametersMeaningOk(row, specs, r);
  }

  /** A named, complete last group adds its parameter at the end. */
  lemma ParametersNamedStep(row: Row, specs: seq<ParameterColumns>)
    requires |specs| > 0 && ParametersFit(specs, row)
    requires row[specs[|specs| - 1].name] != "" && row[specs[|specs| - 1].value.value] != ""
    requires ParametersMeaning(row, specs[..|specs| - 1], RfParameters(row, specs[..|specs| - 1]))
    requires RfParameters(row, specs[..|specs| - 1]).Ok?
    ensures ParametersMeaning(row, specs, RfParameters(row, specs))
  {
    var p := specs[..|specs| - 1];
    var last := specs[|specs| - 1];
    var acc := RfParameters(row, p).value;
    var r := Ok(acc + [ParameterOf(row, last)]);
    assert RfParameters(row, specs) == r;
    assert NamedParameters(row, specs) == NamedParameters(row, p) + [last];
    assert forall j :: 0 <= j < |p| ==> specs[j] == p[j];
    ParametersMeaningOk(row, specs, r);
  }

  /** A named last group with an empty value cell is the first incomplete one. */
  lemma ParametersMissingStep(row: Row, specs: seq<ParameterColumns>)
    requires |specs| > 0 && ParametersFit(specs, row)
    requires row[specs[|specs| - 1].name] != "" && row[specs[|specs| - 1].value.value] == ""
    requires ParametersMeaning(row, specs[..|specs| - 1], RfParameters(row, specs[..|specs| - 1]))
    requires RfParameters(row, specs[..|specs| - 1]).Ok?
    ensures ParametersMeaning(row, specs, RfParameters(row, specs))
  {
    var p := specs[..|specs| - 1];
    var last := specs[|specs| - 1];
    var r := Err(ParameterValueNotSpecified(row[last.name]));
    assert RfParameters(row, specs) == r;
    assert forall j :: 0 <= j < |p| ==> specs[j] == p[j];
    assert !ParameterComplete(row, specs[|specs| - 1]);
    ParametersMeaningErr(row, specs, r, |specs| - 1);
  }

  lemma ParametersMeaningOk(row: Row, specs: seq<ParameterColumns>, r: Result<seq<Parameter>>)
    requires ParametersFit(specs, row) && r.Ok?
    requires forall j :: 0 <= j < |specs| ==> ParameterComplete(row, specs[j])
    requires var named := NamedParameters(row, specs);
      |r.value| == |named| && forall i :: 0 <= i < |named| ==> r.value[i] == ParameterOf(row, named[i])
    ensures ParametersMeaning(row, specs, r)
  {
  }

  lemma ParametersMeaningErr(row: Row, specs: seq<ParameterColumns>, r: Result<seq<Parameter>>, j: nat)
    requires ParametersFit(specs, row) && j < |specs| && !ParameterComplete(row, specs[j])
    requires forall j' :: 0 <= j' < j ==> ParameterComplete(row, specs[j'])
    requires r == Err(ParameterValueNotSpecified(row[specs[j].name]))
    ensures ParametersMeaning(row, specs, r)
  {
  }

  lemma {:induction false} RfParametersMeaningAt(row: Row, specs: seq<ParameterColumns>)
    requires ParametersFit(specs, row)
    ensures ParametersMeaning(row, specs, RfParameters(row, specs))
    decreases |specs|
  {
    if specs != [] {
      var p := specs[..|specs| - 1];
      RfParametersMeaningAt(row, p);
      if RfParameters(row, p).Err? {
        ParametersErrorStep(row, specs);
      } else if row[specs[|specs| - 1].name] == "" {
        ParametersBlankStep(row, specs);
      } else if row[specs[|specs| - 1].value.value] != "" {
        ParametersNamedStep(row, specs);
      } else {
        ParametersMissingStep(row, specs);
      }
    }
  }

  /** A row's parameters: one per non-empty name cell, in group order, carrying the name and the
      value cell; an error naming the first named group whose value cell is empty. */
  lemma RfParametersResult(row: Row, specs: seq<ParameterColumns>)
    requires ParametersFit(specs, row)
    ensures ParametersMeaning(row, specs, RfParameters(row, specs))
  {
    RfParametersMeaningAt(row, specs);
  }

  // Rows to records.

  function RfGateNameOf(k: RfHeader, row: Row): string
    requires RfRowFits(k, row)
  {
    row[k.gateName.value]
  }

  /** One row of the row loop, given the records built from the earlier rows. The equation cell is
      taken as it is. */
  function RfRow(k: RfHeader, row: Row, earlier: seq<Collection>): Result<Collection>
    requires RfRowFits(k, row)
  {
    var name := RfGateNameOf(k, row);
    if name == "" then Err(GateNameNotSpecified)
    else if HasKey(earlier, name) then Err(ResponseFunctionAlreadySpecified(name))
    else
      match RfVariables(row, k.variables)
      case Err(e) => Err(e)
      case Ok(variables) =>
        match RfParameters(row, k.parameters)
        case Err(e) => Err(e)
        case Ok(parameters) => Ok(ResponseFunction(name, row[k.equation.value], variables, parameters))
  }

  /** The `response_functions` list after the rows `rows`; zero-length rows are skipped. */
  function RfRows(k: RfHeader, rows: seq<Row>): Result<seq<Collection>>
    requires RfRowsFit(k, rows)
    decreases |rows|
  {
    if rows == [] then Ok([])
    else
      var last := rows[|rows| - 1];
      assert forall r :: r in rows[..|rows| - 1] ==> r in rows;
      match RfRows(k, rows[..|rows| - 1])
      case Err(e) => Err(e)
      case Ok(cs) => RfRowAppend(k, last, cs)
  }

  /** One turn of the row loop: a zero-length row is skipped, any other row adds its record or fails. */
  function RfRowAppend(k: RfHeader, row: Row, cs: seq<Collection>): Result<seq<Collection>>
    requires |row| > 0 ==> RfRowFits(k, row)
  {
    if |row| == 0 then Ok(cs)
    else
      match RfRow(k, row, cs)
      case Err(e) => Err(e)
      case Ok(c) => Ok(cs + [c])
  }

  /** The fold after `i + 1` rows is one more turn of the loop after `i` rows. */
  lemma RfRowsStep(k: RfHeader, rows: seq<Row>, i: nat, cs: seq<Collection>)
    requires i < |rows| && RfRowsFit(k, rows) && RfRowsFit(k, rows[..i]) && RfRows(k, rows[..i]) == Ok(cs)
    ensures RfRowsFit(k, rows[..i + 1])
    ensures RfRows(k, rows[..i + 1]) == RfRowAppend(k, rows[i], cs)
  {
    assert rows[..i + 1][..i] == rows[..i];
    assert forall x :: x in rows[..i + 1] ==> x in rows;
  }

  lemma {:induction false} RfRowsErrorPersists(k: RfHeader, rows: seq<Row>, m: nat)
    requires m <= |rows| && RfRowsFit(k, rows) && RfRowsFit(k, rows[..m]) && RfRows(k, rows[..m]).Err?
    ensures RfRows(k, rows) == RfRows(k, rows[..m])
    decreases |rows|
  {
    if m == |rows| {
      assert rows[..m] == rows;
    } else {
      var p := rows[..|rows| - 1];
      assert p[..m] == rows[..m];
      assert forall r :: r in p ==> r in rows;
      RfRowsErrorPersists(k, p, m);
    }
  }

  /** Reads the record of one non-empty row, given the records of the rows before it. */
  method ReadResponseFunction(k: RfHeader, row: Row, earlier: seq<Collection>) returns (r: Result<Collection>)
    requires RfRowFits(k, row)
    ensures r == RfRow(k, row, earlier)
  {
    var name := row[k.gateName.value];
    if |name| == 0 {
      return Err(GateNameNotSpecified);
    }
    var found := FindByKey(earlier, name);
    if found {
      return Err(ResponseFunctionAlreadySpecified(name));
    }
    var equation := row[k.equation.value];
    var variables := CollectVariables(row, k.variables);
    if variables.Err? {
      return Err(variables.error);
    }
    var parameters := CollectParameters(row, k.parameters);
    if parameters.Err? {
      return Err(parameters.error);
    }
    return Ok(ResponseFunction(name, equation, variables.value, parameters.value));
  }

  /** The row loop: one `response_functions` record per non-empty row. */
  method CollectResponseFunctions(k: RfHeader, rows: seq<Row>) returns (r: Result<seq<Collection>>)
    requires RfRowsFit(k, rows)
    ensures r == RfRows(k, rows)
  {
    var responseFunctions: seq<Collection> := [];
    var i := 0;
    while i < |rows|
      invariant i <= |rows|
      invariant RfRowsFit(k, rows[..i])
      invariant RfRows(k, rows[..i]) == Ok(responseFunctions)
    {
      var row := rows[i];
      RfRowsStep(k, rows, i, responseFunctions);
      if |row| > 0 {
        var c := ReadResponseFunction(k, row, responseFunctions);
        if c.Err? {
          RfRowsErrorPersists(k, rows, i + 1);
          return Err(c.error);
        }
        responseFunctions := responseFunctions + [c.value];
      }
      i := i + 1;
    }
    assert rows[..|rows|] == rows;
    return Ok(responseFunctions);
  }

  // What the row loop yields, stated row by row.

  /** A row is acceptable on its own: it names a gate and every named variable and parameter is complete. */
  predicate RfRowAcceptable(k: RfHeader, row: Row)
    requires RfRowFits(k, row)
  {
    RfGateNameOf(k, row) != "" && RfVariables(row, k.variables).Ok? && RfParameters(row, k.parameters).Ok?
  }

  /** The record an acceptable row yields. */
  function RfRecord(k: RfHeader, row: Row): Collection
    requires RfRowFits(k, row) && RfRowAcceptable(k, row)
  {
    ResponseFunction(RfGateNameOf(k, row), row[k.equation.value],
                     RfVariables(row, k.variables).value, RfParameters(row, k.parameters).value)
  }

  predicate EachRfRowFits(k: RfHeader, ne: seq<Row>) {
    forall i :: 0 <= i < |ne| ==> RfRowFits(k, ne[i])
  }

  /** Every row is acceptable and no two rows name the same gate. */
  predicate RfRowsOk(k: RfHeader, ne: seq<Row>)
    requires EachRfRowFits(k, ne)
  {
    (forall i :: 0 <= i < |ne| ==> RfRowAcceptable(k, ne[i])) &&
    (forall a, b :: 0 <= a < b < |ne| ==> RfGateNameOf(k, ne[a]) != RfGateNameOf(k, ne[b]))
  }

  /** `cs` holds the record of each row, in row order. */
  predicate RfRecordsOf(k: RfHeader, ne: seq<Row>, cs: seq<Collection>)
    requires EachRfRowFits(k, ne)
  {
    |cs| == |ne| &&
    forall i :: 0 <= i < |ne| ==> RfRowAcceptable(k, ne[i]) && cs[i] == RfRecord(k, ne[i])
  }

  lemma NonEmptyRfRowsFit(k: RfHeader, rows: seq<Row>)
    requires RfRowsFit(k, rows)
    ensures EachRfRowFits(k, NonEmptyRows(rows))
  {
  }

  ghost predicate RfRowsMeaning(k: RfHeader, rows: seq<Row>, r: Result<seq<Collection>>)
    requires RfRowsFit(k, rows)
  {
    NonEmptyRfRowsFit(k, rows);
    var ne := NonEmptyRows(rows);
    (r.Ok? <==> RfRowsOk(k, ne)) && (r.Ok? ==> RfRecordsOf(k, ne, r.value))
  }

  lemma RfRowsOkPrefix(k: RfHeader, ne: seq<Row>)
    requires |ne| > 0 && EachRfRowFits(k, ne) && RfRowsOk(k, ne)
    ensures EachRfRowFits(k, ne[..|ne| - 1]) && RfRowsOk(k, ne[..|ne| - 1])
  {
  }

  lemma RfRowsOkExtend(k: RfHeader, ne: seq<Row>, cs: seq<Collection>)
    requires |ne| > 0 && EachRfRowFits(k, ne)
    requires EachRfRowFits(k, ne[..|ne| - 1])
    requires RfRowsOk(k, ne[..|ne| - 1]) && RfRecordsOf(k, ne[..|ne| - 1], cs)
    ensures RfRowsOk(k, ne) <==>
      RfRowAcceptable(k, ne[|ne| - 1]) && !HasKey(cs, RfGateNameOf(k, ne[|ne| - 1]))
    ensures RfRowsOk(k, ne) ==> RfRecordsOf(k, ne, cs + [RfRecord(k, ne[|ne| - 1])])
  {
    var last := ne[|ne| - 1];
    if RfRowAcceptable(k, last) {
      if HasKey(cs, RfGateNameOf(k, last)) {
        RfRowsDuplicate(k, ne, ne[..|ne| - 1], cs);
      } else {
        RfRowsFresh(k, ne, ne[..|ne| - 1], cs);
      }
    }
  }

  /** A new row whose gate name is already recorded makes the rows not fine. */
  lemma RfRowsDuplicate(k: RfHeader, ne: seq<Row>, np: seq<Row>, cs: seq<Collection>)
    requires |ne| > 0 && EachRfRowFits(k, ne) && np == ne[..|ne| - 1] && EachRfRowFits(k, np)
    requires RfRecordsOf(k, np, cs) && RfRowAcceptable(k, ne[|ne| - 1])
    requires HasKey(cs, RfGateNameOf(k, ne[|ne| - 1]))
    ensures !RfRowsOk(k, ne)
  {
    var b := |np|;
    var j :| 0 <= j < |cs| && Key(cs[j]) == RfGateNameOf(k, ne[b]);
    assert ne[j] == np[j];
    assert cs[j] == RfRecord(k, np[j]);
    assert RfGateNameOf(k, ne[j]) == RfGateNameOf(k, ne[b]);
  }

  /** A new acceptable row whose gate name is not recorded keeps the rows fine and adds its record. */
  lemma RfRowsFresh(k: RfHeader, ne: seq<Row>, np: seq<Row>, cs: seq<Collection>)
    requires |ne| > 0 && EachRfRowFits(k, ne) && np == ne[..|ne| - 1] && EachRfRowFits(k, np)
    requires RfRowsOk(k, np) && RfRecordsOf(k, np, cs) && RfRowAcceptable(k, ne[|ne| - 1])
    requires !HasKey(cs, RfGateNameOf(k, ne[|ne| - 1]))
    ensures RfRowsOk(k, ne) && RfRecordsOf(k, ne, cs + [RfRecord(k, ne[|ne| - 1])])
  {
    RfFreshName(k, ne, np, cs);
    assert forall i :: 0 <= i < |np| ==> ne[i] == np[i];
  }

  /** The gate name of a new row that is not recorded differs from that of every earlier row. */
  lemma RfFreshName(k: RfHeader, ne: seq<Row>, np: seq<Row>, cs: seq<Collection>)
    requires |ne| > 0 && EachRfRowFits(k, ne) && np == ne[..|ne| - 1] && EachRfRowFits(k, np)
    requires RfRecordsOf(k, np, cs) && !HasKey(cs, RfGateNameOf(k, ne[|ne| - 1]))
    ensures forall a :: 0 <= a < |np| ==> RfGateNameOf(k, ne[a]) != RfGateNameOf(k, ne[|np|])
  {
    forall a | 0 <= a < |np|
      ensures RfGateNameOf(k, ne[a]) != RfGateNameOf(k, ne[|np|])
    {
      assert ne[a] == np[a];
      assert Key(cs[a]) == RfGateNameOf(k, np[a]);
    }
  }

  lemma RfRowStepMeaning(k: RfHeader, rows: seq<Row>)
    requires |rows| > 0 && RfRowsFit(k, rows)
    requires RfRowsFit(k, rows[..|rows| - 1])
    requires RfRowsMeaning(k, rows[..|rows| - 1], RfRows(k, rows[..|rows| - 1]))
    ensures RfRowsMeaning(k, rows, RfRows(k, rows))
  {
    var p := rows[..|rows| - 1];
    var last := rows[|rows| - 1];
    NonEmptyRfRowsFit(k, p);
    NonEmptyRfRowsFit(k, rows);
    var np := NonEmptyRows(p);
    var ne := NonEmptyRows(rows);
    var prev := RfRows(k, p);
    if |last| == 0 {
      assert ne == np;
    } else {
      assert ne == np + [last];
      assert ne[..|ne| - 1] == np;
      if prev.Err? {
        if RfRowsOk(k, ne) {
          RfRowsOkPrefix(k, ne);
        }
      } else {
        RfRowsOkExtend(k, ne, prev.value);
      }
    }
  }

  lemma {:induction false} RfRowsMeaningAt(k: RfHeader, rows: seq<Row>)
    requires RfRowsFit(k, rows)
    ensures RfRowsMeaning(k, rows, RfRows(k, rows))
    decreases |rows|
  {
    if rows != [] {
      var p := rows[..|rows| - 1];
      assert forall r :: r in p ==> r in rows;
      RfRowsMeaningAt(k, p);
      RfRowStepMeaning(k, rows);
    }
  }

  /** The row loop succeeds exactly when every non-empty row names a gate and completes every named
      variable and parameter, and no two non-empty rows name the same gate; it then yields one record
      per non-empty row, in row order. */
  lemma RfRowsResult(k: RfHeader, rows: seq<Row>)
    requires RfRowsFit(k, rows)
    ensures EachRfRowFits(k, NonEmptyRows(rows))
    ensures RfRows(k, rows).Ok? <==> RfRowsOk(k, NonEmptyRows(rows))
    ensures RfRows(k, rows).Ok? ==> RfRecordsOf(k, NonEmptyRows(rows), RfRows(k, rows).value)
  {
    RfRowsMeaningAt(k, rows);
  }

  /** Some earlier row names the same gate as row `i`. */
  predicate RfNamedEarlier(k: RfHeader, ne: seq<Row>, i: nat)
    requires EachRfRowFits(k, ne) && i < |ne|
  {
    exists a :: 0 <= a < i && RfGateNameOf(k, ne[a]) == RfGateNameOf(k, ne[i])
  }

  /** The error row `i` raises given the rows before it, stated on the rows themselves. */
  function RfRowError(k: RfHeader, ne: seq<Row>, i: nat): Option<Error>
    requires EachRfRowFits(k, ne) && i < |ne|
  {
    var row := ne[i];
    var name := RfGateNameOf(k, row);
    if name == "" then Some(GateNameNotSpecified)
    else if RfNamedEarlier(k, ne, i) then Some(ResponseFunctionAlreadySpecified(name))
    else if RfVariables(row, k.variables).Err? then Some(RfVariables(row, k.variables).error)
    else if RfParameters(row, k.parameters).Err? then Some(RfParameters(row, k.parameters).error)
    else None
  }

  /** Row `i` is the first row that raises an error, and that error is `e`. */
  predicate FirstRfError(k: RfHeader, ne: seq<Row>, i: nat, e: Error)
    requires EachRfRowFits(k, ne)
  {
    i < |ne| && RfRowError(k, ne, i) == Some(e) &&
    forall a :: 0 <= a < i ==> RfRowError(k, ne, a).None?
  }

  lemma RfRowErrorPrefix(k: RfHeader, ne: seq<Row>, a: nat)
    requires |ne| > 0 && EachRfRowFits(k, ne) && a < |ne| - 1
    ensures EachRfRowFits(k, ne[..|ne| - 1])
    ensures RfRowError(k, ne[..|ne| - 1], a) == RfRowError(k, ne, a)
  {
    var np := ne[..|ne| - 1];
    assert forall b :: 0 <= b <= a ==> np[b] == ne[b];
    assert RfNamedEarlier(k, np, a) <==> RfNamedEarlier(k, ne, a);
  }

  /** Rows that are fine raise no error. */
  lemma RfRowsOkNoError(k: RfHeader, ne: seq<Row>)
    requires EachRfRowFits(k, ne) && RfRowsOk(k, ne)
    ensures forall a :: 0 <= a < |ne| ==> RfRowError(k, ne, a).None?
  {
    forall a | 0 <= a < |ne|
      ensures RfRowError(k, ne, a).None?
    {
      assert !RfNamedEarlier(k, ne, a);
    }
  }

  /** After rows that are fine, the next row fails as `RfRowError` says. */
  lemma RfRowErrorAfterOk(k: RfHeader, ne: seq<Row>, cs: seq<Collection>)
    requires |ne| > 0 && EachRfRowFits(k, ne)
    requires EachRfRowFits(k, ne[..|ne| - 1])
    requires RfRowsOk(k, ne[..|ne| - 1]) && RfRecordsOf(k, ne[..|ne| - 1], cs)
    ensures RfRow(k, ne[|ne| - 1], cs).Err? <==> RfRowError(k, ne, |ne| - 1).Some?
    ensures RfRow(k, ne[|ne| - 1], cs).Err? ==>
      RfRowError(k, ne, |ne| - 1) == Some(RfRow(k, ne[|ne| - 1], cs).error)
  {
    var np := ne[..|ne| - 1];
    var b := |np|;
    var name := RfGateNameOf(k, ne[b]);
    assert forall i :: 0 <= i < b ==> ne[i] == np[i];
    if HasKey(cs, name) {
      var j :| 0 <= j < |cs| && Key(cs[j]) == name;
      assert cs[j] == RfRecord(k, np[j]);
      assert RfGateNameOf(k, ne[j]) == name;
    }
    if RfNamedEarlier(k, ne, b) {
      var a :| 0 <= a < b && RfGateNameOf(k, ne[a]) == name;
      assert cs[a] == RfRecord(k, np[a]);
      assert Key(cs[a]) == name;
    }
  }

  /** The first failing row among all but the last is still the first failing row. */
  lemma FirstRfErrorKept(k: RfHeader, ne: seq<Row>, i: nat, e: Error)
    requires |ne| > 0 && EachRfRowFits(k, ne) && EachRfRowFits(k, ne[..|ne| - 1])
    requires FirstRfError(k, ne[..|ne| - 1], i, e)
    ensures FirstRfError(k, ne, i, e)
  {
    forall a | 0 <= a <= i
      ensures RfRowError(k, ne, a) == RfRowError(k, ne[..|ne| - 1], a)
    {
      RfRowErrorPrefix(k, ne, a);
    }
  }

  /** After rows that are fine, a failing last row is the first failing row. */
  lemma FirstRfErrorLast(k: RfHeader, ne: seq<Row>, cs: seq<Collection>)
    requires |ne| > 0 && EachRfRowFits(k, ne) && EachRfRowFits(k, ne[..|ne| - 1])
    requires RfRowsOk(k, ne[..|ne| - 1]) && RfRecordsOf(k, ne[..|ne| - 1], cs)
    ensures RfRow(k, ne[|ne| - 1], cs).Err? ==>
      FirstRfError(k, ne, |ne| - 1, RfRow(k, ne[|ne| - 1], cs).error)
  {
    var np := ne[..|ne| - 1];
    RfRowsOkNoError(k, np);
    forall a | 0 <= a < |np|
      ensures RfRowError(k, ne, a).None?
    {
      RfRowErrorPrefix(k, ne, a);
    }
    RfRowErrorAfterOk(k, ne, cs);
  }

  lemma {:induction false} RfRowsErrorAt(k: RfHeader, rows: seq<Row>)
    requires RfRowsFit(k, rows)
    ensures EachRfRowFits(k, NonEmptyRows(rows))
    ensures RfRows(k, rows).Err? ==>
      exists i :: FirstRfError(k, NonEmptyRows(rows), i, RfRows(k, rows).error)
    decreases |rows|
  {
    NonEmptyRfRowsFit(k, rows);
    if rows != [] {
      var p := rows[..|rows| - 1];
      var last := rows[|rows| - 1];
      assert forall r :: r in p ==> r in rows;
      RfRowsErrorAt(k, p);
      var np := NonEmptyRows(p);
      var ne := NonEmptyRows(rows);
      var prev := RfRows(k, p);
      if |last| == 0 {
        assert ne == np;
      } else {
        assert ne == np + [last];
        assert ne[..|ne| - 1] == np && ne[|ne| - 1] == last;
        if prev.Err? {
          var i :| FirstRfError(k, np, i, prev.error);
          FirstRfErrorKept(k, ne, i, prev.error);
        } else {
          RfRowsMeaningAt(k, p);
          FirstRfErrorLast(k, ne, prev.value);
        }
      }
    }
  }

  /** A failing row loop fails at its first non-empty row that lacks a gate name, repeats an
      earlier row's gate name, or has an incomplete variable or parameter, checked in that order;
      the error says which. */
  lemma RfRowsRejected(k: RfHeader, rows: seq<Row>)
    requires RfRowsFit(k, rows)
    ensures EachRfRowFits(k, NonEmptyRows(rows))
    ensures RfRows(k, rows).Err? ==>
      exists i :: FirstRfError(k, NonEmptyRows(rows), i, RfRows(k, rows).error)
  {
    RfRowsErrorAt(k, rows);
  }

  // The whole stage.

  /** The rows can be read wherever an accepted header says the source reads them. */
  predicate RfStageFits(t: Table) {
    match RfHeaderKeys(t.file, t.header)
    case Err(_) => true
    case Ok(k) => RfRowsFit(k, t.rows)
  }

  /** The collections the stage appends: the header scan, then the row loop. */
  function ResponseFunctionsOf(t: Table): Result<seq<Collection>>
    requires RfStageFits(t)
  {
    match RfHeaderKeys(t.file, t.header)
    case Err(e) => Err(e)
    case Ok(k) => RfRows(k, t.rows)
  }

  /** Reads the response-functions table and appends its records to the document. */
  method AddResponseFunctions(t: Table, ucf: Document) returns (r: Outcome)
    requires RfStageFits(t)
    modifies ucf
    ensures ResponseFunctionsOf(t).Ok? ==> r == Pass && ucf.entries == old(ucf.entries) + ResponseFunctionsOf(t).value
    ensures ResponseFunctionsOf(t).Err? ==> r == Fail(ResponseFunctionsOf(t).error) && ucf.entries == old(ucf.entries)
  {
    var keys := ScanResponseFunctionsHeader(t.file, t.header);
    if keys.Err? {
      return Fail(keys.error);
    }
    var responseFunctions := CollectResponseFunctions(keys.value, t.rows);
    if responseFunctions.Err? {
      return Fail(responseFunctions.error);
    }
    ucf.Extend(responseFunctions.value);
    return Pass;
  }
}
