/** The whole run: the optional stages that have no implementation, the three table stages in
    their fixed order, and the document they build together. */
module UcfBuilder {
  import opened Ucf
  import opened Tables
  import GatePartsStage
  import ResponseFunctionsStage
  import PartsStage

  const MOTIF_LIBRARY_MESSAGE := "Motif library not implemented."
  const TOXICITY_MESSAGE := "Toxicity not implemented."
  const CYTOMETRY_MESSAGE := "Cytometry not implemented."
  const HEADER_MESSAGE := "Header not implemented."
  const MEASUREMENT_STANDARD_MESSAGE := "Measurement standard not implemented."
  const LOGIC_CONSTRAINTS_MESSAGE := "Logic constraints not implemented."
  const PLACEMENT_RULES_MESSAGE := "Placement rules not implemented."

  // ---------------------------------------------------------------------------
  // Stages without an implementation: each one fails and leaves the document as it is.
  // ---------------------------------------------------------------------------

  method AddMotifLibrary(file: string, ucf: Document) returns (r: Outcome)
    ensures r == Fail(NotImplemented(MOTIF_LIBRARY_MESSAGE))
  {
    return Fail(NotImplemented(MOTIF_LIBRARY_MESSAGE));
  }

  method AddStandardMotifLibrary(ucf: Document) returns (r: Outcome)
    ensures r == Fail(NotImplemented(MOTIF_LIBRARY_MESSAGE))
  {
    return Fail(NotImplemented(MOTIF_LIBRARY_MESSAGE));
  }

  method AddToxicity(file: string, ucf: Document) returns (r: Outcome)
    ensures r == Fail(NotImplemented(TOXICITY_MESSAGE))
  {
    return Fail(NotImplemented(TOXICITY_MESSAGE));
  }

  method AddCytometry(file: string, ucf: Document) returns (r: Outcome)
    ensures r == Fail(NotImplemented(CYTOMETRY_MESSAGE))
  {
    return Fail(NotImplemented(CYTOMETRY_MESSAGE));
  }

  method AddHeader(file: string, ucf: Document) returns (r: Outcome)
    ensures r == Fail(NotImplemented(HEADER_MESSAGE))
  {
    return Fail(NotImplemented(HEADER_MESSAGE));
  }

  method AddMeasurementStandard(file: string, ucf: Document) returns (r: Outcome)
    ensures r == Fail(NotImplemented(MEASUREMENT_STANDARD_MESSAGE))
  {
    return Fail(NotImplemented(MEASUREMENT_STANDARD_MESSAGE));
  }

  method AddLogicConstraints(file: string, ucf: Document) returns (r: Outcome)
    ensures r == Fail(NotImplemented(LOGIC_CONSTRAINTS_MESSAGE))
  {
    return Fail(NotImplemented(LOGIC_CONSTRAINTS_MESSAGE));
  }

  method AddPlacementRules(file: string, ucf: Document) returns (r: Outcome)
    ensures r == Fail(NotImplemented(PLACEMENT_RULES_MESSAGE))
  {
    return Fail(NotImplemented(PLACEMENT_RULES_MESSAGE));
  }

  // ---------------------------------------------------------------------------
  // The run
  // ---------------------------------------------------------------------------

  /** The command-line options the run looks at. The three tables are required; an optional file
      option is `None` when absent. */
  datatype Options = Options(
    gateParts: Table,
    responseFunctions: Table,
    parts: Table,
    motifLibrary: Option<string>,
    stdMotifLibrary: bool,
    toxicity: Option<string>,
    cytometry: Option<string>,
    placementRules: Option<string>,
    measurementStd: Option<string>)

  /** An optional file option selects its stage when it is present and not the empty string. */
  predicate Given(o: Option<string>) {
    o.Some? && o.value != ""
  }

  /** The option parser refuses `--motif-library` together with `--std-motif-library`, and every
      table the run reaches can be read where its accepted header says its rows are read: the
      gate-parts table unless a motif library is selected, the response-functions table once
      the gate-parts stage succeeds, the parts table once that stage succeeds too. */
  predicate RunFits(o: Options) {
    !(o.motifLibrary.Some? && o.stdMotifLibrary) &&
    (!Given(o.motifLibrary) && !o.stdMotifLibrary ==>
      GatePartsStage.GateStageFits(o.gateParts) &&
      (GatePartsStage.GatePartsOf(o.gateParts).Ok? ==>
        ResponseFunctionsStage.RfStageFits(o.responseFunctions) &&
        (ResponseFunctionsStage.ResponseFunctionsOf(o.responseFunctions).Ok? ==>
          PartsStage.PartStageFits(o.parts))))
  }

  /** The error of the first unimplemented stage selected after the parts stage, if any. */
  function LaterStubError(o: Options): Option<Error> {
    if Given(o.toxicity) then Some(NotImplemented(TOXICITY_MESSAGE))
    else if Given(o.cytometry) then Some(NotImplemented(CYTOMETRY_MESSAGE))
    else if Given(o.placementRules) then Some(NotImplemented(PLACEMENT_RULES_MESSAGE))
    else if Given(o.measurementStd) then Some(NotImplemented(MEASUREMENT_STANDARD_MESSAGE))
    else None
  }

  /** The document a run prints, or the error that aborts it: the motif stages, then gate parts,
      response functions and parts, then the remaining selected stages. */
  function Assemble(o: Options): Result<seq<Collection>>
    requires RunFits(o)
  {
    if Given(o.motifLibrary) || o.stdMotifLibrary then Err(NotImplemented(MOTIF_LIBRARY_MESSAGE))
    else
      match GatePartsStage.GatePartsOf(o.gateParts)
      case Err(e) => Err(e)
      case Ok(g) =>
        match ResponseFunctionsStage.ResponseFunctionsOf(o.responseFunctions)
        case Err(e) => Err(e)
        case Ok(f) =>
          match PartsStage.PartsOf(o.parts)
          case Err(e) => Err(e)
          case Ok(p) =>
            match LaterStubError(o)
            case Some(e) => Err(e)
            case None => Ok(g + f + p)
  }

  /** Runs the stages in order on one document and returns it, or the first error raised. */
  method BuildUcf(o: Options) returns (r: Result<seq<Collection>>)
    requires RunFits(o)
    ensures r == Assemble(o)
  {
    var ucf := new Document();
    var outcome: Outcome;
    if Given(o.motifLibrary) {
      outcome := AddMotifLibrary(o.motifLibrary.value, ucf);
      return Err(outcome.error);
    }
    if o.stdMotifLibrary {
      outcome := AddStandardMotifLibrary(ucf);
      return Err(outcome.error);
    }
    ghost var g := GatePartsStage.GatePartsOf(o.gateParts);
    outcome := GatePartsStage.AddGateParts(o.gateParts, ucf);
    if outcome.Fail? {
      return Err(outcome.error);
    }
    assert ucf.entries == g.value;
    ghost var f := ResponseFunctionsStage.ResponseFunctionsOf(o.responseFunctions);
    outcome := ResponseFunctionsStage.AddResponseFunctions(o.responseFunctions, ucf);
    if outcome.Fail? {
      return Err(outcome.error);
    }
    assert ucf.entries == g.value + f.value;
    ghost var p := PartsStage.PartsOf(o.parts);
    outcome := PartsStage.AddParts(o.parts, ucf);
    if outcome.Fail? {
      return Err(outcome.error);
    }
    assert ucf.entries == g.value + f.value + p.value;
    assert Assemble(o) == if LaterStubError(o).Some? then Err(LaterStubError(o).value) else Ok(ucf.entries);
    if Given(o.toxicity) {
      outcome := AddToxicity(o.toxicity.value, ucf);
      return Err(outcome.error);
    }
    if Given(o.cytometry) {
      outcome := AddCytometry(o.cytometry.value, ucf);
      return Err(outcome.error);
    }
    if Given(o.placementRules) {
      outcome := AddPlacementRules(o.placementRules.value, ucf);
      return Err(outcome.error);
    }
    if Given(o.measurementStd) {
      outcome := AddMeasurementStandard(o.measurementStd.value, ucf);
      return Err(outcome.error);
    }
    return Ok(ucf.entries);
  }

  // ---------------------------------------------------------------------------
  // What a run yields
  // ---------------------------------------------------------------------------

  /** The position of a record's collection in the document: gate parts, response functions, parts. */
  function Rank(c: Collection): nat {
    match c
    case GateParts(_, _, _) => 0
    case ResponseFunction(_, _, _, _) => 1
    case Part(_, _, _) => 2
  }

  /** Every record of `cs` belongs to the collection of rank `rank`, and no two share a key. */
  predicate OneCollection(cs: seq<Collection>, rank: nat) {
    (forall i :: 0 <= i < |cs| ==> Rank(cs[i]) == rank) &&
    (forall a, b :: 0 <= a < b < |cs| ==> Key(cs[a]) != Key(cs[b]))
  }

  lemma GateStageCollection(t: Table)
    requires GatePartsStage.GateStageFits(t)
    ensures GatePartsStage.GatePartsOf(t).Ok? ==>
      OneCollection(GatePartsStage.GatePartsOf(t).value, 0) &&
      |GatePartsStage.GatePartsOf(t).value| == |NonEmptyRows(t.rows)|
  {
    var keys := GatePartsStage.GateHeaderKeys(t.file, t.header);
    if keys.Ok? {
      GatePartsStage.GateRowsResult(keys.value, t.rows);
    }
  }

  lemma ResponseFunctionsStageCollection(t: Table)
    requires ResponseFunctionsStage.RfStageFits(t)
    ensures ResponseFunctionsStage.ResponseFunctionsOf(t).Ok? ==>
      OneCollection(ResponseFunctionsStage.ResponseFunctionsOf(t).value, 1) &&
      |ResponseFunctionsStage.ResponseFunctionsOf(t).value| == |NonEmptyRows(t.rows)|
  {
    var keys := ResponseFunctionsStage.RfHeaderKeys(t.file, t.header);
    if keys.Ok? {
      ResponseFunctionsStage.RfRowsResult(keys.value, t.rows);
    }
  }

  lemma PartsStageCollection(t: Table)
    requires PartsStage.PartStageFits(t)
    ensures PartsStage.PartsOf(t).Ok? ==>
      OneCollection(PartsStage.PartsOf(t).value, 2) &&
      |PartsStage.PartsOf(t).value| == |NonEmptyRows(t.rows)|
  {
    var keys := PartsStage.PartHeaderKeys(t.file, t.header);
    if keys.Ok? {
      PartsStage.PartRowsResult(keys.value, t.rows);
    }
  }

  /** Three collections laid end to end in rank order keep the ranks in order, and records of one
      rank keep distinct keys. */
  lemma ConcatCollections(g: seq<Collection>, f: seq<Collection>, p: seq<Collection>)
    requires OneCollection(g, 0) && OneCollection(f, 1) && OneCollection(p, 2)
    ensures var d := g + f + p;
      forall a, b :: 0 <= a < b < |d| ==>
        Rank(d[a]) <= Rank(d[b]) && (Rank(d[a]) == Rank(d[b]) ==> Key(d[a]) != Key(d[b]))
  {
    var d := g + f + p;
    forall a, b | 0 <= a < b < |d|
      ensures Rank(d[a]) <= Rank(d[b]) && (Rank(d[a]) == Rank(d[b]) ==> Key(d[a]) != Key(d[b]))
    {
      if b < |g| {
        assert d[a] == g[a] && d[b] == g[b];
      } else if b < |g| + |f| {
        if a >= |g| {
          assert d[a] == f[a - |g|] && d[b] == f[b - |g|];
        } else {
          assert d[a] == g[a] && d[b] == f[b - |g|];
        }
      } else {
        var b' := b - |g| - |f|;
        assert d[b] == p[b'];
        if a >= |g| + |f| {
          assert d[a] == p[a - |g| - |f|];
        } else if a >= |g| {
          assert d[a] == f[a - |g|];
        } else {
          assert d[a] == g[a];
        }
      }
    }
  }

  /** A run succeeds exactly when no unimplemented stage is selected and all three table stages
      succeed; its document then holds the gate-parts records, then the response-function records,
      then the part records, one per non-empty row of each table, with no key repeated within a
      collection. */
  lemma BuildSucceeds(o: Options)
    requires RunFits(o)
    ensures Assemble(o).Ok? <==>
      !Given(o.motifLibrary) && !o.stdMotifLibrary &&
      !Given(o.toxicity) && !Given(o.cytometry) && !Given(o.placementRules) && !Given(o.measurementStd) &&
      GatePartsStage.GatePartsOf(o.gateParts).Ok? &&
      ResponseFunctionsStage.ResponseFunctionsOf(o.responseFunctions).Ok? &&
      PartsStage.PartsOf(o.parts).Ok?
    ensures Assemble(o).Ok? ==>
      var d := Assemble(o).value;
      |d| == |NonEmptyRows(o.gateParts.rows)| + |NonEmptyRows(o.responseFunctions.rows)| + |NonEmptyRows(o.parts.rows)| &&
      forall a, b :: 0 <= a < b < |d| ==>
        Rank(d[a]) <= Rank(d[b]) && (Rank(d[a]) == Rank(d[b]) ==> Key(d[a]) != Key(d[b]))
  {
    if Assemble(o).Ok? {
      GateStageCollection(o.gateParts);
      ResponseFunctionsStageCollection(o.responseFunctions);
      PartsStageCollection(o.parts);
      ConcatCollections(GatePartsStage.GatePartsOf(o.gateParts).value,
                        ResponseFunctionsStage.ResponseFunctionsOf(o.responseFunctions).value,
                        PartsStage.PartsOf(o.parts).value);
    }
  }

  /** Selecting a motif library fails the run with the motif-library message whatever the tables hold. */
  lemma MotifLibraryFails(o: Options)
    requires RunFits(o) && (Given(o.motifLibrary) || o.stdMotifLibrary)
    ensures Assemble(o) == Err(NotImplemented(MOTIF_LIBRARY_MESSAGE))
  {
  }

  /** Once the three table stages succeed, a selected later stage fails the run with the message of
      the first one selected, in the order toxicity, cytometry, placement rules, measurement standard. */
  lemma LaterStageFails(o: Options)
    requires RunFits(o) && !Given(o.motifLibrary) && !o.stdMotifLibrary
    requires GatePartsStage.GatePartsOf(o.gateParts).Ok?
    requires ResponseFunctionsStage.ResponseFunctionsOf(o.responseFunctions).Ok?
    requires PartsStage.PartsOf(o.parts).Ok?
    ensures Given(o.toxicity) ==> Assemble(o) == Err(NotImplemented(TOXICITY_MESSAGE))
    ensures !Given(o.toxicity) && Given(o.cytometry) ==> Assemble(o) == Err(NotImplemented(CYTOMETRY_MESSAGE))
    ensures !Given(o.toxicity) && !Given(o.cytometry) && Given(o.placementRules) ==>
      Assemble(o) == Err(NotImplemented(PLACEMENT_RULES_MESSAGE))
    ensures !Given(o.toxicity) && !Given(o.cytometry) && !Given(o.placementRules) && Given(o.measurementStd) ==>
      Assemble(o) == Err(NotImplemented(MEASUREMENT_STANDARD_MESSAGE))
  {
  }

  /** A table stage that fails aborts the run with its own error, the earliest stage first. */
  lemma TableStageFails(o: Options)
    requires RunFits(o) && !Given(o.motifLibrary) && !o.stdMotifLibrary
    ensures GatePartsStage.GatePartsOf(o.gateParts).Err? ==>
      Assemble(o) == Err(GatePartsStage.GatePartsOf(o.gateParts).error)
    ensures (GatePartsStage.GatePartsOf(o.gateParts).Ok? &&
             ResponseFunctionsStage.ResponseFunctionsOf(o.responseFunctions).Err?) ==>
      Assemble(o) == Err(ResponseFunctionsStage.ResponseFunctionsOf(o.responseFunctions).error)
    ensures (GatePartsStage.GatePartsOf(o.gateParts).Ok? &&
             ResponseFunctionsStage.ResponseFunctionsOf(o.responseFunctions).Ok? &&
             PartsStage.PartsOf(o.parts).Err?) ==>
      Assemble(o) == Err(PartsStage.PartsOf(o.parts).error)
  {
  }
}
