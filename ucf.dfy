/** The data model of the UCF builder: the collections a run appends to the document,
    and the errors that abort a run. */
module Ucf {

  datatype Option<+T> = None | Some(value: T)

  /** Every exception the builder raises. Each one aborts the whole run. */
  datatype Error =
    | UnexpectedHeaderKey(file: string, position: nat)    // a header column that is not expected where it stands
    | GateNameNotSpecified                                // a row whose gate name cell is empty
    | CassettesAlreadySpecified(gateName: string)         // a second gate-parts row for one gate
    | VariableAlreadyAdded(variable: string)              // one variable named twice in a gate-parts row
    | ResponseFunctionAlreadySpecified(gateName: string)  // a second response-function row for one gate
    | OffThresholdNotSpecified(variable: string)
    | OnThresholdNotSpecified(variable: string)
    | ParameterValueNotSpecified(parameter: string)
    | PartNameNotSpecified
    | PartAlreadySpecified(name: string)
    | PartTypeNotSpecified(name: string)
    | PartDnaSequenceNotSpecified(name: string)
    | NotImplemented(message: string)                     // a stage that has no implementation

  datatype Result<+T> = Ok(value: T) | Err(error: Error)

  /** The outcome of a stage that updates the document in place. */
  datatype Outcome = Pass | Fail(error: Error)

  /** One expression cassette of a gate: the response-function variable it drives and its parts. */
  datatype Cassette = Cassette(mapsToVariable: string, cassetteParts: seq<string>)

  /** A response-function variable. The thresholds are kept as the validated, non-empty cells. */
  datatype Variable = Variable(name: string, offThreshold: string, onThreshold: string)

  /** A response-function parameter. The value is kept as the validated, non-empty cell. */
  datatype Parameter = Parameter(name: string, value: string)

  /** One tagged record of the document. `expressionCassettes` is `None` when the source
      never created the field (every variable cell of the row was empty). */
  datatype Collection =
    | GateParts(gateName: string, expressionCassettes: Option<seq<Cassette>>, promoter: string)
    | ResponseFunction(gateName: string, equation: string, variables: seq<Variable>, parameters: seq<Parameter>)
    | Part(name: string, partType: string, dnaSequence: string)

  const GATE_PARTS_TAG := "gate_parts"
  const RESPONSE_FUNCTIONS_TAG := "response_functions"
  const PARTS_TAG := "parts"

  /** The value of the record's "collection" field. */
  function Tag(c: Collection): string {
    match c
    case GateParts(_, _, _) => GATE_PARTS_TAG
    case ResponseFunction(_, _, _, _) => RESPONSE_FUNCTIONS_TAG
    case Part(_, _, _) => PARTS_TAG
  }

  /** The field a stage searches when it looks for an existing record: the gate name, or the part name. */
  function Key(c: Collection): string {
    match c
    case GateParts(g, _, _) => g
    case ResponseFunction(g, _, _, _) => g
    case Part(n, _, _) => n
  }

  /** Whether some record of `cs` carries the key `key` (the linear search of each row loop). */
  predicate HasKey(cs: seq<Collection>, key: string) {
    exists j :: 0 <= j < |cs| && Key(cs[j]) == key
  }

  /** Linear search for a record with the given key. */
  method FindByKey(cs: seq<Collection>, key: string) returns (found: bool)
    ensures found <==> exists j :: 0 <= j < |cs| && Key(cs[j]) == key
  {
    found := false;
    var j := 0;
    while j < |cs|
      invariant j <= |cs|
      invariant found <==> exists i :: 0 <= i < j && Key(cs[i]) == key
    {
      if Key(cs[j]) == key {
        found := true;
      }
      j := j + 1;
    }
  }

  /** The document under construction: the list that every stage extends in place. */
  class Document {
    var entries: seq<Collection>

    constructor ()
      ensures entries == []
    {
      entries := [];
    }

    /** Appends the collections of one stage at the end, leaving earlier entries as they are. */
    method Extend(cs: seq<Collection>)
      modifies this
      ensures entries == old(entries) + cs
    {
      entries := entries + cs;
    }
  }
}
