# UCF builder, modelled in Dafny

`ucf_builder.py` builds a user constraint file (UCF): the JSON list that a genetic-circuit design
tool reads. It builds that list from three CSV tables:

- gate parts: for each gate, its promoter and the expression cassettes that drive each
  response-function variable;
- response functions: for each gate, its equation, variables with off/on thresholds, and
  parameters;
- parts: name, type and DNA sequence of each part.

Each table is read in two loops:

1. A **header loop** walks the columns left to right. It keeps a set of column names it currently
   expects and records which column holds what. A column that is not expected where it stands
   aborts the run with "Unexpected header key … at position i".
2. A **row loop** turns every non-empty row into one record. A blank key cell or a missing value
   aborts the run, and so does a key already used by an earlier row.

The stages run in a fixed order, each appending to one document:
1. motif library (either option);
2. gate parts;
3. response functions;
4. parts;
5. toxicity, cytometry, placement rules, measurement standard.

The stages in steps 1 and 5 have no implementation: selecting one fails the run with its message.

The model keeps the program's imperative form:

- Each loop is a Dafny `method` with a `while` loop.
- The method is proved equal to a specification function: a fold over a prefix of the header or
  of the rows.
- The document is a `Document` class whose field `entries` every stage extends in place.
- Lemmas state what each fold means column by column and row by row:
  - which headers are accepted, and at which column a header is rejected;
  - which columns are recorded for what;
  - when a row loop succeeds, and which records it yields;
  - at which row it fails and with which error.

Modules:

- `Ucf` (`ucf.dfy`): the error kinds, the record types and the `Document` class.
- `Tables` (`tables.dfy`): rows, and the vocabulary for stating what a header scan finds. That is
  positions of a name, "a group is still open", and the columns a group holds.
- `GatePartsStage`, `ResponseFunctionsStage`, `PartsStage`: one module per table stage.
- `UcfBuilder` (`builder.dfy`): the stubs and the run as `main` performs it.

Two behaviours of the code are modelled as written:

- `spec[part] == 0` compares a list with the number 0, so it is never true. The "No parts
  specified" warning is never raised, and a cassette group with no `part` columns yields an empty
  `cassette_parts`.
- A record gets its `expression_cassettes` field only once some variable cell of the row is
  non-empty. `GateParts.expressionCassettes` is therefore `None` when every variable cell is blank.

A variable repeated within one gate-parts row raises a `RuntimeWarning`, whose text says
"Skipping". Raising it aborts the run, so it is modelled as the error `VariableAlreadyAdded`.

## Model

| member | source | states |
|---|---|---|
| Ucf.FindByKey | ucf_builder.py:64-66 | the linear search over the records so far finds a record exactly when one carries the key |
| Ucf.Document.Extend | ucf_builder.py:115 | a stage appends its records after the existing entries and leaves those unchanged |
| Tables.NonBlankCells | ucf_builder.py:104-106 | the collected part cells are at most the part columns and none of them is empty |
| Tables.NonBlankCellsMembers | ucf_builder.py:104-106 | a cell is collected exactly when it is non-empty and stands at one of the group's part columns |
| Tables.CollectNonBlank | ucf_builder.py:104-106 | the part loop collects exactly the non-empty cells of the group's part columns, in column order |
| GatePartsStage.ScanGatePartsHeader | ucf_builder.py:24-42 | the header loop returns exactly the fold of the step function over the columns, including the error at the first unexpected column |
| GatePartsStage.GateHeaderStep | ucf_builder.py:26-42 | a column is rejected exactly when it is not in the expected set |
| GatePartsStage.GateHeaderAccepted | ucf_builder.py:24-42 | a header is accepted iff each column is `gate_name` or `promoter` seen for the first time, any `variable`, or a `part` after some `variable` |
| GatePartsStage.GateHeaderRejected | ucf_builder.py:41-42 | a rejected header reports its file and the position of its first unacceptable column, and every earlier column is acceptable |
| GatePartsStage.GateHeaderColumns | ucf_builder.py:28-40 | an accepted header records the one `gate_name` column, the one `promoter` column, and one cassette group per `variable` column; each group holds exactly the `part` columns up to the next `variable` |
| GatePartsStage.CollectCassettes | ucf_builder.py:78-108 | the cassette loop of a row equals the cassette fold, including the duplicate-variable error |
| GatePartsStage.FindCassette | ucf_builder.py:89-91 | finds a cassette exactly when one maps to the variable |
| GatePartsStage.ExpressionCassettesMeaning | ucf_builder.py:78-108 | see the cassette bullet below this table |
| GatePartsStage.CollectGateParts | ucf_builder.py:52-113 | the row loop equals the row fold: it skips empty rows and stops at the first error |
| GatePartsStage.GateRowsResult | ucf_builder.py:52-113 | see the row-loop success bullet below this table |
| GatePartsStage.GateRowsRejected | ucf_builder.py:60-73 | see the row-loop failure bullet below this table |
| GatePartsStage.AddGateParts | ucf_builder.py:8-116 | the stage appends the gate-parts records to the document; on an error it reports the error and leaves the document unchanged |
| ResponseFunctionsStage.RfHeaderStep | ucf_builder.py:154-191 | a column is rejected exactly when it is not in the expected set |
| ResponseFunctionsStage.Discard | ucf_builder.py:159-161 | removing the group fields leaves exactly the expected names that are not among them |
| ResponseFunctionsStage.ScanRfColumn | ucf_builder.py:155-191 | one turn of the header loop does exactly what the step function does: it rejects a key that is not expected, and otherwise applies the update of the expected set and the recorded columns for that kind of column |
| ResponseFunctionsStage.ScanResponseFunctionsHeader | ucf_builder.py:148-191 | the header loop returns exactly the fold of the step function over the columns |
| ResponseFunctionsStage.RfHeaderAccepted | ucf_builder.py:150-191 | see the response-function header bullet below this table |
| ResponseFunctionsStage.RfHeaderRejected | ucf_builder.py:190-191 | a rejected header reports its file and the position of its first unacceptable column |
| ResponseFunctionsStage.RfHeaderColumns | ucf_builder.py:156-188 | an accepted header records the `gate_name` and `equation` columns; each `variable_name` group holds exactly its threshold columns up to the next `variable_name`, and each `parameter_name` group its `value` column up to the next `parameter_name` |
| ResponseFunctionsStage.CollectVariables | ucf_builder.py:222-240 | the variable loop of a row equals the variables fold |
| ResponseFunctionsStage.RfVariablesResult | ucf_builder.py:224-238 | one variable per non-empty name cell, in group order, with both threshold cells; otherwise the first named group with an empty threshold fails, with the off threshold checked first |
| ResponseFunctionsStage.CollectParameters | ucf_builder.py:245-259 | the parameter loop of a row equals the parameters fold |
| ResponseFunctionsStage.RfParametersResult | ucf_builder.py:247-257 | one parameter per non-empty name cell, in group order, with its value cell; otherwise the error names the first named group whose value is empty |
| ResponseFunctionsStage.ReadResponseFunction | ucf_builder.py:202-259 | reading one non-empty row gives exactly the row function's result: a blank gate name fails first, then a gate name already used by an earlier record, then the variable and parameter errors; otherwise the record holds the gate name, equation, variables and parameters |
| ResponseFunctionsStage.CollectResponseFunctions | ucf_builder.py:193-259 | the row loop equals the row fold: it skips empty rows and stops at the first error |
| ResponseFunctionsStage.RfRowsResult | ucf_builder.py:195-259 | success iff every non-empty row names a gate and has complete variables and parameters, and no two rows share a gate name; then one record per non-empty row, in order |
| ResponseFunctionsStage.RfRowsRejected | ucf_builder.py:202-255 | a failing loop fails at its first bad row, checking in order: blank gate name, repeated gate name, incomplete variable, incomplete parameter |
| ResponseFunctionsStage.AddResponseFunctions | ucf_builder.py:118-262 | the stage appends the response-function records; on an error it reports the error and leaves the document unchanged |
| PartsStage.PartHeaderStep | ucf_builder.py:289-301 | a column is rejected exactly when it is not in the expected set |
| PartsStage.ScanPartsHeader | ucf_builder.py:284-301 | the header loop returns exactly the fold of the step function over the columns |
| PartsStage.PartHeaderAccepted | ucf_builder.py:286-301 | a header is accepted iff every column is `name`, `type` or `dnasequence` and none occurs twice |
| PartsStage.PartHeaderRejected | ucf_builder.py:300-301 | a rejected header reports its file and the position of its first unacceptable column |
| PartsStage.PartHeaderColumns | ucf_builder.py:290-299 | an accepted header records the one column of each name it holds |
| PartsStage.CollectParts | ucf_builder.py:303-332 | the row loop equals the row fold: it skips empty rows and stops at the first error |
| PartsStage.PartRowsResult | ucf_builder.py:305-332 | success iff every non-empty row has a name, type and sequence and no two rows share a name; then one part record per non-empty row, in order, with the three cells as they are |
| PartsStage.PartRowsRejected | ucf_builder.py:309-331 | a failing loop fails at its first bad row, checking in order: blank name, repeated name, blank type, blank sequence |
| PartsStage.AddParts | ucf_builder.py:264-335 | the stage appends the part records; on an error it reports the error and leaves the document unchanged |
| UcfBuilder.AddMotifLibrary | ucf_builder.py:337-338 | fails with "Motif library not implemented." |
| UcfBuilder.AddStandardMotifLibrary | ucf_builder.py:340-341 | fails with "Motif library not implemented." |
| UcfBuilder.AddToxicity | ucf_builder.py:343-344 | fails with "Toxicity not implemented." |
| UcfBuilder.AddCytometry | ucf_builder.py:346-347 | fails with "Cytometry not implemented." |
| UcfBuilder.AddHeader | ucf_builder.py:349-350 | fails with "Header not implemented." |
| UcfBuilder.AddMeasurementStandard | ucf_builder.py:352-353 | fails with "Measurement standard not implemented." |
| UcfBuilder.AddLogicConstraints | ucf_builder.py:355-356 | fails with "Logic constraints not implemented." |
| UcfBuilder.AddPlacementRules | ucf_builder.py:358-359 | fails with "Placement rules not implemented." |
| UcfBuilder.BuildUcf | ucf_builder.py:379-394 | running the stages in main's order on one document yields exactly the specified run result |
| UcfBuilder.BuildSucceeds | ucf_builder.py:379-394 | see the run bullet below this table |
| UcfBuilder.MotifLibraryFails | ucf_builder.py:380-383 | selecting a motif library fails the run with its message whatever the tables hold |
| UcfBuilder.LaterStageFails | ucf_builder.py:387-394 | after the three table stages succeed, the first selected later stage fails the run with its message, in the order toxicity, cytometry, placement rules, measurement standard |
| UcfBuilder.TableStageFails | ucf_builder.py:384-386 | a failing table stage aborts the run with its own error, the earliest stage first |

Longer statements for the rows marked "see below":

- `GatePartsStage.ExpressionCassettesMeaning`:
  - a row gets one cassette per non-empty variable cell, in order;
  - each cassette holds that group's non-empty part cells;
  - the row has no field at all iff every variable cell is empty;
  - otherwise the error names the first variable that repeats an earlier one.
- `GatePartsStage.GateRowsResult`:
  - the loop succeeds iff every non-empty row names a gate and repeats no variable, and no two
    rows name the same gate;
  - it then yields one record per non-empty row, in row order.
- `GatePartsStage.GateRowsRejected`:
  - a failing loop fails at its first bad row;
  - the error says which check failed, in this order: blank gate name, repeated gate name,
    repeated variable.
- `ResponseFunctionsStage.RfHeaderAccepted`: a header is accepted iff each column is one of:
  - `gate_name` or `equation` seen for the first time;
  - any `variable_name` or `parameter_name`;
  - a threshold while its variable group is open;
  - `value` while its parameter group is open.
- `UcfBuilder.BuildSucceeds`:
  - a run succeeds iff no unimplemented stage is selected and all three table stages succeed;
  - the document then has one record per non-empty row of the three tables;
  - all gate-parts records come first, then the response functions, then the parts;
  - no key repeats within a collection.

## Left out

Not modelled:

- File access, CSV parsing, and the JSON printing of the result.
  - Each stage receives its table already read: file name, header and rows.
  - `BuildUcf` returns the document instead of printing it.
- Command-line parsing.
  - The three table options are taken as already given.
  - Refusing `--motif-library` together with `--std-motif-library` is a precondition of the run.
  - `--header` and `--logic-constraints` are parsed by the source but no stage is ever run for
    them, so they are not fields of `Options`. Their stubs are modelled for themselves
    (`AddHeader`, `AddLogicConstraints`).
- The `KeyError` and `IndexError` exits, which are preconditions instead (`RunFits` and the
  stages' `…StageFits`).
  - A non-empty row must have a cell at every column the accepted header says the source reads:
    the key columns always, the part columns of a cassette group only when its variable cell is
    non-empty, the threshold and value columns only when the variable or parameter is named.
  - A named variable or parameter must have its threshold or value columns. A missing one is a
    dictionary lookup failure in the source.
  - A table is required to fit only when the run reaches its stage. Within a stage, though, every
    non-empty row must fit, including rows after the first failing row, which the source never
    reads. Within a row, the columns the source reads after the gate or part name (promoter,
    equation, type, DNA sequence, the variable and parameter name columns) must fit even when a
    blank or repeated name would stop the source first.
- The source appends each record to its stage's list before filling it in, and then updates it
  through that alias (the cassette list of a gate-parts record, the fields of a response-function
  or part record). The model builds each record as a value once its row is validated. The result
  is the same, because an error aborts the stage before its list is added to the document.
- ResponseFunctionsStage.RfVariablesResult and ResponseFunctionsStage.RfParametersResult: the
  source converts thresholds and values with `float()`, which can raise `ValueError`. The model
  keeps the validated, non-empty cells as strings, so a non-numeric threshold or value is not an
  error in the model.
