# find-static, modelled in Dafny

find-static is a Clang plugin. It walks every function declaration of a
translation unit and warns "Should this function be static?" at each
definition that could have internal linkage. A declaration is reported when
all four of these hold:

- it is the definition and the function has a body;
- its bare name is not yet in the process-wide `functionMap`;
- it is not already `static`;
- it lies in the main file and is not `main`.

Any other declaration has its bare name inserted into `functionMap`.

The model has two modules:

- `FindStatic` (`find_static.dfy`) holds the model itself:
  - the `FuncDecl` datatype, which carries the values the visitor asks Clang for;
  - the registry, as a `map<string, int>` whose markers are all 1;
  - the candidacy predicate;
  - the specification functions for one visit (`Step`) and for a run
    (`MapAfter`, `FindingsOf`, `FlaggedIndices`);
  - the class `StaticFinder`. It owns the registry for the life of the
    process. Its method `Visit` updates the registry in place, and
    `HandleTranslationUnit` loops over one unit's declarations and never
    resets the registry.
- `FindStaticScenarios` (`scenarios.dfy`) holds concrete runs: the `test.c`
  fixture, the effect of visit order, and two translation units analysed by one
  process.

A run's input is the sequence of declarations in the order Clang's
`RecursiveASTVisitor` visits them. A run's output is the sequence of reported
locations. Locations are opaque numbers; the scenarios use line numbers.

A reported definition is not inserted into `functionMap`
(FindStatic.cpp:45-49). A later same-named definition that is itself a
candidate is therefore reported too (`ReportedNameNotSuppressed`). Only a
recorded name suppresses later declarations (`RecordedNameSuppresses`).

## Model

| member | source | states |
|---|---|---|
| `FindStatic.Insert` | FindStatic.cpp:48 | `unordered_map::insert` of (name, 1): the key set gains exactly the name, existing entries keep their value, a new entry gets 1, and a present key leaves the map unchanged |
| `FindStatic.InsertIdempotent` | FindStatic.cpp:48 | recording the same name twice gives the same registry as recording it once |
| `FindStatic.Step` | FindStatic.cpp:45-49 | one visit: a candidate leaves the registry unchanged; otherwise the keys become the old keys plus the declaration's name; no existing entry changes; all markers stay 1 |
| `FindStatic.VisitEffect` | FindStatic.cpp:35-49 | visiting one declaration reports its own location if and only if it is a definition with a body, its name is absent from the map, it is not static, it is in the main file and it is not `main`; otherwise its name is added to the registry's keys, and on a report the keys are unchanged |
| `FindStatic.ExcludedDeclsRecorded` | FindStatic.cpp:35-48 | `main`, static functions, declarations outside the main file, prototypes, bodiless declarations and already-seen names are never reported and always end up in the registry |
| `FindStatic.RegistryGrows` | FindStatic.cpp:47-49 | over any run no key is removed and no marker changes |
| `FindStatic.MarkersStayOne` | FindStatic.cpp:48 | if every marker is 1 before a run, every marker is 1 after it |
| `FindStatic.RegistryKeys` | FindStatic.cpp:45-49 | after a run the registry's keys are exactly the old keys plus the names of the declarations whose visit did not report |
| `FindStatic.FindingsBounded` | FindStatic.cpp:45-46 | a run reports at most as many findings as it visits declarations |
| `FindStatic.FindingsAtFlaggedIndices` | FindStatic.cpp:45-46 | the k-th finding is the own location of the k-th flagged declaration, and that declaration was a candidate given everything visited before it |
| `FindStatic.FlaggedIndicesIncreasing` | FindStatic.cpp:57-60 | flagged indices are strictly increasing and lie within the run, so findings come in visit order |
| `FindStatic.FlaggedIndicesComplete` | FindStatic.cpp:45-46 | every declaration that is a candidate when it is visited is among the flagged indices, so no report is dropped |
| `FindStatic.RunsCompose` | FindStatic.cpp:57-60 | running two units one after the other on the same registry is the same as running their concatenation: the registry after the first run is the registry the second run starts from, and the two runs' findings are concatenated |
| `FindStatic.KnownNameNeverFlagged` | FindStatic.cpp:37-45 | a declaration whose name was in the registry when the run began is never reported in that run |
| `FindStatic.RecordedNameSuppresses` | FindStatic.cpp:37-48 | once a visit records a name, no later declaration of that name in the run is reported; an earlier prototype suppresses the definition |
| `FindStatic.ReportedNameNotSuppressed` | FindStatic.cpp:45-49 | a reported definition is not recorded, so a following same-named candidate definition is reported as well |
| `FindStatic.StaticFinder.constructor` | FindStatic.cpp:22 | the process starts with an empty registry |
| `FindStatic.StaticFinder.Visit` | FindStatic.cpp:34-52 | reports exactly when the declaration is a candidate against the old registry; the new registry is one `Step` of the old one, which is unchanged on a report and gains exactly the name otherwise; the visitor always tells the traversal to continue |
| `FindStatic.StaticFinder.HandleTranslationUnit` | FindStatic.cpp:57-60 | visits the declarations in order without resetting the registry, and would stop at a visit that returned false (none does); the new registry and the returned findings are those of the specification run from the old registry; there are no more findings than declarations, and the registry only grows |
| `FindStaticScenarios.FixtureWithoutHeaderDecls` | test.c:12-55 | with no header declaring its functions, test.c reports exactly `print_msg` (line 17) and `print_msg_2` (line 25); the static functions, the static prototype and `main` are not reported |
| `FindStaticScenarios.FixtureAfterHeader` | test.c:17-28 | with `print_msg_2` already recorded, test.c reports only `print_msg` |
| `FindStaticScenarios.FixtureWithHeaderPrototype` | test.c:10-28 | a prototype of `print_msg_2` in an included header, visited first, suppresses the report of `print_msg_2`'s definition |
| `FindStaticScenarios.OrderSensitivity` | FindStatic.cpp:37-48 | a prototype followed by its definition reports nothing; the same two declarations in the other order report the definition |
| `FindStaticScenarios.TwoTranslationUnits` | FindStatic.cpp:57-60 | one process analyses a unit where `helper` is static, then a unit with an external `helper` definition: the second unit reports nothing; a fresh process reports the second unit's `helper` |

## Left out

- Plugin registration and glue (`FindStaticAction`, `CreateASTConsumer`, `ParseArgs`, `getActionType`, the unused `ParsedTemplates` set, `FrontendPluginRegistry::Add`): they make no decisions.
- Clang's AST and `RecursiveASTVisitor`: a run takes the function declarations already in visit order.
- `isThisDeclarationADefinition`, `hasBody`, `isStatic`, `isMain` and `getNameAsString` are plain fields of `FuncDecl`. Clang's `hasBody` is true when any redeclaration has a body, so a prototype of a function defined later has `hasBody` set and `isDefinition` clear.
- `SourceManager::isInMainFile` is a foreign call; it is the field `inMainFile`.
- `DiagnosticsEngine`: the custom diagnostic ID and the message text are not modelled. Each report is the triggering declaration's location, appended to the sequence that `HandleTranslationUnit` returns.
- The fixtures `test.c` and `test/kernel-test/test.c` as programs: `printf`, `printk`, the kernel macros and `EXPORT_SYMBOL` are not modelled. `test.h` is not part of this model, so the fixture is modelled both without and with a header prototype of `print_msg_2`.
