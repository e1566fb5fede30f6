# A verified model of purego-gen

purego-gen reads C headers and writes Go bindings; the repository also holds two `database/sql`
drivers on top of such bindings. This project models the parts of it that carry the hardest
promises and proves them, in Dafny 4.11. `dafny verify dfyconfig.toml` checks everything.

| files | what they model |
|---|---|
| `CTypes`, `GoLayout`, `TypeMapping`, `LayoutFidelity` | the compiler from C record types to Go structs with explicit padding; the layout rules of C and of Go; when the two layouts agree |
| `RecordDecls`, `FieldNames` | the record metadata; the names of fields, and the reasons why a record is not mapped |
| `Alignment`, `AbiLayout`, `AbiReports`, `AbiCertificate` | the layout check on the metadata, what it reports, and what a passed check certifies about the emitted struct |
| `IntBits`, `MacroParser`, `MacroEval`, `MacroConstants` | evaluation of macro constants by splicing known values into text that is parsed and evaluated as Python |
| `Text`, `CDeclarators` | the parameter list splitter and the function pointer parser |
| `BufferPairs`, `BufferWrapper` | detection of buffer parameters and the generated wrapper, up to what its body does when it runs |
| `Decimal`, `Identifiers` | decimal notation, identifier sanitising and unique names |
| `Options`, `Arithmetic` | shared definitions |
| `DuckRows`, `DuckNumbers` | the chunked row iterator with its native resources; DECIMAL and HUGEINT printing |
| `SqliteDsn`, `SqliteDsnConfluence`, `SqliteDsnMeaning` | data source names, parsed in the arbitrary order of a Go map, and what the configuration means |
| `SqliteInterrupt` | the interrupt watcher as interleaved atomic steps |
| `SqliteStatements`, `SqliteOutcomes`, `SqliteLifecycle` | statements with arbitrary native result codes: when they succeed, and the life of their handles over runs |

Code that changes state is modelled by classes and loops, each proved equal to a specification
function; the promises are proved about those functions. Where a promise does not hold for all
inputs the exact condition is proved and an input outside it is given. Automatic induction is off on
every lemma: each induction is written out.

What the code does differently from what its comments or names suggest:

- A packed struct, or one that ends in an array of length 0, is mapped although its Go layout differs
  (`Fidelity` has the exact condition).
- `hugeintToString` joins two words in base 10^20, so it is right below 2^64 only (`HugeintExact`),
  while the declared value is upper * 2^64 + lower (duckdb/duckdbsys/generated.go:116-122).
- The result of `parseDSN` can depend on the iteration order of a Go map (`ConfluentExactly`,
  `TwoSpellingsDisagree`, `TwoErrorsDisagree`).
- `parseDSN("")` ends with the empty file name and not with ":memory:" (`EmptyNameIsNotMemory`).
- The macro body `((X)-1)` over a constant X is taken for a cast of -1 and gives 2^64 - 1
  (`MeansCExactly`, `CastOfConstant`).
- `%` in a macro is the modulo of Python and not the remainder of C (`ModuloMeetsC`).
- A negative shift count makes the evaluation raise instead of returning None (`RaisesExact`,
  `DefinitionRaises`).
- A malformed macro body can be accepted when a negative constant is spliced in (`AcceptedExactly`,
  `JuxtaposedDefinition`).
- The generated buffer wrapper is rejected by Go when a parameter takes a name that its body uses
  (`WrapperCompilesIffNoCapture`), and an unnamed parameter can be mistaken for one of a pair
  (`WrapperShapeExact`).
- A watcher may interrupt after its operation was stopped and so hit the next one
  (`LateInterruptIsPossible`; `InterruptsExactly` says when), or call Interrupt on a database that
  was closed meanwhile (`ClosedInterruptExactly`).
- A closed statement, or one prepared from an empty text, hands the nil handle to native calls
  (`NilStepExactly`, `NilInstances`).
- A C11 anonymous member is no field declaration. Its fields are dropped and their bytes covered by
  padding, so faithful layout speaks of field declarations only.

## Model

| member | source | states |
|---|---|---|
| `TypeMapping.StructPaddingTracker.PreFieldGap` | src/purego_gen/clang_type_mapping.py:343-353 | the gap before a field and the new tracker state; a missing or sub-byte offset switches the tracker off and gives 0 |
| `TypeMapping.StructPaddingTracker.Advance` | src/purego_gen/clang_type_mapping.py:355-363 | the tracker moves to the end of the field just placed, or switches off when the size is unknown |
| `TypeMapping.StructPaddingTracker.TailPadding` | src/purego_gen/clang_type_mapping.py:365-372 | the bytes from the last field to the end of the struct, 0 when unknown |
| `TypeMapping.AllocateUniqueFieldName` | src/purego_gen/clang_type_mapping.py:139-150 | this loop, which differs from the allocator for declarations, terminates and picks the same name as that one: the base, or the least free suffix |
| `TypeMapping.MapRecordFieldToGoLine` | src/purego_gen/clang_type_mapping.py:248-277 | one field line: error code, or sanitised name made unique against the struct so far, with the mapped type |
| `TypeMapping.MapRecordTypeToGoName` | src/purego_gen/clang_type_mapping.py:431-486 | the loop over the children with padding tracker, seen names and counter refines the recursive mapping that the results below are about, early error returns included |
| `TypeMapping.MappedIffSupported` | src/purego_gen/clang_type_mapping.py:86-136 | a type is mapped exactly when it is built from known scalars and from pointers by arrays of known length, unions of positive size, and complete structs with a field, whose fields are all named, no bitfields and mapped |
| `TypeMapping.EmittedIffSupported` | src/purego_gen/clang_type_mapping.py:212-245 | a struct body is emitted exactly when every field is supported, and then has a real field exactly when some child is a field |
| `LayoutFidelity.UnionLayout` | src/purego_gen/clang_type_mapping.py:375-428 | the union wrapper has the alignment 2, 4 or 8 that was asked for (else 1) and the union size rounded up to it, by the layout rule of Go, and holds exactly the bytes of the union at offset 0 |
| `LayoutFidelity.MapScalarExact` | src/purego_gen/clang_type_mapping.py:30-56 | every scalar kind but the unsupported ones becomes the one Go type of its class and size; `long`, `unsigned long` and enumerations go by the reported size when Go has an integer of it |
| `LayoutFidelity.PointerFaithful` | src/purego_gen/clang_type_mapping.py:67-84 | a pointer to a function, void, pointer, record, string character or unsupported type becomes uintptr, and one to any other scalar a typed pointer to the class and size of the pointee |
| `LayoutFidelity.GoAlignAgrees` | src/purego_gen/clang_type_mapping.py:114-136 | the Go alignment of the emitted type, computed from the C type tree alone |
| `LayoutFidelity.FieldsFidelity` | src/purego_gen/clang_type_mapping.py:445-471 | loop invariant of the mapping: while the conditions hold, the running Go offset is the C offset; the emitted lines are faithful to the fields exactly under the conditions |
| `LayoutFidelity.Fidelity` | src/purego_gen/clang_type_mapping.py:335-486 | main result: the emitted Go type has the size of the C type and every field declaration, at every level, at the offset and with the type that C gives it, exactly when field offsets and sizes are multiples of the Go alignments and no struct of positive size ends in a field of size zero; a pointer is a typed one exactly for scalars that are no string characters, to a value of the same class and size |
| `GoLayout.NextAlignedExact` | src/purego_gen/abi_layout.py:97-103 | the offset rule of Go is the align-up of the layout check for Go alignments, and changes nothing exactly for multiples |
| `AbiCertificate.NaturalIsAligned` | src/purego_gen/clang_type_mapping.py:335-372 | every type laid out without packing meets the alignment condition |
| `AbiCertificate.NaturalFidelity` | src/purego_gen/clang_type_mapping.py:431-486 | for types without packing fidelity holds exactly when no struct ends in a field of size zero, and the Go alignment divides the C alignment |
| `AbiCertificate.PaddingConservesBytes` | src/purego_gen/clang_type_mapping.py:343-372 | conservation: explicit padding bytes plus field sizes is the C size, for packed structs too |
| `AbiCertificate.PackedStructIsNotFaithful` | src/purego_gen/clang_type_mapping.py:431-486 | a packed struct with an int at offset 1 is mapped without error and not laid out faithfully |
| `AbiCertificate.ZeroTailIsNotFaithful` | src/purego_gen/clang_type_mapping.py:473-486 | a struct ending in an array of length 0 is mapped and gets a larger size in Go |
| `AbiCertificate.PassedCheckCertifies` | src/purego_gen/abi_layout.py:272-343 | a struct with sound field types that passes the layout check is well formed and laid out without packing, so that its Go type is faithful exactly when no struct ends in a field of size zero |
| `TypeMapping.TrackerExact` | src/purego_gen/clang_type_mapping.py:343-363 | the padding tracker is on exactly as long as every field had a whole byte offset and a size |
| `TypeMapping.UnlocatedUnpadded` | src/purego_gen/clang_type_mapping.py:343-372 | from the first field without them on there is no padding any more |
| `FieldNames.StructNames` | src/purego_gen/clang_type_mapping.py:248-277 | each field of the emitted struct is named after its spelling: characters that no identifier has become one underscore a run, outer underscores go, `f_` stands before a digit and an underscore behind a keyword, `field_` and the index when nothing is left; the result with the least unused number when an earlier field has it |
| `FieldNames.SpellingKept` | src/purego_gen/clang_type_mapping.py:269-273 | a spelling that is an identifier without outer underscores, no keyword and not taken is the name of its field |
| `FieldNames.CountField` | src/purego_gen/clang_type_mapping.py:431-486 | `struct { int count; }` becomes `struct { count int32 }` |
| `FieldNames.ReasonExact` | src/purego_gen/clang_type_mapping.py:212-245 | a record that is not mapped has the code of its first problem: kind, missing definition, union size, or the first field that is unnamed, a bitfield or of an unsupported type; or no field |
| `FieldNames.RecordExact` | src/purego_gen/clang_type_mapping.py:489-530 | the metadata of every record, mapped or not: spellings, metrics, support, code and the field names as above, in order |
| `RecordDecls.ExtractRecordTypedefDecl` | src/purego_gen/clang_type_mapping.py:489-530 | the extraction loop refines its recursive specification |
| `RecordDecls.AccessorsMatchStruct` | src/purego_gen/clang_type_mapping.py:280-323 | two loops agree: names and types recorded for accessors are those emitted in the struct literal, in order, pairwise distinct and never the blank name |
| `Alignment.AlignUpLeast` | src/purego_gen/abi_layout.py:97-103 | align-up gives the least multiple of the alignment that is not below the value |
| `AbiLayout.ValidateUnionLayout` | src/purego_gen/abi_layout.py:200-246 | the union loop refines its recursive specification |
| `AbiLayout.ValidateRecordLayout` | src/purego_gen/abi_layout.py:272-343 | the checking loop with its offset, alignment and finalisation state refines its recursive specification, early returns included |
| `AbiLayout.StructCheckExact` | src/purego_gen/abi_layout.py:272-343 | a supported struct passes exactly when all metadata is there and offsets, alignment and size are the canonical C layout, stated by least multiples and not by the formula of the code |
| `AbiLayout.UnionCheckExact` | src/purego_gen/abi_layout.py:200-246 | a union passes exactly when every member lies at offset 0 and fits |
| `AbiLayout.PassReportsOwnDiagnostics` | src/purego_gen/abi_layout.py:106-181 | the diagnostics of a pass depend on field shapes and own offsets only; reported offsets never enter the running offset |
| `AbiLayout.MisplacedFieldsReportedOnce` | src/purego_gen/abi_layout.py:299-343 | with full metadata the result is exactly: each misplaced field once and in order, then the alignment once when it is wrong, then the size once when it is wrong |
| `AbiLayout.MovingOneFieldIsLocal` | src/purego_gen/abi_layout.py:299-343 | no cascade: the results of the check before and after moving one field are the same around the diagnostic of that field, which vanishes exactly at its canonical offset |
| `AbiReports.PassExact` | src/purego_gen/abi_layout.py:106-197 | whatever is missing: each field gets the diagnostic of its first problem, or of its offset when that is not the least aligned one behind the placeable fields before it; an unplaceable field moves nothing |
| `AbiReports.UnionReportExact` | src/purego_gen/abi_layout.py:200-246 | the diagnostics of a union, member by member, with name, expected and actual values |
| `AbiReports.ReportExact` | src/purego_gen/abi_layout.py:249-343 | the whole result of the check, early returns included |
| `AbiLayout.ClassificationExact` | src/purego_gen/abi_layout.py:385-429 | the status in terms of the metadata alone; the last branch is dead |
| `MacroParser.ParseExact` | src/purego_gen/macro_constants.py:174-184 | the precedence parser accepts exactly the token lists of grammatical trees, each with its one tree: print and parse round trip in both directions; the grammar is that of Python for these tokens, calls and the empty tuple included |
| `MacroParser.PrecedenceExact` | src/purego_gen/macro_constants.py:174-184 | of two neighbouring operators the one of the tighter row of C goes first, the left one of the same row, and a sign before both |
| `MacroConstants.PunctuatorsExact` | src/purego_gen/macro_constants.py:24-38 | the 13 punctuators and what they stand for, and no other text |
| `MacroConstants.LiteralExact` | src/purego_gen/macro_constants.py:65-75 | a literal is `0`, a decimal number without leading zero or a hexadecimal one, with a suffix of the letters u and l, and unsigned exactly with a u |
| `MacroConstants.HexRoundTrip` | src/purego_gen/macro_constants.py:161-162 | hexadecimal notation, in either case, reads back |
| `MacroConstants.ValueExact` | src/purego_gen/macro_constants.py:161-162 | decimal and hexadecimal literals of a number have its value |
| `MacroConstants.LiteralPrefix` | src/purego_gen/macro_constants.py:65-75 | cutting the suffix off a literal leaves a literal of the same kind and full length |
| `MacroConstants.BuildMacroExpression` | src/purego_gen/macro_constants.py:78-110 | the token loop refines its recursive specification, error returns included |
| `MacroConstants.BuildSplices` | src/purego_gen/macro_constants.py:78-110 | the built text, read back as Python tokens, is the C token list with each known constant spliced in; it exists exactly when every spelling is a C token of the subset and every name is known |
| `MacroConstants.LexNumber` | src/purego_gen/macro_constants.py:104-105 | the decimal text of an integer reads back as one number token, behind a minus token when negative |
| `MacroEval.BinaryExact` | src/purego_gen/macro_constants.py:128-146 | each binary operator by what C says of it: sums and products, truncated quotient, modulo of Python, and for shifts and `or`, `and`, `xor` every single bit of the result; None and the exception exactly where they are due |
| `MacroEval.UnaryExact` | src/purego_gen/macro_constants.py:113-125 | the signs, and every bit of the complement |
| `MacroEval.RaisesExact` | src/purego_gen/macro_constants.py:128-171 | the evaluation raises, where every other failure gives None, exactly when some shift whose operands have values has a negative count, also beside an unsupported operand |
| `MacroEval.SubstitutionPreservesMeaning` | src/purego_gen/macro_constants.py:149-184 | splicing known values, possibly negative and without parentheses, into a well-formed expression and parsing again gives the same value as evaluating the C parse tree in the environment |
| `MacroEval.JuxtaposedIsMalformed` | src/purego_gen/macro_constants.py:78-110 | a token list with an operand directly before a name is no expression |
| `MacroEval.SubstitutionKeepsErrors` | src/purego_gen/macro_constants.py:78-110 | in particular, without an operand directly before a negative constant, the spliced list parses exactly when the original does |
| `MacroEval.AcceptedExactly` | src/purego_gen/macro_constants.py:78-110 | the spliced list parses exactly when the original is well-formed once each negative constant directly behind an operand is written with its minus sign, and then evaluates like that; a malformed body is accepted exactly then |
| `MacroEval.JuxtapositionIsAccepted` | src/purego_gen/macro_constants.py:104-110 | with one it need not: the malformed body `v X` for negative X evaluates to v + X |
| `MacroConstants.DefinitionExactly` | src/purego_gen/macro_constants.py:231-272 | for every definition: the cast shortcut first; then None unless the spellings are C tokens with known names that form an expression once negative constants behind operands have their minus signs; then the value of that expression, wrapped when unsigned |
| `MacroConstants.DefinitionMeaning` | src/purego_gen/macro_constants.py:231-272 | a body that is an expression evaluates to None for an unknown name, and otherwise to the value of its parse tree under the known constants, wrapped when unsigned; the one exception is `((name)-1)`, which is taken for a cast whatever `name` is |
| `MacroConstants.MeansCExactly` | src/purego_gen/macro_constants.py:187-255 | a body that is an expression over constants gets its value in C exactly when it is not `((name)-1)`, or `name` is 2^64 |
| `MacroConstants.CastOfConstant` | src/purego_gen/macro_constants.py:187-228 | `((X)-1)` with X = 5 is an instance: it gives 2^64 - 1, where C has 4 |
| `MacroConstants.DefinitionRaises` | src/purego_gen/macro_constants.py:231-272 | the evaluation of a definition raises exactly when its body, read with the explicit minus signs, is an expression over known names in which some shift has a negative count, and is no cast |
| `MacroConstants.NegativeShiftRaises` | src/purego_gen/macro_constants.py:231-272 | `1 << -1` is an instance |
| `MacroConstants.UnknownIdentifierFails` | src/purego_gen/macro_constants.py:100-104 | an identifier without a known value makes every expression None; only the cast shortcut does without a value |
| `MacroConstants.JuxtaposedDefinition` | src/purego_gen/macro_constants.py:231-272 | the whole evaluation of the malformed body `3 X` for negative X gives 3 + X |
| `MacroConstants.FlagsDefinition` | src/purego_gen/macro_constants.py:231-272 | a body that is the bitwise or of 1 and 2, in parentheses, gives 3 |
| `MacroConstants.CastedSentinelExact` | src/purego_gen/macro_constants.py:187-228 | the cast shortcut is taken exactly for `((name)0)` and `((name)-1)` |
| `MacroConstants.SentinelValues` | src/purego_gen/macro_constants.py:187-228 | the cast of 0 gives 0 and that of -1 gives 2^64 - 1, with the type name |
| `IntBits.ModuloMeetsC` | src/purego_gen/macro_constants.py:139-142 | the `%` of the evaluator is the remainder of C exactly when the division is exact or the operands have the same sign |
| `MacroConstants.ModuloDiffers` | src/purego_gen/macro_constants.py:139-142 | the body `(-7 % 3)` gives 2, where C has -1 |
| `IntBits.BitwiseExact` | src/purego_gen/macro_constants.py:44-53 | bit by bit, for every position: set when one, both, or exactly one operand has the bit |
| `IntBits.BitwiseCongruent` | src/purego_gen/macro_constants.py:44-53 | and, or, xor of unbounded integers respect congruence modulo any power of two |
| `MacroEval.WordHomomorphism` | src/purego_gen/macro_constants.py:113-171 | for + - *, bitwise and, or, xor and complement, signs and left shifts by 0 to 2^64 - 1, exact evaluation is congruent modulo 2^64 to evaluation with wrap-around at every node |
| `MacroEval.ShiftAgreesExactly` | src/purego_gen/macro_constants.py:128-146 | a left shift by any count agrees with the wrap-around shift exactly when the count is below 2^64 or the wrap-around shift gives 0 |
| `MacroEval.HugeShiftDiffers` | src/purego_gen/macro_constants.py:128-146 | the condition is not always met: for 1 shifted by 2^64 the two differ as numbers, though Python itself has no memory for that value |
| `MacroEval.UnsignedResult` | src/purego_gen/macro_constants.py:265-272 | the final result for an unsigned literal is non-negative, congruent to the word value, and equal to it exactly when the exact value is below 2^64 |
| `MacroConstants.UnsignedDefinition` | src/purego_gen/macro_constants.py:231-272 | the same for whole definitions |
| `CDeclarators.ConsumeCParameterListChar` | src/purego_gen/c_type_utils.py:131-158 | one character of the splitter, failure at depth 0 included |
| `CDeclarators.SplitCParameterList` | src/purego_gen/c_type_utils.py:93-128 | the character loop computes the split of the text at its top-level commas, defined by searching for commas |
| `CDeclarators.SplitFailsIffUnbalanced` | src/purego_gen/c_type_utils.py:121-123 | the splitter raises exactly for unbalanced parentheses |
| `CDeclarators.SegmentsExact` | src/purego_gen/c_type_utils.py:108-128 | the segments joined by commas are the text; those of a balanced text are balanced and hold no top-level comma |
| `CDeclarators.SplitGivesParts` | src/purego_gen/c_type_utils.py:93-128 | every part is non-empty, trimmed, balanced and free of top-level commas |
| `CDeclarators.SplitJoinRoundTrip` | src/purego_gen/c_type_utils.py:93-128 | joining any such parts with ", " and splitting gives them back, except that a lone `void` gives none |
| `CDeclarators.MatchPrinted` | src/purego_gen/c_type_utils.py:21-23 | the signature pattern finds name and parameters in every printed declarator |
| `CDeclarators.MatchExact` | src/purego_gen/c_type_utils.py:21-23 | the pattern matches exactly the spellings of a declarator, with spaces at the four places where they are allowed, and finds its name and parameters |
| `CDeclarators.ParsedWasSpelled` | src/purego_gen/c_type_utils.py:161-178 | the converse, for every spelling: the normalised text is the returned result type followed by a declarator of the returned name, the first one, whose list splits into the returned parameters; None means that there is no declarator, and the error that its list is unbalanced |
| `CDeclarators.FunctionPointerRoundTrip` | src/purego_gen/c_type_utils.py:161-178 | printing and parsing a function pointer gives back result, name and parameters |
| `CDeclarators.NestedRoundTrip` | src/purego_gen/c_type_utils.py:161-178 | the same when parameters are function pointers, at any depth |
| `Text.StripExact` | src/purego_gen/c_type_utils.py:102-102 | trimming takes away whitespace only, and all of it at both ends |
| `Text.WordsExact` | src/purego_gen/c_type_utils.py:170-170 | the words found are those the text is made of, with spaces around and between them |
| `Text.NormalizeIdentity` | src/purego_gen/c_type_utils.py:170-170 | splitting and joining at whitespace leaves normal text unchanged |
| `Text.NormalizeNormal` | src/purego_gen/c_type_utils.py:170-170 | the result of splitting and joining is always spelled normally, and doing it again changes nothing |
| `BufferPairs.DetectBufferPairs` | src/purego_gen/helper_rendering.py:799-827 | the index loop computes the greedy choice of pairs |
| `BufferPairs.PointerTypeExact` | src/purego_gen/helper_rendering.py:480-481 | the pointer type is `void` and then a star, with qualifiers before, between and behind |
| `BufferPairs.EligibleExact` | src/purego_gen/helper_rendering.py:814-822 | a pair may start at such a pointer that is an address in Go, before an integer of 32 or 64 bits or an address |
| `BufferPairs.GreedyExact` | src/purego_gen/helper_rendering.py:812-826 | from the left: a pair starts exactly where one may and none started just before |
| `BufferPairs.GreedyIsMaximal` | src/purego_gen/helper_rendering.py:814-826 | no set of disjoint eligible adjacent pairs has more members than the greedy choice |
| `BufferPairs.DetectionIsOptimal` | src/purego_gen/helper_rendering.py:799-827 | the detected pairs are such a set themselves, in order, and of maximum number |
| `BufferPairs.ResolvedNames` | src/purego_gen/helper_rendering.py:338-355 | rendered parameter names are pairwise distinct; the raw name is kept unless empty |
| `BufferPairs.ParameterNamesExact` | src/purego_gen/helper_rendering.py:338-371 | each rendered name is the least unused one for the raw name: squeezed into an identifier, with an underscore behind a keyword, or `arg` and the position |
| `BufferPairs.NamedFound` | src/purego_gen/helper_rendering.py:338-355 | a named parameter is found under its name, whatever names unnamed ones were given |
| `BufferPairs.ValidateBufferHelperPairs` | src/purego_gen/helper_rendering.py:534-560 | the validation loop refines its recursive specification with all its errors |
| `BufferPairs.ValidationExact` | src/purego_gen/helper_rendering.py:498-560 | validation goes by the first pair with a problem, and reports the first problem of that pair |
| `BufferPairs.DetectedPairsValidIffNamed` | src/purego_gen/helper_rendering.py:498-560 | for parameters whose names differ where they have one, as C demands, the detected pairs pass validation exactly when none of their parameters is unnamed |
| `BufferWrapper.BuildBufferHelperCall` | src/purego_gen/helper_rendering.py:563-614 | the loop over the parameters refines its recursive specification |
| `BufferWrapper.RolesRecognised` | src/purego_gen/helper_rendering.py:617-650 | for validated pairs and unless an unnamed parameter is mistaken, the two lookup tables recognise exactly the detected pointers and lengths, each length with the pointer before it |
| `BufferWrapper.WrapperShape` | src/purego_gen/helper_rendering.py:563-614 | under the same condition one argument per original parameter, in order and by role; the wrapper drops exactly the lengths |
| `BufferWrapper.WrapperShapeExact` | src/purego_gen/helper_rendering.py:563-614 | for validated pairs the wrapper is that one exactly when no unnamed parameter was given the name of a pointer or length of a pair |
| `BufferWrapper.MistakenUnnamed` | src/purego_gen/helper_rendering.py:364-371 | `f(int, const void *arg1, size_t n)` is an instance: the first parameter is named `arg1` and taken for the pointer |
| `BufferWrapper.WrapperCompilesIffNoCapture` | templates/go_file.go.j2:185-221 | the generated body resolves every name it uses, and hands over the intended arguments, exactly when no parameter of the wrapper bears the name of a local; neither bears the name of the called function, of a type a length is converted to, or, with a slice, of `len`, `uintptr` or `unsafe`; and lengths are converted to named types |
| `BufferWrapper.WrapperPreservesCall` | templates/go_file.go.j2:199-220 | under these conditions, and only then, the wrapper generated for a function runs and passes each slice as its address (0 when empty) and its converted length, and everything else unchanged |
| `BufferWrapper.CapturedLocal` | src/purego_gen/helper_rendering.py:588-591 | the function with parameters `src`, `n` and `src_len` is an instance where a local meets a parameter |
| `BufferWrapper.CapturedLen` | templates/go_file.go.j2:199-220 | the function with parameters `buf`, `n` and `len` is one where the builtin `len` is shadowed |
| `BufferWrapper.PointerAsLength` | src/purego_gen/helper_rendering.py:596-600 | the function with pointers `p` and `q`, the second taken for the length of the first, is one where the conversion is to no named type |
| `BufferWrapper.LengthArrives` | src/purego_gen/helper_rendering.py:596-600 | the converted length is the length modulo 2^32 in a 32-bit parameter, and the length itself exactly when it fits |
| `Identifiers.KeywordsExact` | src/purego_gen/identifier_utils.py:61-87 | the 25 keywords of Go and no other text |
| `Identifiers.SanitizeValid` | src/purego_gen/identifier_utils.py:108-157 | the sanitised text is always a Go identifier and never a keyword |
| `Identifiers.SanitizeIdentity` | src/purego_gen/identifier_utils.py:146-157 | an identifier that is no keyword stays as it is |
| `Identifiers.SanitizeExact` | src/purego_gen/identifier_utils.py:108-129 | the sanitised text in terms of the raw one, for both uses |
| `Identifiers.AllocateExact` | src/purego_gen/identifier_utils.py:160-175 | the allocated name is the base when unused, and otherwise the base with the least unused number from 2 on |
| `Identifiers.StructFieldNotBlank` | src/purego_gen/identifier_utils.py:132-143 | a struct field is never named by the blank identifier |
| `Identifiers.PendingShrinks` | src/purego_gen/identifier_utils.py:170-172 | the measure that ends the suffix loop: the taken names with a suffix from k on lose one member when k is passed; decimal suffixes are injective |
| `Identifiers.NameScope.AllocateUniqueIdentifier` | src/purego_gen/identifier_utils.py:160-175 | the name is the least free one, was not taken, and is the only one added |
| `Identifiers.BuildUniqueIdentifiers` | src/purego_gen/identifier_utils.py:178-193 | the loop over the declarations refines its recursive specification |
| `Identifiers.UniqueNamesLeast` | src/purego_gen/identifier_utils.py:178-193 | each name is the least unused one, against all earlier names, for the sanitised text of its declaration |
| `Identifiers.UniqueNamesDistinct` | src/purego_gen/identifier_utils.py:178-193 | the names are pairwise distinct |
| `Identifiers.UniqueNamesPrefix` | src/purego_gen/identifier_utils.py:178-193 | names already given do not change when declarations are added behind |
| `Identifiers.UniqueNamesIdentity` | src/purego_gen/identifier_utils.py:178-193 | distinct identifiers that are no keywords keep their names |
| `Identifiers.UniqueNamesValid` | src/purego_gen/identifier_utils.py:178-193 | all names are Go identifiers and no keywords |
| `DuckRows.DuckDBRows.Close` | duckdb/duckdb.go:296-307 | state and call log after Close, once only: held chunk, result, then an ephemeral statement |
| `DuckRows.DuckDBRows.DestroyHeldChunk` | duckdb/duckdb.go:494-499 | a held chunk is given back and forgotten; nothing happens without one |
| `DuckRows.DuckDBRows.Next` | duckdb/duckdb.go:309-343 | the loop with its in-place row buffer refines one Next of the specification: row delivered or EOF, new state, and call log |
| `DuckRows.NextAdvances` | duckdb/duckdb.go:309-343 | one Next goes on by exactly one row, across chunk borders, or reports the end when all rows were delivered |
| `DuckRows.DeliveredInOrder` | duckdb/duckdb.go:309-343 | over any run of Next and Close the delivered rows are a prefix of the rows of all chunks before the first empty or null one, in order and once each |
| `DuckRows.EofOnlyAtEnd` | duckdb/duckdb.go:309-343 | the next call reports EOF exactly when the rows were closed or all rows were delivered |
| `DuckRows.ResourcesConserved` | duckdb/duckdb.go:296-343 | in any run the chunks given back are those fetched, in order and once each, except the one held; at most one is live; the result is destroyed once, exactly when closed; no native call breaks the order of use |
| `DuckRows.DrainingReleases` | duckdb/duckdb.go:309-343 | n calls of Next deliver the first n rows; one more than there are closes the rows and gives back every chunk |
| `DuckRows.RowsReadOnce` | duckdb/duckdb.go:309-343 | in any run each delivered row costs one read per column, nothing else is read, and each chunk is asked for once |
| `DuckNumbers.ReadDecimalValue` | duckdb/duckdb.go:836-858 | the formatting refines its specification in 64-bit arithmetic, negation of the minimum included |
| `DuckNumbers.PowerOfTen` | duckdb/duckdb.go:840-843 | the divisor loop does not overflow up to scale 18 |
| `DuckNumbers.WriteParts` | duckdb/duckdb.go:847-858 | the writes assemble sign, whole part, point, zeros and fraction |
| `DuckNumbers.DecimalRoundTrip` | duckdb/duckdb.go:836-858 | the text has exactly `scale` fraction digits and parses back to the integer exactly when this is not the minimum int64 |
| `DuckNumbers.DecimalSigned` | duckdb/duckdb.go:846-849 | the text starts with a minus sign exactly for a negative value, so not for 0 |
| `DuckNumbers.SmallestHasTwoSigns` | duckdb/duckdb.go:836-858 | the text for the minimum is no decimal number |
| `DuckNumbers.SmallestText` | duckdb/duckdb.go:836-858 | what is printed for the minimum int64: two minus signs, and one before a fraction that is not 0 |
| `DuckNumbers.HugeintExact` | duckdb/duckdb.go:786-809 | the text denotes upper * 2^64 + lower exactly when that is below 2^64 in absolute value |
| `DuckNumbers.HugeintDenotes` | duckdb/duckdb.go:786-809 | what the text denotes for every value but -2^127: the words of the absolute value joined in base 10^20, or 10^19 for a negative multiple of 2^64 |
| `DuckNumbers.HugeintOfTwo64` | duckdb/duckdb.go:786-809 | upper 1 and lower 0, which is 2^64, prints as 10^20 |
| `SqliteDsn.ParseDSN` | sqlite3/sqlite3.go:811-886 | for each iteration order of the options the loop refines a fold with early return of the error |
| `SqliteDsnMeaning.SplitExact` | sqlite3/sqlite3.go:888-893 | the name is cut at its first question mark |
| `SqliteDsnMeaning.CaseExact` | sqlite3/sqlite3.go:841-856 | changing case replaces each of the 26 letters by its counterpart and nothing else |
| `SqliteDsnMeaning.FailsExactly` | sqlite3/sqlite3.go:828-867 | parsing fails exactly when a timeout is no 64-bit integer, a boolean is none of the eight words, a location is unknown or a mode is none of the four, with the error of the first such key |
| `SqliteDsnMeaning.TimeoutExact` | sqlite3/sqlite3.go:830-836 | the timeout is that of the last of its keys, truncated to 32 bits, and 0 without a key |
| `SqliteDsnMeaning.ForeignKeysExact` | sqlite3/sqlite3.go:837-842 | true exactly for 1, true, yes, on and false exactly for 0, false, no, off at the last of its keys, unset without a key |
| `SqliteDsnMeaning.TextsExact` | sqlite3/sqlite3.go:843-848 | journal mode, synchronous and transaction lock are the texts of the last of their keys in upper and lower case, with their defaults |
| `SqliteDsnMeaning.LocationExact` | sqlite3/sqlite3.go:849-854 | no location for the empty text, the local one for `auto`, otherwise the one of that name |
| `SqliteDsnMeaning.FlagsExact` | sqlite3/sqlite3.go:855-868 | read-only exactly for the mode ro and read-write otherwise; create exactly without a mode and for rwc and memory; memory exactly for memory; always the full mutex |
| `SqliteDsnMeaning.ReadOnlyMode` | sqlite3/sqlite3.go:858-859 | `mode=ro` opens for reading only |
| `SqliteDsnMeaning.FilenameExact` | sqlite3/sqlite3.go:881-907 | the file name is the part before the question mark when no key stays, and otherwise a URI with exactly the keys that set no option |
| `SqliteDsnConfluence.RunFailsIffInvalid` | sqlite3/sqlite3.go:828-879 | an order fails exactly when some option has an invalid value, with the error of the first such |
| `SqliteDsnConfluence.RunFields` | sqlite3/sqlite3.go:828-867 | an option has the value of the last key that sets it |
| `SqliteDsnConfluence.RunFlags` | sqlite3/sqlite3.go:855-878 | the open flags depend on the set of keys and the mode only, whatever the order |
| `SqliteDsnConfluence.RunPreserved` | sqlite3/sqlite3.go:869-874 | exactly the mode, cache and unknown parameters are preserved, with their values |
| `SqliteDsnConfluence.ConfluentExactly` | sqlite3/sqlite3.go:811-886 | all iteration orders give one outcome exactly when all invalid values have the same error or, without any, all spellings of one option carry the same parsed value |
| `SqliteDsnConfluence.SingleSpellingsAreConfluent` | sqlite3/sqlite3.go:828-854 | with each option under at most one spelling the outcome depends on the order exactly when two invalid values have different errors |
| `SqliteDsnConfluence.TwoSpellingsDisagree` | sqlite3/sqlite3.go:837-842 | `_fk=0` beside `_foreign_keys=1` is an instance where the configuration depends on the order |
| `SqliteDsnConfluence.TwoErrorsDisagree` | sqlite3/sqlite3.go:828-867 | `mode=a` beside `_fk=b` is one where the error does |
| `SqliteDsnConfluence.UriFlagExact` | sqlite3/sqlite3.go:870-907 | on success the URI flag is set exactly when the rebuilt file name starts with "file:" |
| `SqliteDsnConfluence.MemoryNameExact` | sqlite3/sqlite3.go:881-907 | the file name is ":memory:" exactly when the part before "?" is and nothing is preserved |
| `SqliteDsnConfluence.EmptyNameIsNotMemory` | sqlite3/sqlite3.go:817-819 | for the empty name the default ":memory:" is overwritten by the empty name |
| `SqliteInterrupt.InvKept` | sqlite3/sqlite3.go:1251-1275 | every atomic step of context, watchers and driver keeps the protocol invariant |
| `SqliteInterrupt.WatcherSafety` | sqlite3/sqlite3.go:1251-1275 | in every reachable state each watcher has interrupted at most once, only after its context was done and the flag stored; its channel is closed at most once, and exactly once when its operation is over |
| `SqliteInterrupt.OwnInterruptMeansContextError` | sqlite3/sqlite3.go:502-535 | an operation whose Step was ended by its own watcher returns the error of the context; that error is returned only when the own watcher stored its flag after the context was done |
| `SqliteInterrupt.ResultExact` | sqlite3/sqlite3.go:512-534 | what an operation returns for each code of its last Step, the flag and the context |
| `SqliteInterrupt.OwnInterruptIsPossible` | sqlite3/sqlite3.go:502-535 | a run in which the own watcher ends the Step and the operation returns the error of the context |
| `SqliteInterrupt.RankDecreases` | sqlite3/sqlite3.go:1257-1264 | no interleaving brings a watcher back, and each of its own steps brings it nearer to its end |
| `SqliteInterrupt.WatcherEnds` | sqlite3/sqlite3.go:1257-1264 | in any interleaving a watcher takes at most three steps |
| `SqliteInterrupt.StoppedWatcherCanMove` | sqlite3/sqlite3.go:1268-1275 | after stop a watcher that has not exited can always take a step |
| `SqliteInterrupt.StoppedWatcherExits` | sqlite3/sqlite3.go:1257-1275 | in every run without end that does not pass its goroutine over forever, a stopped watcher exits |
| `SqliteInterrupt.InterruptsExactly` | sqlite3/sqlite3.go:1251-1275 | in every state, stopped or not, a watcher whose context is not cancelled from now on can still call Interrupt exactly when it is past its select, or in it with the context done already |
| `SqliteInterrupt.ClosedInterruptExactly` | sqlite3/sqlite3.go:233-248 | once the connection is closed, some goroutine can call Interrupt on the closed database exactly when one has not exited; without further cancellations exactly when one is past its select, or in it with its context done already |
| `SqliteInterrupt.ClosedInterruptIsPossible` | sqlite3/sqlite3.go:1251-1275 | a run in which that happens: the watcher of a finished operation wakes up after the connection was closed |
| `SqliteInterrupt.LateInterruptIsPossible` | sqlite3/sqlite3.go:662-685 | a watcher may interrupt after stop and then hit the next operation: a run is given |
| `SqliteStatements.SQLiteStmt.Close` | sqlite3/sqlite3.go:429-441 | state and call log after Close; a second one does nothing |
| `SqliteStatements.SQLiteStmt.ResetForReuse` | sqlite3/sqlite3.go:703-717 | state and call log for every pair of native codes |
| `SqliteStatements.SQLiteStmt.NumInput` | sqlite3/sqlite3.go:443-445 | one call on the handle, whatever it is, and its answer |
| `SqliteStatements.SQLiteStmt.ResolveIndex` | sqlite3/sqlite3.go:609-621 | up to four spellings are tried until one is known |
| `SqliteStatements.SQLiteStmt.BindNamedValues` | sqlite3/sqlite3.go:587-607 | reset, clear, then each argument in order until one fails |
| `SqliteStatements.SQLiteStmt.ExecBound` | sqlite3/sqlite3.go:662-685 | the step loop: rows are skipped until another code comes |
| `SqliteStatements.SQLiteStmt.ExecContext` | sqlite3/sqlite3.go:459-471 | bind, step, reset; a failed bind skips the rest |
| `SqliteStatements.SQLiteRows.Close` | sqlite3/sqlite3.go:489-500 | once only: an ephemeral statement is closed, another one reset |
| `SqliteStatements.SQLiteRows.Next` | sqlite3/sqlite3.go:502-535 | a row is read; any other code closes the rows |
| `SqliteStatements.SQLiteConn.PrepareContext` | sqlite3/sqlite3.go:217-231 | a new statement object exactly when the native call succeeds |
| `SqliteStatements.SQLiteConn.ExecContext` | sqlite3/sqlite3.go:729-744 | the deferred Close runs on every path behind the preparation |
| `SqliteStatements.SQLiteConn.QueryContext` | sqlite3/sqlite3.go:325-347 | rows over a new ephemeral statement, or the statement closed again |
| `SqliteOutcomes.BindExact` | sqlite3/sqlite3.go:587-660 | binding succeeds exactly when reset and clear do and every argument is supported, found within four questions if named, and bound; and then these are its calls |
| `SqliteOutcomes.BindFails` | sqlite3/sqlite3.go:587-660 | the calls of a failed binding: none on an unusable connection, up to the failed reset or clear, or all before the first argument that is not found, supported or bound, and those of this one |
| `SqliteOutcomes.ExecExact` | sqlite3/sqlite3.go:459-471 | executing a statement succeeds exactly when it was bound, its steps were answered by rows and then by DONE, and reset and clear succeeded |
| `SqliteOutcomes.ExecCalls` | sqlite3/sqlite3.go:662-685 | and these are its calls |
| `SqliteOutcomes.ExecTransientExact` | sqlite3/sqlite3.go:729-744 | executing a text succeeds exactly when it was prepared, bound and stepped to DONE, however finalising ends |
| `SqliteOutcomes.QueryExact` | sqlite3/sqlite3.go:325-347 | there are rows exactly when the statement was prepared and bound |
| `SqliteOutcomes.QueryCalls` | sqlite3/sqlite3.go:687-701 | a query asks for the number of columns and for the name and type of each |
| `SqliteOutcomes.ClientExact` | sqlite3/sqlite3.go:217-347 | which operation of a client adds a statement or rows, and which ends the use of the connection |
| `SqliteOutcomes.NextExact` | sqlite3/sqlite3.go:502-535 | a row exactly for ROW, the end exactly for DONE or closed rows, an error otherwise; the rows stay open for a row only |
| `SqliteOutcomes.CloseExact` | sqlite3/sqlite3.go:429-441 | closing succeeds a second time, and otherwise exactly when finalising does |
| `SqliteOutcomes.ResetExact` | sqlite3/sqlite3.go:703-717 | resetting succeeds without a handle, and otherwise exactly when reset and clear do, and finalising for an ephemeral statement; its calls go up to the first that fails |
| `SqliteOutcomes.CloseRowsExact` | sqlite3/sqlite3.go:489-500 | closing rows succeeds a second time, and otherwise like closing or resetting their statement |
| `SqliteOutcomes.InsertOutcomes` | sqlite3/sqlite3.go:669-674 | a statement that answers DONE was executed, and one that answers 19 was not |
| `SqliteLifecycle.TransientExecFinalizesOnce` | sqlite3/sqlite3.go:729-744 | the handle of one exec is created, used and finalised exactly once, whatever the native codes |
| `SqliteLifecycle.InvStep` | sqlite3/sqlite3.go:217-535 | every operation of a client keeps the invariant: exactly the handles of open statements are live, each ephemeral one belongs to exactly one rows object and is closed with it |
| `SqliteLifecycle.ReachesInv` | sqlite3/sqlite3.go:217-535 | hence so does every run over any number of statements and rows |
| `SqliteLifecycle.RunExists` | sqlite3/sqlite3.go:217-535 | every list of operations has a run |
| `SqliteLifecycle.NoCallAfterFinalize` | sqlite3/sqlite3.go:429-441 | in every run no native call receives a finalised handle: no second finalisation, no use after it |
| `SqliteLifecycle.NothingLeaks` | sqlite3/sqlite3.go:325-347 | in every run exactly the handles of open statements are live; once the client has closed its statements and rows every handle was finalised |
| `SqliteLifecycle.NilReachesExactly` | sqlite3/sqlite3.go:587-607 | a nil statement handle reaches a call other than reset, step and finalise, in binding, querying, or executing a kept statement, exactly when the statement has no handle, the connection is usable and the reset of nil reports success |
| `SqliteLifecycle.NilTransientExactly` | sqlite3/sqlite3.go:729-744 | through the connection a nil handle reaches such a call, in executing or querying, exactly for an empty text, a usable connection, a live context, and success of the preparation and of the reset of nil |
| `SqliteLifecycle.NilStepExactly` | sqlite3/sqlite3.go:217-535 | the exact condition for every operation of a client in every state |
| `SqliteLifecycle.NilInstances` | sqlite3/sqlite3.go:729-744 | executing the empty text on a fresh connection is an instance, and so is executing a statement prepared from it |
| `SqliteLifecycle.NilReadExactly` | sqlite3/sqlite3.go:502-535 | and in reading a row exactly when the open rows belong to such a statement, the step reports a row and there is a column to read |
| `SqliteLifecycle.NilHandleExactly` | sqlite3/sqlite3.go:429-441 | a statement has no handle exactly when it was prepared from an empty text or was closed |

## Left out

- libclang, cursor walking and header files: the type tree with sizes, alignments and offsets is the input.
- Targets other than 64-bit ones: alignments of Go types are those of a 64-bit target.
- Go source text: emitted types and wrapper bodies are values, so comments, formatting and rendering are not modelled.
- Bitfield widths and C type spellings in the record metadata: no result depends on them.
- Limits of Python itself: parser nesting depth, digit limits of integers and memory for large shifts.
- The general regular expression engine: only the fixed patterns used are modelled, as predicates and searches on characters.
- Non-ASCII text: whitespace, letter case and digits are those of ASCII.
- `HelperTypeResolver`: the resolved type of a parameter is an input of the wrapper model.
- `_expand_buffer_input_pattern` and explicitly configured pairs: the selection of functions is a regular expression search; the results on pairs are about detected ones.
- Callback, owned string and struct accessor helpers: they repeat the shape of the buffer wrapper with fewer conditions.
- LayoutFidelity.Fidelity: an enumeration is given a signed Go type; whether the C compiler made it signed is not modelled.
- BufferWrapper.WrapperCompilesIffNoCapture: package-level declarations named like a builtin are not modelled, and a named type given to a length is taken to be an integer type.
- BufferWrapper.WrapperPreservesCall: a slice is an address and a length, so what the callee reads through the address is not modelled.
- SqliteDsn.ParseDSN: query parsing, query encoding and time zones are parameters.
- SqliteStatements.SQLiteStmt.ExecBound: a statement is taken to run out of rows after some number of steps, which every run that returns does; the watcher, the branch for an interrupted step and the kind of error are in `SqliteInterrupt`.
- SqliteStatements.SQLiteRows.Next: conversion of column values; a row is a number of column calls, since `columnValue` never returns an error; the error of the context is in `SqliteInterrupt`.
- SqliteLifecycle.NoCallAfterFinalize: the nil handle is no finalised handle here; which calls it reaches is stated by `NilStepExactly`, and when a handle is nil by `NilHandleExactly`.
- SqliteInterrupt.StoppedWatcherExits: that the Go scheduler is fair to the goroutine is a premise.
- Opening and closing connections, pragmas, transactions, hooks and registered functions: calls without logic of this kind; a closed connection refuses statements, starts no watcher, and that is all it does here.
- DuckRows.DuckDBRows.Next: `readValue` never returns an error, so that branch of the loop is not modelled, nor is the conversion by column type.
- DuckNumbers.ReadDecimalValue: the reads and type switch in front of the formatting; the scale is at most 18 because DuckDB keeps larger ones in 128 bits.
- Typedef lookups, declaration filters, enum tables, configuration, command line, diagnostics text and file output: easy or without logic.
