# circom_tester witness inspection, in Dafny

This project models the witness-inspection layer of circom_tester, the library that tests circom circuits. The layer is
written twice, almost line for line:

- `BaseTester` in common/tester.js, which the C tester inherits;
- `WasmTester` in wasm/tester.js.

Once a circuit is compiled and a witness computed, a tester:

- loads the compiler's `.sym` listing into a symbol table (`loadSymbols`);
- reads outputs back out of the witness by a shape descriptor (`getOutput` and its inner
  `get_by_prefix`), including the lookup of a sub-component's prefix by a pattern on the
  symbol names;
- compares an expected nested value with the witness (`assertOut` and its inner
  `checkObject`);
- dumps every symbol with its value (`getDecoratedOutput`);
- checks the rank-1 constraints over the circuit's prime field (`checkConstraints` and its
  inner `evalLC`).

Two helpers, `version_to_list` and `check_versions`, parse and compare dotted compiler
versions.

Modules, one per part of the program:

- `Outcomes`: `Option`, and `Result`/`Outcome` carrying a `Failure`. Every `throw`
  (common/tester.js) and every failing chai `assert` (wasm/tester.js) becomes a `Failure` value.
- `JsText`: the JavaScript string and number semantics the tester relies on.
  - `String.prototype.split` with a one-character separator, and `Array.prototype.join`.
  - The decimal `toString` of a BigInt.
  - `Number(string)` and `parseInt(string, 10)`.
- `Symbols`: the symbol table, kept as its keys in enumeration order plus a map from
  names to entries; the fold that builds it from the listing; the listing format.
- `Output`: shape descriptors, `get_by_prefix`, and the sub-component prefix lookup.
  - The regular expression is modelled as written. Its middle `.` is not escaped, so it
    matches any character but a line terminator.
  - A `$` in the template name makes the pattern unmatchable.
- `Assertion`: `checkObject`, and its equivalence with checking the expected value's
  leaves one by one in traversal order.
- `Decorated`: the `name --> value` dump, its loop, and how the dump reads back.
- `R1cs`: linear combinations over Z_p and the constraint loop.
  - `evalLC`'s `for ... in` visits integer keys in ascending order; the model follows that
    order through the least remaining key.
- `Versions`: `version_to_list` and `check_versions`.
- `Tester`: one class, `Tester.Tester`, for both testers.
  - Its fields are filled on first use: the loaded symbol table and the loaded constraint
    system.
  - Its constant `scalarTest` records the only difference between the two testers that the
    model keeps. `BaseTester` tests a descriptor leaf with `out === 1`; `WasmTester` uses
    `out == 1`.

The contents of the `.sym` file and what the constraint-file reader yields are constructor
parameters. A witness is a sequence of integers. Reading past its end, or at a NaN index,
gives `undefined`, modelled as `None`.

Three details of the code shape the model:

- a failing constraint is reported only as "Constraint doesn't match", with no index
  (common/tester.js:356);
- a one-element array descriptor `[x]` resolves exactly as `x`, not as a list of `x` scalars
  (common/tester.js:317-318);
- a listing line that does not split into four fields is skipped, never reported
  (common/tester.js:224).

## Model

| member | source | states |
|---|---|---|
| JsText.Split | common/tester.js:221-223 | `s.split(sep)` has one more piece than `s` has separators, and no piece holds the separator |
| JsText.SplitKeepsOut | common/tester.js:223 | a character absent from a string is absent from every piece of its split |
| JsText.JoinSplit | common/tester.js:221 | joining the pieces of a split with the same separator gives back the original string |
| JsText.SplitJoin | common/tester.js:288 | splitting a join of separator-free pieces gives back exactly those pieces |
| JsText.JoinContains | common/tester.js:288 | a character that is neither the separator nor in any piece is not in the joined text |
| JsText.NatToString | common/tester.js:266 | `toString` of a natural is a non-empty run of decimal digits without a leading zero |
| JsText.IntToStringInjective | common/tester.js:266-268 | two integers have the same decimal text iff they are equal |
| JsText.StringToNumberOfIntToString | common/tester.js:226-228 | `Number` reads back any integer written by `toString` |
| JsText.ParseIntOfNatToString | common/tester.js:376 | `parseInt(s, 10)` reads back any natural written by `toString` |
| JsText.LeadingDigits | common/tester.js:376 | the digits `parseInt` reads are the longest all-digit prefix of the text |
| Symbols.Bind | common/tester.js:225-229 | `symbols[name] = e` maps `name` to `e`; a new name is enumerated last, a re-bound one keeps its place; keys stay distinct |
| Symbols.BuildTableWellFormed | common/tester.js:221-230 | the loaded table lists every bound name exactly once and lists only bound names |
| Symbols.BoundIffDeclared | common/tester.js:221-230 | a name is bound iff some line splits into exactly four comma fields with that name fourth |
| Symbols.LastDeclarationWins | common/tester.js:222-229 | the entry of a name is `Number` of the first three fields of the last line that declares it |
| Symbols.KeysInFirstDeclarationOrder | common/tester.js:222-229 | a key enumerated before another was declared on a line above every declaration of the other |
| Symbols.ParsedNamesAreSingleFields | common/tester.js:221-225 | a bound name holds neither a newline nor a comma |
| Symbols.ListingLineRoundTrip | common/tester.js:223-229 | a `label,var,component,name` line binds `name` to the three numbers written |
| Symbols.ListingRoundTrip | common/tester.js:214-231 | loading a listing of distinct names, the empty listing included, binds each to its numbers and enumerates them in listing order |
| Symbols.ListingFileRoundTrip | common/tester.js:214-231 | a listing ending in a newline, as the compiler writes it, loads exactly as the listing without it |
| Symbols.EmptyFileLoadsEmpty | common/tester.js:221-230 | an empty `.sym` text, or one holding only a newline, loads as the empty table |
| Symbols.DistinctNamesBuild | common/tester.js:222-229 | when line k declares the k-th of distinct names, the keys are those names in order |
| Output.Flat | common/tester.js:333-340 | a flat array succeeds iff every `prefix[j]` is bound; element j is then the witness entry of `prefix[j]` |
| Output.FlatFailsAtFirstUnbound | common/tester.js:334-338 | a flat array fails with the first unbound `prefix[j]` and all earlier ones bound |
| Output.LeafDescriptor | common/tester.js:326-341 | a leaf equal to 1 reads `prefix`; any other leaf n reads `prefix[0..n)` (none when n <= 0); failure names the first unbound signal |
| Output.ArrayDescriptor | common/tester.js:316-325 | `[x]` resolves as `x`; length 0 or above 2 fails with "Invalid output format"; `[n, inner]` lists `inner` at each `prefix[j]`, failing as the first failing item |
| Output.ObjectDescriptor | common/tester.js:309-315 | an object gives the same keys in the same order, each resolved at `prefix.key`, failing as the first failing entry |
| Output.FieldsSpec | common/tester.js:310-315 | the entries from the i-th on succeed iff each does, and the list is the keys with their resolved values |
| Output.FieldsFailure | common/tester.js:310-315 | failing entries fail as the first failing entry |
| Output.RepeatedSpec | common/tester.js:323-325 | the items from i on succeed iff each does, and the list holds each item's value in order |
| Output.RepeatedFailure | common/tester.js:323-325 | failing items fail as the first failing item |
| Output.GetByPrefixSound | common/tester.js:308-343 | a successful result has the descriptor's shape, and every leaf is the witness entry of the signal its path names |
| Output.FieldsSound | common/tester.js:310-315 | each value of an object result has its entry's shape and leaves resolved at `prefix.key` |
| Output.RepeatedSound | common/tester.js:323-325 | each item of `[n, inner]` has `inner`'s shape and leaves resolved at `prefix[j]` |
| Output.RepeatedOfOne | wasm/tester.js:223-225 | n copies of descriptor 1 read the same signals as the flat array of n |
| Output.RepeatOfOneIsFlat | wasm/tester.js:223-243 | `[n, 1]` and `n` give the same result whenever `n` is not itself taken as 1 |
| Output.StrictAndLooseAgree | wasm/tester.js:227 | on descriptors of objects, arrays and numbers, `===` and `==` testers extract the same result |
| Output.LooseAndStrictDisagreeOnStringOne | wasm/tester.js:227-243 | `"1"` and `true` are scalars for `==`, while `===` reads `"1"` as a one-element list at `prefix[0]` |
| Output.StringOneIsOne | wasm/tester.js:227 | `"1"` and `true` both convert to the number 1 |
| Output.StripLastSegment | common/tester.js:300 | `k.replace(/\.[^.]+$/, "")` removes exactly a final dot and non-empty dot-free segment, or leaves `k` unchanged when there is none |
| Output.FindPrefixNoMatch | common/tester.js:295-304 | with no matching key the prefix stays "main" |
| Output.FindPrefixFirstMatch | wasm/tester.js:195-204 | the prefix is the first matching key, in table order, with its last segment stripped |
| Output.DollarNameFallsBackToMain | common/tester.js:297 | a template name containing `$` never matches, so the prefix stays "main" |
| Output.KeyShapeMatches | common/tester.js:297 | the name followed by dot-free text, any one character and a non-empty dot-free tail matches the pattern |
| Output.MiddleDotMatchesAnyCharacter | common/tester.js:297-303 | "main.sqrt" matches template "sq", so it shadows "main.sq.out" and the prefix becomes "main" |
| Assertion.CheckLeavesSpec | common/tester.js:252-271 | checking leaves in order passes iff every leaf holds, else reports the first that does not |
| Assertion.CheckObjectIsCheckLeaves | common/tester.js:252-261 | `checkObject` checks the expected value's leaves in traversal order, at `prefix[i]` and `prefix.key` paths |
| Assertion.AssertOutSpec | common/tester.js:246-273 | `assertOut` passes iff every leaf at its path from "main" holds, else fails as the first leaf that does not |
| Assertion.IntegerLeafPassesIffEqual | common/tester.js:266-268 | an integer leaf passes iff the witness entry equals it |
| Assertion.ExtractedOutputPassesAssertion | wasm/tester.js:148-173 | an output `getOutput` extracted, written back as literals, passes `checkObject` at the same prefix |
| Decorated.ValueTextReadsBack | common/tester.js:280-285 | the shown text is "undefined" iff the witness has no entry, and otherwise reads back as the entry |
| Decorated.DecoratedDump | common/tester.js:277-288 | the loop builds exactly the joined lines, one per key in table order |
| Decorated.DecoratedOutputReadsBack | wasm/tester.js:179-188 | splitting the dump on newlines gives one `name --> value` line per key, in table order |
| Decorated.LoadedTableDump | common/tester.js:275-289 | for a loaded table the dump has one line per bound signal |
| R1cs.Reduce | common/tester.js:366 | `F.e(x)` is the residue of x in `[0, p)` |
| R1cs.MinKey | common/tester.js:363 | `for (let w in lc)` next visits the least remaining key |
| R1cs.LcValue | common/tester.js:360-370 | `evalLC` succeeds iff every index has a witness entry, with a value in `[0, p)` |
| R1cs.EvalLC | common/tester.js:360-370 | the accumulator loop computes the sum of `lc[k] * F.e(w[k])` modulo p, or the missing-entry failure |
| R1cs.EmptyLcIsZero | wasm/tester.js:267-277 | an empty combination evaluates to zero for any witness |
| R1cs.CheckAll | common/tester.js:350-358 | the constraint loop returns the outcome of the first constraint that does not pass |
| R1cs.ConstraintOutcomeSpec | common/tester.js:351-357 | a constraint passes iff `A * B - C` is 0 modulo p; "Constraint doesn't match" iff all entries exist but it is not |
| R1cs.CheckConstraintsSpec | common/tester.js:346-358 | the check passes iff every constraint is satisfied, else fails as the first unsatisfied one |
| R1cs.EmptyConstraintsPass | wasm/tester.js:251-265 | constraints whose combinations are all empty pass for any witness |
| R1cs.OneTimesOneIsNotTwo | common/tester.js:355-356 | `{0:1} * {0:1} = {0:2}` fails against witness `[1]` with "Constraint doesn't match" |
| Versions.VersionToList | common/tester.js:375-377 | one number per dot-separated segment, each `parseInt` of that segment |
| Versions.VersionRoundTrip | wasm/tester.js:282-286 | parsing a dotted version of naturals gives back its components |
| Versions.CheckVersions | common/tester.js:379-386 | the loop returns true iff at the first ordered position below `v2`'s length `v1` is greater, or there is none |
| Versions.NewerOrEqualReflexive | wasm/tester.js:288-295 | a version is newer than or equal to itself |
| Versions.NewerOrEqualTotal | wasm/tester.js:288-295 | of any two versions, of equal length or not, one is newer than or equal to the other |
| Versions.NewerOrEqualAntisymmetric | wasm/tester.js:288-295 | integer versions of equal length, each newer than or equal to the other, are equal |
| Versions.ShorterPrefixCountsAsNewer | common/tester.js:381-385 | a prefix of a version counts as newer than or equal to it, because missing positions compare as NaN |
| Versions.TwoPointZeroPassesForTwoPointZeroPointOne | common/tester.js:381-385 | `[2, 0]` is taken as newer than or equal to `[2, 0, 1]` |
| Tester.Tester.constructor | common/tester.js:205-208 | a new tester has nothing loaded |
| Tester.Tester.LoadSymbols | common/tester.js:214-231 | returns at once when a table is loaded; otherwise loads the table of the `.sym` text; nothing else changes |
| Tester.Tester.LoadConstraints | common/tester.js:233-244 | returns at once when loaded; otherwise stores the prime, wire count and constraints read |
| Tester.Tester.AssertOut | common/tester.js:246-250 | loads the symbols if needed and returns `checkObject("main", expected)` on the loaded table |
| Tester.Tester.GetDecoratedOutput | common/tester.js:275-289 | loads the symbols if needed and returns the dump of the loaded table |
| Tester.Tester.GetOutput | common/tester.js:291-306 | loads the symbols if needed and resolves the descriptor from the looked-up prefix |
| Tester.Tester.CheckConstraints | common/tester.js:346-358 | loads the constraints if needed and returns the outcome of checking them in file order |

## Left out

- Reading files, `readR1cs` and the `F1Field` library are not modelled. The `.sym` text and
  the prime, wire count and constraints the reader yields are constructor parameters, and
  field arithmetic is integers modulo p.
- `parseOptionsAndCompile`, both `compile` functions and `compiler_above_version` run the
  compiler and `make` in a shell, so they are not modelled. `version_to_list` and
  `check_versions`, which the last one uses, are modelled.
- `calculateWitness` calls an external WebAssembly or native witness calculator, so it is
  not modelled. The witness is a parameter.
- `release()` (directory clean-up) and the `BigInt.prototype.toJSON` patch are not modelled.
- Tester.Tester.LoadSymbols: `async` and `await` are not modelled. Calls are taken one after
  another, so the window in which `symbols` is `{}` while the file is still being read cannot
  be observed.
- A chai assertion error and a thrown `Error` are not told apart. The exact message texts are
  not modelled; a `Failure` carries the names and values a message shows.
- JavaScript enumerates integer-like property names ("0", "1", ...) before the others. The
  model enumerates all names in insertion order, which is what happens for signal names
  starting with "main".
- Names inherited from `Object.prototype` (such as "constructor") are not modelled. In the
  source they would make `symbols[name]` defined for an unbound name.
- JsText.StringToNumber: covers blank text, decimal integers with an optional sign, and
  surrounding white space. Fractions, exponents, hexadecimal, binary, octal and "Infinity"
  all give NaN in the model, unlike in JavaScript.
- Witness entries are integers. Fractional numbers and numbers beyond 2^53 are not modelled.
- Assertion.CheckObject: expected values are arrays, objects and leaves with a text. A `null`
  expected value, which throws a TypeError at `null.constructor` (common/tester.js:258), and
  an `undefined` leaf, which throws one at `eOut.toString()` (common/tester.js:267), are not
  modelled.
- Output.GetByPrefix: descriptors are objects, arrays, integers, strings and booleans.
  `null`, `undefined`, BigInt, fractional and function descriptors are not modelled.
- Output.PatternMatches: only `$` is treated as special inside a template name. Other
  regular-expression characters would change the pattern in the source but are read
  literally here.
- Output.ArrayLength: a length that JavaScript's `Array.from` rejects with a RangeError (at
  or above 2^32) is not modelled.
- The dead `return result;` after the branches of `get_by_prefix` in wasm/tester.js is not
  modelled; no path reaches it.
- Strings are sequences of Unicode scalar values, not UTF-16 code units.
