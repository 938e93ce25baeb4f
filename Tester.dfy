/** The tester object: `BaseTester` (common/tester.js:204-373), which the C tester inherits,
    and `WasmTester` (wasm/tester.js:100-280). Both keep the loaded symbol table and the
    loaded constraint system in fields that are filled on first use. They differ only in
    how a descriptor leaf is compared with 1, which `scalarTest` records. The contents of
    the `.sym` file and what the constraint-file reader returns are fixed when the tester
    is created. */
module Tester {
  import opened JsText
  import opened Outcomes
  import opened Symbols
  import opened Output
  import opened Assertion
  import opened Decorated
  import opened R1cs

  class Tester {
    /** `Strict` for `BaseTester`, `Loose` for `WasmTester`. */
    const scalarTest: ScalarTest
    /** The text of `<dir>/<baseName>.sym`. */
    const symFile: string
    /** What `readR1cs` yields for `<dir>/<baseName>.r1cs`: the field's prime, the number of
        wires and the constraints in file order. */
    const prime: Modulus
    const wireCount: nat
    const fileConstraints: seq<Constraint>

    /** `this.symbols`, unset until `loadSymbols` runs. */
    var symbols: Option<SymbolTable>
    /** `this.F`, `this.nVars` and `this.constraints`, unset until `loadConstraints` runs. */
    var field: Option<Modulus>
    var nVars: Option<nat>
    var constraints: Option<seq<Constraint>>

    /** Whatever is loaded is what the files hold. */
    ghost predicate Valid()
      reads this
    {
      && (symbols.Some? ==> symbols.value == ParseSymbols(symFile))
      && (constraints.Some? ==> field == Some(prime) && nVars == Some(wireCount)
                                && constraints.value == fileConstraints)
    }

    constructor(scalarTest: ScalarTest, symFile: string, prime: Modulus, wireCount: nat,
                fileConstraints: seq<Constraint>)
      ensures this.scalarTest == scalarTest && this.symFile == symFile
      ensures this.prime == prime && this.wireCount == wireCount
      ensures this.fileConstraints == fileConstraints
      ensures symbols.None? && field.None? && nVars.None? && constraints.None?
      ensures Valid()
    {
      this.scalarTest := scalarTest;
      this.symFile := symFile;
      this.prime := prime;
      this.wireCount := wireCount;
      this.fileConstraints := fileConstraints;
      symbols := None;
      field := None;
      nVars := None;
      constraints := None;
    }

    /** `loadSymbols()`: returns at once when a table is already loaded; otherwise starts
        from `{}` and binds the name of every four-field line, in file order. */
    method LoadSymbols()
      modifies this
      requires Valid()
      ensures Valid()
      ensures old(symbols).Some? ==> symbols == old(symbols)
      ensures symbols == Some(ParseSymbols(symFile))
      ensures field == old(field) && nVars == old(nVars) && constraints == old(constraints)
    {
      if symbols.Some? {
        return;
      }
      symbols := Some(EmptyTable);
      var lines := Split(symFile, '\n');
      for i := 0 to |lines|
        invariant symbols == Some(BuildTable(lines[..i]))
        invariant field == old(field) && nVars == old(nVars) && constraints == old(constraints)
      {
        assert lines[..i + 1][..i] == lines[..i];
        var arr := Split(lines[i], ',');
        if |arr| != 4 {
          continue;
        }
        var entry := Entry(StringToNumber(arr[0]), StringToNumber(arr[1]), StringToNumber(arr[2]));
        symbols := Some(Bind(symbols.value, arr[3], entry));
      }
      assert lines[..|lines|] == lines;
    }

    /** `loadConstraints()`: returns at once when the constraints are already loaded. */
    method LoadConstraints()
      modifies this
      requires Valid()
      ensures Valid()
      ensures old(constraints).Some? ==> field == old(field) && nVars == old(nVars)
                                         && constraints == old(constraints)
      ensures field == Some(prime) && nVars == Some(wireCount) && constraints == Some(fileConstraints)
      ensures symbols == old(symbols)
    {
      if constraints.Some? {
        return;
      }
      field := Some(prime);
      nVars := Some(wireCount);
      constraints := Some(fileConstraints);
    }

    /** `assertOut(actualOut, expectedOut)`: loads the symbols if needed, then checks the
        expected value from "main". */
    method AssertOut(actualOut: seq<int>, expectedOut: Expected) returns (r: Outcome)
      modifies this
      requires Valid()
      ensures Valid() && symbols == Some(ParseSymbols(symFile))
      ensures field == old(field) && nVars == old(nVars) && constraints == old(constraints)
      ensures r == CheckObject(ParseSymbols(symFile), actualOut, "main", expectedOut)
    {
      if symbols.None? {
        LoadSymbols();
      }
      r := CheckObject(symbols.value, actualOut, "main", expectedOut);
    }

    /** `getDecoratedOutput(witness)`: loads the symbols if needed, then dumps them. */
    method GetDecoratedOutput(witnessValues: seq<int>) returns (s: string)
      modifies this
      requires Valid()
      ensures Valid() && symbols == Some(ParseSymbols(symFile))
      ensures field == old(field) && nVars == old(nVars) && constraints == old(constraints)
      ensures forall k :: k in symbols.value.keys ==> k in symbols.value.entries
      ensures s == DecoratedOutput(symbols.value, witnessValues)
    {
      if symbols.None? {
        LoadSymbols();
      }
      BuildTableWellFormed(Split(symFile, '\n'));
      s := DecoratedDump(symbols.value, witnessValues);
    }

    /** `getOutput(witness, output, templateName)`: loads the symbols if needed, picks the
        prefix ("main", or the sub-component found by the pattern) and resolves `output`. */
    method GetOutput(witnessValues: seq<int>, output: Desc, templateName: string) returns (r: Result<Out>)
      modifies this
      requires Valid()
      ensures Valid() && symbols == Some(ParseSymbols(symFile))
      ensures field == old(field) && nVars == old(nVars) && constraints == old(constraints)
      ensures r == GetByPrefix(scalarTest, symbols.value, witnessValues,
                               OutputPrefix(symbols.value, templateName), output)
    {
      if symbols.None? {
        LoadSymbols();
      }
      var prefix := OutputPrefix(symbols.value, templateName);
      r := GetByPrefix(scalarTest, symbols.value, witnessValues, prefix, output);
    }

    /** `checkConstraints(witness)`: loads the constraints if needed, then checks them in
        file order, stopping at the first that fails. */
    method CheckConstraints(witnessValues: seq<int>) returns (r: Outcome)
      modifies this
      requires Valid()
      ensures Valid() && constraints == Some(fileConstraints)
      ensures symbols == old(symbols)
      ensures r == ConstraintsOutcome(prime, fileConstraints, witnessValues)
    {
      if constraints.None? {
        LoadConstraints();
      }
      r := CheckAll(field.value, constraints.value, witnessValues);
    }
  }
}
