/** The symbol table that `loadSymbols` builds from the compiler's `.sym` listing
    (common/tester.js:214-231, wasm/tester.js:116-133). */
module Symbols {
  import opened JsText
  import opened Outcomes

  /** What is stored for one signal: `Number` of the first three fields of its line. */
  datatype Entry = Entry(labelIdx: JsNumber, varIdx: JsNumber, componentIdx: JsNumber)

  /** The `symbols` object: its keys in enumeration order and the entry bound to each key. */
  datatype SymbolTable = SymbolTable(keys: seq<string>, entries: map<string, Entry>)

  /** Keys are listed once each, and exactly the bound names are listed. */
  ghost predicate WellFormed(t: SymbolTable)
  {
    && (forall i, j :: 0 <= i < j < |t.keys| ==> t.keys[i] != t.keys[j])
    && (forall k :: k in t.entries <==> k in t.keys)
  }

  /** The `{}` that `loadSymbols` starts from. */
  const EmptyTable := SymbolTable([], map[])

  /** `symbols[name] = e`: a new name is enumerated last; a name already bound keeps its
      place and takes the new entry. */
  function Bind(t: SymbolTable, name: string, e: Entry): (r: SymbolTable)
    ensures r.entries == t.entries[name := e]
    ensures name in t.entries ==> r.keys == t.keys
    ensures name !in t.entries ==> r.keys == t.keys + [name]
    ensures WellFormed(t) ==> WellFormed(r)
  {
    SymbolTable(if name in t.entries then t.keys else t.keys + [name], t.entries[name := e])
  }

  /** A listing line binds `name` when it has exactly four comma-separated fields and the
      fourth is `name`. */
  predicate Declares(line: string, name: string)
  {
    var f := Split(line, ',');
    |f| == 4 && f[3] == name
  }

  /** The entry a four-field line binds. */
  function EntryOf(line: string): Entry
    requires |Split(line, ',')| == 4
  {
    var f := Split(line, ',');
    Entry(StringToNumber(f[0]), StringToNumber(f[1]), StringToNumber(f[2]))
  }

  /** One turn of the loading loop: lines of any other arity are skipped. */
  function AddLine(t: SymbolTable, line: string): SymbolTable
  {
    var f := Split(line, ',');
    if |f| != 4 then t else Bind(t, f[3], EntryOf(line))
  }

  /** The table after the loading loop has read `lines` in order. */
  function BuildTable(lines: seq<string>): SymbolTable
  {
    if lines == [] then EmptyTable
    else AddLine(BuildTable(lines[..|lines| - 1]), lines[|lines| - 1])
  }

  /** The table `loadSymbols` builds from the text of a `.sym` file. */
  function ParseSymbols(text: string): SymbolTable
  {
    BuildTable(Split(text, '\n'))
  }

  /** `witness[idx]`: the entry at an integer index inside the witness, otherwise
      `undefined` (a NaN, negative or too large index). */
  function WitnessAt(w: seq<int>, idx: JsNumber): (r: Option<int>)
    ensures r.Some? <==> idx.Int? && 0 <= idx.value < |w|
    ensures r.Some? ==> r.value == w[idx.value]
  {
    if idx.Int? && 0 <= idx.value < |w| then Some(w[idx.value]) else None
  }

  // ---------------------------------------------------------------- properties

  /** Every loaded table lists each bound name exactly once. */
  lemma {:induction false} BuildTableWellFormed(lines: seq<string>)
    ensures WellFormed(BuildTable(lines))
  {
    if lines != [] {
      BuildTableWellFormed(lines[..|lines| - 1]);
    }
  }

  /** A name is bound iff some line of exactly four fields names it. */
  lemma {:induction false} BoundIffDeclared(lines: seq<string>, name: string)
    ensures name in BuildTable(lines).entries
        <==> exists i :: 0 <= i < |lines| && Declares(lines[i], name)
  {
    if lines != [] {
      var n := |lines| - 1;
      BoundIffDeclared(lines[..n], name);
      AddLineBinds(BuildTable(lines[..n]), lines[n], name);
      DeclaredInInitOrLast(lines, lines[..n], name);
    }
  }

  /** Some line declares `name` iff a line before the last one does or the last one does. */
  lemma DeclaredInInitOrLast(lines: seq<string>, init: seq<string>, name: string)
    requires lines != [] && init == lines[..|lines| - 1]
    ensures (exists i :: 0 <= i < |lines| && Declares(lines[i], name))
        <==> (exists i :: 0 <= i < |init| && Declares(init[i], name))
             || Declares(lines[|lines| - 1], name)
  {
    if exists i :: 0 <= i < |init| && Declares(init[i], name) {
      var i :| 0 <= i < |init| && Declares(init[i], name);
      assert lines[i] == init[i];
    }
    if exists i :: 0 <= i < |lines| && Declares(lines[i], name) {
      var i :| 0 <= i < |lines| && Declares(lines[i], name);
      if i < |init| {
        assert init[i] == lines[i];
      }
    }
  }

  /** One line adds the name it declares, if any, and removes none. */
  lemma AddLineBinds(t: SymbolTable, line: string, name: string)
    ensures name in AddLine(t, line).entries <==> name in t.entries || Declares(line, name)
  {
  }

  /** The entry of a bound name comes from the last line that declares it. */
  lemma {:induction false} LastDeclarationWins(lines: seq<string>, name: string, i: nat)
    requires i < |lines| && Declares(lines[i], name)
    requires forall j :: i < j < |lines| ==> !Declares(lines[j], name)
    ensures name in BuildTable(lines).entries
    ensures BuildTable(lines).entries[name] == EntryOf(lines[i])
  {
    var init := lines[..|lines| - 1];
    if i < |lines| - 1 {
      assert init[i] == lines[i];
      forall j | i < j < |init| ensures !Declares(init[j], name) {
        assert init[j] == lines[j];
      }
      LastDeclarationWins(init, name, i);
    }
  }

  /** Keys are enumerated in the order in which names were first declared: a key listed
      before another was declared on some line above every declaration of the other. */
  lemma {:induction false} KeysInFirstDeclarationOrder(lines: seq<string>, a: nat, b: nat)
    requires a < b < |BuildTable(lines).keys|
    ensures exists i :: 0 <= i < |lines| && Declares(lines[i], BuildTable(lines).keys[a])
              && forall j :: 0 <= j <= i ==> !Declares(lines[j], BuildTable(lines).keys[b])
    decreases |lines|, 1
  {
    LastLineStep(lines);
    if b < |BuildTable(lines[..|lines| - 1]).keys| {
      EarlierKeysOrder(lines, a, b);
    } else {
      LastKeyOrder(lines, a, b);
    }
  }

  /** Both keys were already bound before the last line: the order is inherited. */
  lemma {:induction false} EarlierKeysOrder(lines: seq<string>, a: nat, b: nat)
    requires lines != []
    requires a < b < |BuildTable(lines[..|lines| - 1]).keys|
    requires BuildTable(lines).keys[..|BuildTable(lines[..|lines| - 1]).keys|]
          == BuildTable(lines[..|lines| - 1]).keys
    ensures exists i :: 0 <= i < |lines| && Declares(lines[i], BuildTable(lines).keys[a])
              && forall j :: 0 <= j <= i ==> !Declares(lines[j], BuildTable(lines).keys[b])
    decreases |lines|, 0
  {
    var init := lines[..|lines| - 1];
    var t0, t := BuildTable(init), BuildTable(lines);
    KeysInFirstDeclarationOrder(init, a, b);
    assert t.keys[a] == t0.keys[a] && t.keys[b] == t0.keys[b];
    var i :| 0 <= i < |init| && Declares(init[i], t0.keys[a])
      && forall j :: 0 <= j <= i ==> !Declares(init[j], t0.keys[b]);
    assert lines[i] == init[i];
    forall j | 0 <= j <= i ensures !Declares(lines[j], t.keys[b]) {
      assert lines[j] == init[j];
    }
  }

  /** The later key was appended by the last line, so no earlier line declares it, while the
      earlier key was declared by some earlier line. */
  lemma LastKeyOrder(lines: seq<string>, a: nat, b: nat)
    requires lines != []
    requires a < |BuildTable(lines[..|lines| - 1]).keys| == b < |BuildTable(lines).keys|
    requires BuildTable(lines).keys[..b] == BuildTable(lines[..|lines| - 1]).keys
    requires BuildTable(lines).keys[b] !in BuildTable(lines[..|lines| - 1]).entries
    ensures exists i :: 0 <= i < |lines| && Declares(lines[i], BuildTable(lines).keys[a])
              && forall j :: 0 <= j <= i ==> !Declares(lines[j], BuildTable(lines).keys[b])
  {
    var init := lines[..|lines| - 1];
    var t0, t := BuildTable(init), BuildTable(lines);
    assert t.keys[a] == t0.keys[a];
    BuildTableWellFormed(init);
    var i := DeclaredBefore(init, t0.keys[a], t.keys[b]);
    forall j | 0 <= j <= i ensures lines[j] == init[j] {
    }
  }

  /** A bound name is declared on a line above every declaration of an unbound one. */
  lemma DeclaredBefore(lines: seq<string>, bound: string, unbound: string) returns (i: nat)
    requires bound in BuildTable(lines).entries && unbound !in BuildTable(lines).entries
    ensures i < |lines| && Declares(lines[i], bound)
    ensures forall j :: 0 <= j <= i ==> !Declares(lines[j], unbound)
  {
    BoundIffDeclared(lines, bound);
    BoundIffDeclared(lines, unbound);
    i :| 0 <= i < |lines| && Declares(lines[i], bound);
  }

  /** Reading the last line keeps the earlier keys in place and appends at most the name
      that line declares, when it was not bound before. */
  lemma LastLineStep(lines: seq<string>)
    requires lines != []
    ensures var t0, t := BuildTable(lines[..|lines| - 1]), BuildTable(lines);
      && |t0.keys| <= |t.keys| <= |t0.keys| + 1
      && t.keys[..|t0.keys|] == t0.keys
      && (|t.keys| > |t0.keys| ==>
            Declares(lines[|lines| - 1], t.keys[|t0.keys|]) && t.keys[|t0.keys|] !in t0.entries)
  {
  }

  /** A bound name is the fourth field of one line of the file, so it holds neither a
      newline nor a comma. */
  lemma ParsedNamesAreSingleFields(text: string, name: string)
    requires name in ParseSymbols(text).entries
    ensures '\n' !in name && ',' !in name
  {
    var lines := Split(text, '\n');
    BoundIffDeclared(lines, name);
    var i :| 0 <= i < |lines| && Declares(lines[i], name);
    var f := Split(lines[i], ',');
    assert name == f[3];
    assert '\n' !in lines[i];
    SplitKeepsOut(lines[i], ',', '\n');
  }

  // ---------------------------------------------------------------- the listing format

  /** The line the compiler writes for one signal: `labelIdx,varIdx,componentIdx,name`. */
  function ListingLine(labelIdx: nat, varIdx: nat, component: nat, name: string): string
  {
    Join([NatToString(labelIdx), NatToString(varIdx), NatToString(component), name], ',')
  }

  /** A listing line written for a comma-free name is read back as that name bound to the
      three numbers written. */
  lemma ListingLineRoundTrip(labelIdx: nat, varIdx: nat, component: nat, name: string)
    requires ',' !in name
    ensures Declares(ListingLine(labelIdx, varIdx, component, name), name)
    ensures EntryOf(ListingLine(labelIdx, varIdx, component, name))
         == Entry(Int(labelIdx), Int(varIdx), Int(component))
  {
    var parts := [NatToString(labelIdx), NatToString(varIdx), NatToString(component), name];
    NumeralHasNoSeparator(labelIdx);
    NumeralHasNoSeparator(varIdx);
    NumeralHasNoSeparator(component);
    SplitJoin(parts, ',');
    assert Split(ListingLine(labelIdx, varIdx, component, name), ',') == parts;
    StringToNumberOfNatToString(labelIdx);
    StringToNumberOfNatToString(varIdx);
    StringToNumberOfNatToString(component);
  }

  lemma ListingLineHasNoNewline(labelIdx: nat, varIdx: nat, component: nat, name: string)
    requires '\n' !in name
    ensures '\n' !in ListingLine(labelIdx, varIdx, component, name)
  {
    var parts := [NatToString(labelIdx), NatToString(varIdx), NatToString(component), name];
    NumeralHasNoSeparator(labelIdx);
    NumeralHasNoSeparator(varIdx);
    NumeralHasNoSeparator(component);
    assert forall i :: 0 <= i < |parts| ==> '\n' !in parts[i];
    JoinContains(parts, ',', '\n');
  }

  /** The lines of a listing, one per signal. */
  function ListingLines(labels: seq<nat>, vars: seq<nat>, comps: seq<nat>, names: seq<string>): seq<string>
    requires |labels| == |vars| == |comps| == |names|
  {
    seq(|names|, k requires 0 <= k < |names| => ListingLine(labels[k], vars[k], comps[k], names[k]))
  }

  /** A whole listing: the lines separated by newlines. */
  function Listing(labels: seq<nat>, vars: seq<nat>, comps: seq<nat>, names: seq<string>): string
    requires |labels| == |vars| == |comps| == |names|
  {
    Join(ListingLines(labels, vars, comps, names), '\n')
  }

  lemma ListingLinesDeclare(labels: seq<nat>, vars: seq<nat>, comps: seq<nat>, names: seq<string>)
    requires |labels| == |vars| == |comps| == |names|
    requires forall k :: 0 <= k < |names| ==> ',' !in names[k] && '\n' !in names[k]
    ensures var lines := ListingLines(labels, vars, comps, names);
      forall k :: 0 <= k < |lines| ==>
        && '\n' !in lines[k] && Declares(lines[k], names[k])
        && EntryOf(lines[k]) == Entry(Int(labels[k]), Int(vars[k]), Int(comps[k]))
  {
    var lines := ListingLines(labels, vars, comps, names);
    forall k | 0 <= k < |lines| ensures '\n' !in lines[k] && Declares(lines[k], names[k])
      && EntryOf(lines[k]) == Entry(Int(labels[k]), Int(vars[k]), Int(comps[k]))
    {
      assert lines[k] == ListingLine(labels[k], vars[k], comps[k], names[k]);
      ListingLineRoundTrip(labels[k], vars[k], comps[k], names[k]);
      ListingLineHasNoNewline(labels[k], vars[k], comps[k], names[k]);
    }
  }

  /** Loading a listing of distinct, comma- and newline-free names binds every name to the
      numbers written on its line, and enumerates the names in listing order. */
  lemma ListingRoundTrip(labels: seq<nat>, vars: seq<nat>, comps: seq<nat>, names: seq<string>)
    requires |labels| == |vars| == |comps| == |names|
    requires forall k :: 0 <= k < |names| ==> ',' !in names[k] && '\n' !in names[k]
    requires forall k, m :: 0 <= k < m < |names| ==> names[k] != names[m]
    ensures ParseSymbols(Listing(labels, vars, comps, names)).keys == names
    ensures forall k :: 0 <= k < |names| ==>
              && names[k] in ParseSymbols(Listing(labels, vars, comps, names)).entries
              && ParseSymbols(Listing(labels, vars, comps, names)).entries[names[k]]
                 == Entry(Int(labels[k]), Int(vars[k]), Int(comps[k]))
  {
    if |names| == 0 {
      assert Split("", '\n') == [""];
      return;
    }
    var lines := ListingLines(labels, vars, comps, names);
    ListingLinesDeclare(labels, vars, comps, names);
    SplitJoin(lines, '\n');
    assert ParseSymbols(Listing(labels, vars, comps, names)) == BuildTable(lines);
    DistinctNamesBuild(lines, names);
    forall k | 0 <= k < |names|
      ensures names[k] in BuildTable(lines).entries
      ensures BuildTable(lines).entries[names[k]] == Entry(Int(labels[k]), Int(vars[k]), Int(comps[k]))
    {
      forall j | k < j < |lines| ensures !Declares(lines[j], names[k]) {
        DeclaresOneName(lines[j], names[j], names[k]);
      }
      LastDeclarationWins(lines, names[k], k);
    }
  }

  /** A final newline after newline-free lines adds one empty line, which has a single
      field and is skipped. */
  lemma TrailingNewlineIgnored(lines: seq<string>)
    requires |lines| >= 1
    requires forall k :: 0 <= k < |lines| ==> '\n' !in lines[k]
    ensures ParseSymbols(Join(lines, '\n') + "\n") == ParseSymbols(Join(lines, '\n'))
  {
    JoinThenEmpty(lines, '\n');
    var file := lines + [""];
    forall k | 0 <= k < |file| ensures '\n' !in file[k] {
      if k < |lines| {
        assert file[k] == lines[k];
      }
    }
    SplitJoin(file, '\n');
    SplitJoin(lines, '\n');
    assert file[..|file| - 1] == lines;
    assert Split("", ',') == [""];
  }

  /** An empty `.sym` text, or one holding only a newline, loads as the empty table. */
  lemma EmptyFileLoadsEmpty()
    ensures ParseSymbols("") == EmptyTable
    ensures ParseSymbols("\n") == EmptyTable
  {
    assert Split("", '\n') == [""];
    assert Split("\n", '\n') == ["", ""];
    assert Split("", ',') == [""];
  }

  /** The compiler ends its listing with a newline. The empty line after it has one field,
      so it is skipped, and the file loads as the listing does. */
  lemma ListingFileRoundTrip(labels: seq<nat>, vars: seq<nat>, comps: seq<nat>, names: seq<string>)
    requires |labels| == |vars| == |comps| == |names|
    requires forall k :: 0 <= k < |names| ==> ',' !in names[k] && '\n' !in names[k]
    requires forall k, m :: 0 <= k < m < |names| ==> names[k] != names[m]
    ensures ParseSymbols(Listing(labels, vars, comps, names) + "\n") == ParseSymbols(Listing(labels, vars, comps, names))
    ensures ParseSymbols(Listing(labels, vars, comps, names) + "\n").keys == names
    ensures forall k :: 0 <= k < |names| ==>
              && names[k] in ParseSymbols(Listing(labels, vars, comps, names) + "\n").entries
              && ParseSymbols(Listing(labels, vars, comps, names) + "\n").entries[names[k]]
                 == Entry(Int(labels[k]), Int(vars[k]), Int(comps[k]))
  {
    if |names| == 0 {
      EmptyFileLoadsEmpty();
      return;
    }
    var lines := ListingLines(labels, vars, comps, names);
    ListingLinesDeclare(labels, vars, comps, names);
    TrailingNewlineIgnored(lines);
    ListingRoundTrip(labels, vars, comps, names);
  }

  lemma InitAndLast(s: seq<string>)
    requires s != []
    ensures s[..|s| - 1] + [s[|s| - 1]] == s
  {
  }

  /** A line declares at most one name. */
  lemma DeclaresOneName(line: string, a: string, b: string)
    requires Declares(line, a)
    ensures Declares(line, b) <==> a == b
  {
  }

  /** When line k declares the k-th of a list of distinct names, the keys are those names. */
  lemma {:induction false} DistinctNamesBuild(lines: seq<string>, names: seq<string>)
    requires |lines| == |names|
    requires forall k :: 0 <= k < |lines| ==> Declares(lines[k], names[k])
    requires forall k, m :: 0 <= k < m < |names| ==> names[k] != names[m]
    ensures BuildTable(lines).keys == names
  {
    if lines != [] {
      var n := |lines| - 1;
      var init, firstNames := lines[..n], names[..n];
      forall k | 0 <= k < n ensures Declares(init[k], firstNames[k]) {
        assert init[k] == lines[k] && firstNames[k] == names[k];
      }
      DistinctNamesBuild(init, firstNames);
      var t0 := BuildTable(init);
      forall i | 0 <= i < n ensures !Declares(init[i], names[n]) {
        assert init[i] == lines[i];
        DeclaresOneName(lines[i], names[i], names[n]);
      }
      BoundIffDeclared(init, names[n]);
      assert names[n] !in t0.entries;
      assert BuildTable(lines) == AddLine(t0, lines[n]);
      assert BuildTable(lines) == Bind(t0, names[n], EntryOf(lines[n]));
      InitAndLast(names);
    }
  }
}
