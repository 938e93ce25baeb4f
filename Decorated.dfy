/** The diagnostic dump of `getDecoratedOutput` (common/tester.js:275-289,
    wasm/tester.js:175-189): one `name --> value` line per symbol, in table order. */
module Decorated {
  import opened JsText
  import opened Outcomes
  import opened Symbols

  /** The text shown for a witness entry: its decimal numeral, or "undefined" when the
      witness has no entry at the index. */
  function ValueText(w: seq<int>, idx: JsNumber): string
  {
    match WitnessAt(w, idx)
    case None => "undefined"
    case Some(v) => IntToString(v)
  }

  /** The two kinds of text cannot be confused, and the numeral reads back as the entry. */
  lemma ValueTextReadsBack(w: seq<int>, idx: JsNumber)
    ensures ValueText(w, idx) == "undefined" <==> WitnessAt(w, idx).None?
    ensures WitnessAt(w, idx).Some? ==> StringToNumber(ValueText(w, idx)) == Int(WitnessAt(w, idx).value)
  {
    if WitnessAt(w, idx).Some? {
      var v := WitnessAt(w, idx).value;
      StringToNumberOfIntToString(v);
      var s := IntToString(v);
      assert s[0] == '-' || IsDigit(s[0]);
    }
  }

  /** `${n} --> ${v}` */
  function DecoratedLine(t: SymbolTable, w: seq<int>, name: string): string
    requires name in t.entries
  {
    name + " --> " + ValueText(w, t.entries[name].varIdx)
  }

  /** The lines of the dump, one per key, in enumeration order. */
  function DecoratedLines(t: SymbolTable, w: seq<int>): seq<string>
    requires forall k :: k in t.keys ==> k in t.entries
  {
    seq(|t.keys|, i requires 0 <= i < |t.keys| => DecoratedLine(t, w, t.keys[i]))
  }

  /** `lines.join("\n")` */
  function DecoratedOutput(t: SymbolTable, w: seq<int>): string
    requires forall k :: k in t.keys ==> k in t.entries
  {
    Join(DecoratedLines(t, w), '\n')
  }

  /** One pushed line: the entry's numeral, or "undefined" when the witness has none. */
  method LineOf(t: SymbolTable, w: seq<int>, name: string) returns (line: string)
    requires name in t.entries
    ensures line == DecoratedLine(t, w, name)
  {
    var entry := WitnessAt(w, t.entries[name].varIdx);
    var v: string;
    if entry.Some? {
      v := IntToString(entry.value);
    } else {
      v := "undefined";
    }
    line := name + " --> " + v;
  }

  /** The loop of `getDecoratedOutput`: for each key in enumeration order, the entry's text
      or "undefined", pushed as `name --> value`; then the lines joined with newlines. */
  method DecoratedDump(t: SymbolTable, w: seq<int>) returns (s: string)
    requires forall k :: k in t.keys ==> k in t.entries
    ensures s == DecoratedOutput(t, w)
  {
    ghost var all := DecoratedLines(t, w);
    var lines: seq<string> := [];
    for i := 0 to |t.keys|
      invariant lines == all[..i]
    {
      var line := LineOf(t, w, t.keys[i]);
      assert all[..i + 1] == all[..i] + [line];
      lines := lines + [line];
    }
    assert all[..|t.keys|] == all;
    s := Join(lines, '\n');
  }

  lemma NumeralHasNoNewline(v: int)
    ensures '\n' !in IntToString(v)
  {
    var s := IntToString(v);
    if v < 0 {
      assert s == "-" + NatToString(-v);
      NumeralHasNoSeparator(-v);
    } else {
      NumeralHasNoSeparator(v);
    }
  }

  lemma LineHasNoNewline(t: SymbolTable, w: seq<int>, name: string)
    requires name in t.entries && '\n' !in name
    ensures '\n' !in DecoratedLine(t, w, name)
  {
    var idx := t.entries[name].varIdx;
    var v := ValueText(w, idx);
    if WitnessAt(w, idx).Some? {
      NumeralHasNoNewline(WitnessAt(w, idx).value);
    } else {
      assert v == "undefined";
    }
    assert '\n' !in v;
    assert '\n' !in " --> ";
  }

  /** The dump reads back line by line: splitting it on newlines gives one line per key, in
      table order, each the key, an arrow, and the text of its witness entry. An empty table
      gives the empty string. */
  lemma DecoratedOutputReadsBack(t: SymbolTable, w: seq<int>)
    requires forall k :: k in t.keys ==> k in t.entries
    requires forall i :: 0 <= i < |t.keys| ==> '\n' !in t.keys[i]
    ensures |t.keys| == 0 ==> DecoratedOutput(t, w) == ""
    ensures |t.keys| > 0 ==> var lines := Split(DecoratedOutput(t, w), '\n');
      && |lines| == |t.keys|
      && forall i :: 0 <= i < |lines| ==>
           lines[i] == t.keys[i] + " --> " + ValueText(w, t.entries[t.keys[i]].varIdx)
  {
    var lines := DecoratedLines(t, w);
    if |t.keys| > 0 {
      forall i | 0 <= i < |lines| ensures '\n' !in lines[i] {
        LineHasNoNewline(t, w, t.keys[i]);
      }
      SplitJoin(lines, '\n');
    }
  }

  /** For a loaded table: one line per bound signal, in the order of first declaration. */
  lemma LoadedTableDump(text: string, w: seq<int>)
    ensures var t := ParseSymbols(text);
      (forall k :: k in t.keys ==> k in t.entries)
      && (|t.keys| > 0 ==> |Split(DecoratedOutput(t, w), '\n')| == |t.entries|)
  {
    var t := ParseSymbols(text);
    BuildTableWellFormed(Split(text, '\n'));
    forall i | 0 <= i < |t.keys| ensures '\n' !in t.keys[i] {
      ParsedNamesAreSingleFields(text, t.keys[i]);
    }
    if |t.keys| > 0 {
      DecoratedOutputReadsBack(t, w);
      DistinctKeysCount(t);
    }
  }

  lemma DistinctKeysCount(t: SymbolTable)
    requires WellFormed(t)
    ensures |t.entries| == |t.keys|
  {
    var ks := set i | 0 <= i < |t.keys| :: t.keys[i];
    assert ks == t.entries.Keys;
    CardinalityOfDistinct(t.keys);
  }

  lemma {:induction false} CardinalityOfDistinct(s: seq<string>)
    requires forall i, j :: 0 <= i < j < |s| ==> s[i] != s[j]
    ensures |set i | 0 <= i < |s| :: s[i]| == |s|
  {
    if s != [] {
      var n := |s| - 1;
      CardinalityOfDistinct(s[..n]);
      var a := set i | 0 <= i < n :: s[..n][i];
      var b := set i | 0 <= i < |s| :: s[i];
      assert b == a + {s[n]};
      assert s[n] !in a;
    }
  }
}
