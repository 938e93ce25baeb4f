/** Structural assertion: `assertOut` and its inner `checkObject`
    (common/tester.js:246-273, wasm/tester.js:148-173). */
module Assertion {
  import opened JsText
  import opened Outcomes
  import opened Symbols
  import opened Output

  /** An expected value as a caller passes it: an array, a plain object (own enumerable keys
      in enumeration order), or any other value, of which only its `toString()` is used. */
  datatype Expected =
    | EArr(items: seq<Expected>)
    | EObj(fields: seq<(string, Expected)>)
    | ELeaf(text: string)

  /** An integer literal as a caller writes it (a Number or a BigInt). */
  function ENum(n: int): Expected { ELeaf(IntToString(n)) }

  /** The leaf at `name` holds: the signal is bound, the witness has an entry at its index,
      and that entry's decimal text is `text`. */
  predicate LeafHolds(t: SymbolTable, w: seq<int>, name: string, text: string)
  {
    && name in t.entries
    && WitnessAt(w, t.entries[name].varIdx).Some?
    && IntToString(WitnessAt(w, t.entries[name].varIdx).value) == text
  }

  /** The leaf case of `checkObject`: an unbound name fails with "Output variable not
      defined", a missing witness entry with the TypeError of `undefined.toString()`, and
      differing texts with the assertion failure that reports both. */
  function CheckLeaf(t: SymbolTable, w: seq<int>, name: string, text: string): (r: Outcome)
    ensures r.Pass? <==> LeafHolds(t, w, name, text)
    ensures name !in t.entries ==> r == Fail(OutputNotDefined(name))
    ensures name in t.entries && WitnessAt(w, t.entries[name].varIdx).None? ==>
              r == Fail(UndefinedWitnessValue(name))
    ensures name in t.entries && WitnessAt(w, t.entries[name].varIdx).Some? && r.Fail? ==>
              r == Fail(AssertionFailed(name, text, IntToString(WitnessAt(w, t.entries[name].varIdx).value)))
  {
    if name !in t.entries then Fail(OutputNotDefined(name))
    else match WitnessAt(w, t.entries[name].varIdx)
      case None => Fail(UndefinedWitnessValue(name))
      case Some(v) =>
        if IntToString(v) == text then Pass else Fail(AssertionFailed(name, text, IntToString(v)))
  }

  /** `checkObject(prefix, eOut)`. */
  function CheckObject(t: SymbolTable, w: seq<int>, prefix: string, e: Expected): Outcome
    decreases e, 1
  {
    match e
    case EArr(items) => CheckItems(t, w, prefix, e, 0)
    case EObj(fields) => CheckFields(t, w, prefix, e, 0)
    case ELeaf(text) => CheckLeaf(t, w, prefix, text)
  }

  /** The array loop of `checkObject` from index `i` on: `prefix[i]`, `prefix[i+1]`, ... */
  function CheckItems(t: SymbolTable, w: seq<int>, prefix: string, e: Expected, i: nat): Outcome
    requires e.EArr? && i <= |e.items|
    decreases e, 0, |e.items| - i
  {
    if i == |e.items| then Pass
    else
      var r := CheckObject(t, w, Element(prefix, i), e.items[i]);
      if r.Fail? then r else CheckItems(t, w, prefix, e, i + 1)
  }

  /** The `for (let k in eOut)` loop of `checkObject` from the `i`-th key on. */
  function CheckFields(t: SymbolTable, w: seq<int>, prefix: string, e: Expected, i: nat): Outcome
    requires e.EObj? && i <= |e.fields|
    decreases e, 0, |e.fields| - i
  {
    if i == |e.fields| then Pass
    else
      var (k, v) := e.fields[i];
      assert v < e by { assert e.fields[i] in e.fields; }
      var r := CheckObject(t, w, Member(prefix, k), v);
      if r.Fail? then r else CheckFields(t, w, prefix, e, i + 1)
  }

  // ---------------------------------------------------------------- the leaves, in traversal order

  /** The leaves of `e` with their signal names, in the order `checkObject` visits them. */
  function Leaves(prefix: string, e: Expected): seq<(string, string)>
    decreases e, 1
  {
    match e
    case EArr(items) => ItemLeaves(prefix, e, 0)
    case EObj(fields) => FieldLeaves(prefix, e, 0)
    case ELeaf(text) => [(prefix, text)]
  }

  function ItemLeaves(prefix: string, e: Expected, i: nat): seq<(string, string)>
    requires e.EArr? && i <= |e.items|
    decreases e, 0, |e.items| - i
  {
    if i == |e.items| then [] else Leaves(Element(prefix, i), e.items[i]) + ItemLeaves(prefix, e, i + 1)
  }

  function FieldLeaves(prefix: string, e: Expected, i: nat): seq<(string, string)>
    requires e.EObj? && i <= |e.fields|
    decreases e, 0, |e.fields| - i
  {
    if i == |e.fields| then []
    else
      var (k, v) := e.fields[i];
      assert v < e by { assert e.fields[i] in e.fields; }
      Leaves(Member(prefix, k), v) + FieldLeaves(prefix, e, i + 1)
  }

  /** Checking a list of named leaves one after the other, stopping at the first failure. */
  function CheckLeaves(t: SymbolTable, w: seq<int>, ls: seq<(string, string)>): Outcome
  {
    if ls == [] then Pass
    else
      var r := CheckLeaf(t, w, ls[0].0, ls[0].1);
      if r.Fail? then r else CheckLeaves(t, w, ls[1..])
  }

  lemma {:induction false} CheckLeavesAppend(t: SymbolTable, w: seq<int>, a: seq<(string, string)>,
                                             b: seq<(string, string)>)
    ensures CheckLeaves(t, w, a + b) == if CheckLeaves(t, w, a).Pass? then CheckLeaves(t, w, b)
                                        else CheckLeaves(t, w, a)
  {
    if a != [] {
      assert (a + b)[0] == a[0] && (a + b)[1..] == a[1..] + b;
      CheckLeavesAppend(t, w, a[1..], b);
    } else {
      assert a + b == b;
    }
  }

  /** Checking the leaves passes iff every leaf holds; otherwise it reports the failure of
      the first leaf that does not. */
  lemma {:induction false} CheckLeavesSpec(t: SymbolTable, w: seq<int>, ls: seq<(string, string)>)
    ensures CheckLeaves(t, w, ls).Pass? <==> forall j :: 0 <= j < |ls| ==> LeafHolds(t, w, ls[j].0, ls[j].1)
    ensures CheckLeaves(t, w, ls).Fail? ==>
              exists j :: (0 <= j < |ls| && !LeafHolds(t, w, ls[j].0, ls[j].1)
                && (forall m :: 0 <= m < j ==> LeafHolds(t, w, ls[m].0, ls[m].1))
                && CheckLeaves(t, w, ls) == CheckLeaf(t, w, ls[j].0, ls[j].1))
  {
    if ls != [] {
      CheckLeavesSpec(t, w, ls[1..]);
      assert forall j :: 1 <= j < |ls| ==> ls[j] == ls[1..][j - 1];
      if LeafHolds(t, w, ls[0].0, ls[0].1) && CheckLeaves(t, w, ls[1..]).Fail? {
        var j :| 0 <= j < |ls| - 1 && !LeafHolds(t, w, ls[1..][j].0, ls[1..][j].1)
                 && (forall m :: 0 <= m < j ==> LeafHolds(t, w, ls[1..][m].0, ls[1..][m].1))
                 && CheckLeaves(t, w, ls[1..]) == CheckLeaf(t, w, ls[1..][j].0, ls[1..][j].1);
        assert ls[j + 1] == ls[1..][j];
      }
    }
  }

  /** `checkObject` is the leaf-by-leaf check of the expected value's leaves in traversal order. */
  lemma {:induction false} CheckObjectIsCheckLeaves(t: SymbolTable, w: seq<int>, prefix: string, e: Expected)
    ensures CheckObject(t, w, prefix, e) == CheckLeaves(t, w, Leaves(prefix, e))
    decreases e, 1
  {
    match e
    case EArr(items) => CheckItemsIsCheckLeaves(t, w, prefix, e, 0);
    case EObj(fields) => CheckFieldsIsCheckLeaves(t, w, prefix, e, 0);
    case ELeaf(text) =>
      assert [(prefix, text)][1..] == [];
  }

  lemma {:induction false} CheckItemsIsCheckLeaves(t: SymbolTable, w: seq<int>, prefix: string,
                                                   e: Expected, i: nat)
    requires e.EArr? && i <= |e.items|
    ensures CheckItems(t, w, prefix, e, i) == CheckLeaves(t, w, ItemLeaves(prefix, e, i))
    decreases e, 0, |e.items| - i
  {
    if i < |e.items| {
      CheckObjectIsCheckLeaves(t, w, Element(prefix, i), e.items[i]);
      CheckItemsIsCheckLeaves(t, w, prefix, e, i + 1);
      CheckLeavesAppend(t, w, Leaves(Element(prefix, i), e.items[i]), ItemLeaves(prefix, e, i + 1));
    }
  }

  lemma {:induction false} CheckFieldsIsCheckLeaves(t: SymbolTable, w: seq<int>, prefix: string,
                                                    e: Expected, i: nat)
    requires e.EObj? && i <= |e.fields|
    ensures CheckFields(t, w, prefix, e, i) == CheckLeaves(t, w, FieldLeaves(prefix, e, i))
    decreases e, 0, |e.fields| - i
  {
    if i < |e.fields| {
      var (k, v) := e.fields[i];
      assert v < e by { assert e.fields[i] in e.fields; }
      CheckObjectIsCheckLeaves(t, w, Member(prefix, k), v);
      CheckFieldsIsCheckLeaves(t, w, prefix, e, i + 1);
      CheckLeavesAppend(t, w, Leaves(Member(prefix, k), v), FieldLeaves(prefix, e, i + 1));
    }
  }

  /** `assertOut(witness, expected)` once the symbols are loaded: it passes iff every leaf of
      the expected value, at its path from "main", names a bound signal whose witness entry
      has the leaf's decimal text; otherwise it fails as the first leaf that does not. */
  lemma AssertOutSpec(t: SymbolTable, w: seq<int>, e: Expected)
    ensures var ls := Leaves("main", e);
      && (CheckObject(t, w, "main", e).Pass? <==> forall j :: 0 <= j < |ls| ==> LeafHolds(t, w, ls[j].0, ls[j].1))
      && (CheckObject(t, w, "main", e).Fail? ==>
            exists j :: (0 <= j < |ls| && !LeafHolds(t, w, ls[j].0, ls[j].1)
              && (forall m :: 0 <= m < j ==> LeafHolds(t, w, ls[m].0, ls[m].1))
              && CheckObject(t, w, "main", e) == CheckLeaf(t, w, ls[j].0, ls[j].1)))
  {
    CheckObjectIsCheckLeaves(t, w, "main", e);
    CheckLeavesSpec(t, w, Leaves("main", e));
  }

  /** An integer leaf passes exactly when the witness entry equals it: comparing decimal
      texts compares values. */
  lemma IntegerLeafPassesIffEqual(t: SymbolTable, w: seq<int>, name: string, n: int)
    requires name in t.entries && WitnessAt(w, t.entries[name].varIdx).Some?
    ensures CheckObject(t, w, name, ENum(n)).Pass? <==> WitnessAt(w, t.entries[name].varIdx).value == n
  {
    IntToStringInjective(WitnessAt(w, t.entries[name].varIdx).value, n);
  }

  // ---------------------------------------------------------------- extraction, then assertion

  /** Every leaf of an extracted output has a witness entry. */
  predicate AllDefined(o: Out)
    decreases o
  {
    match o
    case OLeaf(v) => v.Some?
    case OList(items) => forall i :: 0 <= i < |items| ==> AllDefined(items[i])
    case OObj(fields) => forall i :: 0 <= i < |fields| ==> (assert fields[i] in fields; AllDefined(fields[i].1))
  }

  /** The expected value a caller would write for an extracted output: the same arrays and
      objects, with each witness entry as its decimal literal. */
  function ToExpected(o: Out): Expected
    decreases o
  {
    match o
    case OLeaf(v) => if v.Some? then ENum(v.value) else ELeaf("undefined")
    case OList(items) => EArr(seq(|items|, i requires 0 <= i < |items| => ToExpected(items[i])))
    case OObj(fields) =>
      EObj(seq(|fields|, i requires 0 <= i < |fields| =>
        (assert fields[i] in fields; (fields[i].0, ToExpected(fields[i].1)))))
  }

  /** Asserting an output against its own literal passes when its leaves are resolved
      signals with witness entries. */
  lemma {:induction false} ResolvedOutputPasses(t: SymbolTable, w: seq<int>, prefix: string, o: Out)
    requires LeavesResolved(t, w, prefix, o) && AllDefined(o)
    ensures CheckObject(t, w, prefix, ToExpected(o)) == Pass
    decreases o, 1
  {
    match o
    case OLeaf(v) =>
    case OList(items) => ResolvedItemsPass(t, w, prefix, o, 0);
    case OObj(fields) => ResolvedFieldsPass(t, w, prefix, o, 0);
  }

  lemma {:induction false} ResolvedItemsPass(t: SymbolTable, w: seq<int>, prefix: string, o: Out, i: nat)
    requires o.OList? && i <= |o.items| && LeavesResolved(t, w, prefix, o) && AllDefined(o)
    ensures CheckItems(t, w, prefix, ToExpected(o), i) == Pass
    decreases o, 0, |o.items| - i
  {
    if i < |o.items| {
      ResolvedOutputPasses(t, w, Element(prefix, i), o.items[i]);
      ResolvedItemsPass(t, w, prefix, o, i + 1);
    }
  }

  lemma {:induction false} ResolvedFieldsPass(t: SymbolTable, w: seq<int>, prefix: string, o: Out, i: nat)
    requires o.OObj? && i <= |o.fields| && LeavesResolved(t, w, prefix, o) && AllDefined(o)
    ensures CheckFields(t, w, prefix, ToExpected(o), i) == Pass
    decreases o, 0, |o.fields| - i
  {
    if i < |o.fields| {
      assert o.fields[i] in o.fields;
      ResolvedOutputPasses(t, w, Member(prefix, o.fields[i].0), o.fields[i].1);
      ResolvedFieldsPass(t, w, prefix, o, i + 1);
    }
  }

  /** What `getOutput` extracts, written back as an expected value, passes `assertOut` at the
      same prefix whenever every extracted signal has a witness entry. */
  lemma ExtractedOutputPassesAssertion(test: ScalarTest, t: SymbolTable, w: seq<int>, prefix: string, d: Desc)
    requires GetByPrefix(test, t, w, prefix, d).Ok?
    requires AllDefined(GetByPrefix(test, t, w, prefix, d).value)
    ensures CheckObject(t, w, prefix, ToExpected(GetByPrefix(test, t, w, prefix, d).value)) == Pass
  {
    GetByPrefixSound(test, t, w, prefix, d);
    ResolvedOutputPasses(t, w, prefix, GetByPrefix(test, t, w, prefix, d).value);
  }
}
