/** Structured output extraction: `getOutput` and its inner `get_by_prefix`
    (common/tester.js:291-344, wasm/tester.js:191-249). */
module Output {
  import opened JsText
  import opened Outcomes
  import opened Symbols

  /** A shape descriptor as a caller passes it: a plain object (its own properties in
      enumeration order), an array, or a primitive leaf. */
  datatype Desc =
    | Obj(fields: seq<(string, Desc)>)
    | Arr(items: seq<Desc>)
    | Num(n: int)
    | Str(s: string)
    | Bool(b: bool)

  /** What `getOutput` returns: an object with the descriptor's keys, an array, or one
      witness entry (`None` where the witness has no entry at the signal's index). */
  datatype Out =
    | OObj(fields: seq<(string, Out)>)
    | OList(items: seq<Out>)
    | OLeaf(value: Option<int>)

  /** How a leaf is compared with 1: `out === 1` in common/tester.js:327,
      `out == 1` in wasm/tester.js:227. */
  datatype ScalarTest = Strict | Loose

  // ---------------------------------------------------------------- JS conversions of a descriptor

  /** `String(d)`: what a template literal or `Array.prototype.join` makes of a descriptor. */
  function DescToString(d: Desc): string
    decreases d, 1
  {
    match d
    case Num(n) => IntToString(n)
    case Str(s) => s
    case Bool(b) => if b then "true" else "false"
    case Obj(_) => "[object Object]"
    case Arr(items) => JoinItems(d, 0)
  }

  /** The items of array `d` from `i` on, each converted by `String`, separated by commas. */
  function JoinItems(d: Desc, i: nat): string
    requires d.Arr? && i <= |d.items|
    decreases d, 0, |d.items| - i
  {
    if i == |d.items| then ""
    else if i == |d.items| - 1 then DescToString(d.items[i])
    else DescToString(d.items[i]) + "," + JoinItems(d, i + 1)
  }

  /** `Number(d)`. */
  function ToNumber(d: Desc): JsNumber
  {
    match d
    case Num(n) => Int(n)
    case Str(s) => StringToNumber(s)
    case Bool(b) => Int(if b then 1 else 0)
    case Obj(_) => NaN
    case Arr(_) => StringToNumber(DescToString(d))
  }

  /** The length `Array.from({length: d})` produces: NaN and negative values give 0. */
  function ArrayLength(d: Desc): nat
  {
    match ToNumber(d)
    case Int(n) => if n > 0 then n else 0
    case NaN => 0
  }

  /** Whether a leaf descriptor is taken as a single scalar. */
  predicate IsOne(test: ScalarTest, d: Desc)
  {
    match test
    case Strict => d == Num(1)
    case Loose => ToNumber(d) == Int(1)
  }

  // ---------------------------------------------------------------- signal names

  /** `${prefix}.${k}` */
  function Member(prefix: string, k: string): string { prefix + "." + k }

  /** `${prefix}[${i}]` */
  function Element(prefix: string, i: nat): string { prefix + "[" + NatToString(i) + "]" }

  // ---------------------------------------------------------------- get_by_prefix

  /** The witness entry of the signal `name`, failing when the table does not bind it. */
  function Scalar(t: SymbolTable, w: seq<int>, name: string): (r: Result<Out>)
    ensures r.Ok? <==> name in t.entries
    ensures r.Ok? ==> r.value == OLeaf(WitnessAt(w, t.entries[name].varIdx))
    ensures r.Err? ==> r.failure == OutputNotDefined(name)
  {
    if name !in t.entries then Err(OutputNotDefined(name))
    else Ok(OLeaf(WitnessAt(w, t.entries[name].varIdx)))
  }

  /** Elements `i` to `n - 1` of a flat array of scalars `prefix[0]`, `prefix[1]`, ...:
      all of them when every element is bound, otherwise the first unbound one. */
  function Flat(t: SymbolTable, w: seq<int>, prefix: string, i: nat, n: nat): (r: Result<seq<Out>>)
    requires i <= n
    ensures r.Ok? <==> forall j :: i <= j < n ==> Element(prefix, j) in t.entries
    ensures r.Ok? ==> |r.value| == n - i && (forall j :: 0 <= j < n - i ==>
              r.value[j] == OLeaf(WitnessAt(w, t.entries[Element(prefix, i + j)].varIdx)))
    decreases n - i
  {
    if i == n then Ok([])
    else
      match Scalar(t, w, Element(prefix, i))
      case Err(f) => Err(f)
      case Ok(v) =>
        match Flat(t, w, prefix, i + 1, n)
        case Err(f) => Err(f)
        case Ok(rest) => Ok([v] + rest)
  }

  /** A flat array fails at its first unbound element, naming that element. */
  lemma {:induction false} FlatFailsAtFirstUnbound(t: SymbolTable, w: seq<int>, prefix: string, i: nat, n: nat)
    requires i <= n
    ensures Flat(t, w, prefix, i, n).Err? ==> exists j :: (i <= j < n && Element(prefix, j) !in t.entries
              && (forall m :: i <= m < j ==> Element(prefix, m) in t.entries)
              && Flat(t, w, prefix, i, n).failure == OutputNotDefined(Element(prefix, j)))
    decreases n - i
  {
    if i < n && Element(prefix, i) in t.entries {
      FlatFailsAtFirstUnbound(t, w, prefix, i + 1, n);
    }
  }

  /** `get_by_prefix(prefix, out)`. */
  function GetByPrefix(test: ScalarTest, t: SymbolTable, w: seq<int>, prefix: string, out: Desc)
    : Result<Out>
    decreases out, 2
  {
    match out
    case Obj(fields) =>
      var vs :- Fields(test, t, w, prefix, out, 0);
      Ok(OObj(vs))
    case Arr(items) =>
      if |items| == 1 then GetByPrefix(test, t, w, prefix, items[0])
      else if |items| == 0 || |items| > 2 then Err(InvalidOutputFormat(prefix, DescToString(out)))
      else
        var vs :- Repeated(test, t, w, prefix, out, 0);
        Ok(OList(vs))
    case _ =>
      if IsOne(test, out) then Scalar(t, w, prefix)
      else
        var vs :- Flat(t, w, prefix, 0, ArrayLength(out));
        Ok(OList(vs))
  }

  /** The entries of object descriptor `out` from the `i`-th on, each resolved at
      `prefix.key`, in order, stopping at the first that fails. */
  function Fields(test: ScalarTest, t: SymbolTable, w: seq<int>, prefix: string, out: Desc, i: nat)
    : Result<seq<(string, Out)>>
    requires out.Obj? && i <= |out.fields|
    decreases out, 1, |out.fields| - i
  {
    if i == |out.fields| then Ok([])
    else
      var (k, d) := out.fields[i];
      assert d < out by { assert out.fields[i] in out.fields; }
      var v :- GetByPrefix(test, t, w, Member(prefix, k), d);
      var rest :- Fields(test, t, w, prefix, out, i + 1);
      Ok([(k, v)] + rest)
  }

  /** Elements `i` on of `[n, inner]`: element `j` is `inner` resolved at `prefix[j]`. */
  function Repeated(test: ScalarTest, t: SymbolTable, w: seq<int>, prefix: string, out: Desc, i: nat)
    : Result<seq<Out>>
    requires out.Arr? && |out.items| == 2 && i <= ArrayLength(out.items[0])
    decreases out, 1, ArrayLength(out.items[0]) - i
  {
    if i == ArrayLength(out.items[0]) then Ok([])
    else
      var v :- GetByPrefix(test, t, w, Element(prefix, i), out.items[1]);
      var rest :- Repeated(test, t, w, prefix, out, i + 1);
      Ok([v] + rest)
  }

  // ---------------------------------------------------------------- the sub-component prefix

  predicate IsLineTerminator(c: char)
  {
    c == '\n' || c == '\r' || c == '\U{2028}' || c == '\U{2029}'
  }

  /** `new RegExp(`^.*${templateName}[^.]*\.[^.]+$`).test(k)`. Inside the template literal
      `\.` loses its backslash, so the pattern is `^.*T[^.]*.[^.]+$`: the middle `.` is any
      character but a line terminator, like the leading `.*`. A `$` inside the template
      name asserts the end of the input before more characters are required, so such a
      name never matches. */
  predicate PatternMatches(templateName: string, k: string)
  {
    && '$' !in templateName
    && exists a, b :: 0 <= a <= b < |k| && MatchesAt(templateName, k, a, b)
  }

  /** The pattern matches `k` with the template name at `a` and the middle `.` at `b`. */
  predicate MatchesAt(templateName: string, k: string, a: nat, b: nat)
  {
    && a + |templateName| <= b && b + 1 < |k|
    && (forall m :: 0 <= m < a ==> !IsLineTerminator(k[m]))
    && k[a..a + |templateName|] == templateName
    && (forall m :: a + |templateName| <= m < b ==> k[m] != '.')
    && !IsLineTerminator(k[b])
    && (forall m :: b < m < |k| ==> k[m] != '.')
  }

  /** `k.replace(/\.[^.]+$/, "")`: drops a final `.segment` with a non-empty segment. */
  function StripLastSegment(k: string): (r: string)
    ensures r == k || (r < k && k[|r|] == '.' && |r| + 1 < |k|
                       && forall m :: |r| < m < |k| ==> k[m] != '.')
    ensures r == k ==> forall m :: 0 <= m < |k| - 1 && k[m] == '.' ==>
                         exists m' :: m < m' < |k| && k[m'] == '.'
  {
    LastDotStrip(k, |k|)
  }

  /** Scanning `k[..j]` from its end for the last dot, with no dot in `k[j..]`. */
  function LastDotStrip(k: string, j: nat): (r: string)
    requires j <= |k| && forall m :: j <= m < |k| ==> k[m] != '.'
    ensures r == k || (r < k && k[|r|] == '.' && |r| + 1 < |k|
                       && forall m :: |r| < m < |k| ==> k[m] != '.')
    ensures r == k ==> forall m :: 0 <= m < |k| - 1 && k[m] == '.' ==>
                         exists m' :: m < m' < |k| && k[m'] == '.'
  {
    if j == 0 then k
    else if k[j - 1] == '.' then (if j < |k| then k[..j - 1] else k)
    else LastDotStrip(k, j - 1)
  }

  /** The first key, in table order, that the pattern matches, with its last segment
      stripped; "main" when none does (the `find` at common/tester.js:298-303). */
  function FindPrefix(keys: seq<string>, templateName: string): string
  {
    if keys == [] then "main"
    else if PatternMatches(templateName, keys[0]) then StripLastSegment(keys[0])
    else FindPrefix(keys[1..], templateName)
  }

  /** The prefix `getOutput` starts from. */
  function OutputPrefix(t: SymbolTable, templateName: string): string
  {
    if templateName == "main" then "main" else FindPrefix(t.keys, templateName)
  }

  // ---------------------------------------------------------------- what a result means

  /** `o` has the shape `d` asks for, whatever the table and the witness hold. */
  ghost predicate HasShape(test: ScalarTest, d: Desc, o: Out)
    decreases d
  {
    match d
    case Obj(fields) =>
      && o.OObj? && |o.fields| == |fields|
      && forall i :: 0 <= i < |fields| ==>
           && o.fields[i].0 == fields[i].0
           && (assert fields[i] in fields; HasShape(test, fields[i].1, o.fields[i].1))
    case Arr(items) =>
      if |items| == 1 then HasShape(test, items[0], o)
      else
        && |items| == 2 && o.OList? && |o.items| == ArrayLength(items[0])
        && forall i :: 0 <= i < |o.items| ==> HasShape(test, items[1], o.items[i])
    case _ =>
      if IsOne(test, d) then o.OLeaf?
      else o.OList? && |o.items| == ArrayLength(d) && forall i :: 0 <= i < |o.items| ==> o.items[i].OLeaf?
  }

  /** Every leaf of `o`, read at `prefix`, is the witness entry of a bound signal whose name
      is `prefix` extended by the leaf's position: `.key` inside objects, `[i]` inside arrays. */
  ghost predicate LeavesResolved(t: SymbolTable, w: seq<int>, prefix: string, o: Out)
    decreases o
  {
    match o
    case OLeaf(v) => prefix in t.entries && v == WitnessAt(w, t.entries[prefix].varIdx)
    case OList(items) =>
      forall i :: 0 <= i < |items| ==> LeavesResolved(t, w, Element(prefix, i), items[i])
    case OObj(fields) =>
      forall i :: 0 <= i < |fields| ==>
        (assert fields[i] in fields; LeavesResolved(t, w, Member(prefix, fields[i].0), fields[i].1))
  }

  /** A successful extraction has the descriptor's shape, and every value in it is the
      witness entry of the signal named by its path. */
  lemma {:induction false} GetByPrefixSound(test: ScalarTest, t: SymbolTable, w: seq<int>,
                                            prefix: string, d: Desc)
    ensures GetByPrefix(test, t, w, prefix, d).Ok? ==>
              && HasShape(test, d, GetByPrefix(test, t, w, prefix, d).value)
              && LeavesResolved(t, w, prefix, GetByPrefix(test, t, w, prefix, d).value)
    decreases d, 2
  {
    match d
    case Obj(fields) =>
      FieldsSound(test, t, w, prefix, d);
      if GetByPrefix(test, t, w, prefix, d).Ok? {
        assert GetByPrefix(test, t, w, prefix, d).value
            == OObj(Fields(test, t, w, prefix, d, 0).value);
      }
    case Arr(items) =>
      if |items| == 1 {
        GetByPrefixSound(test, t, w, prefix, items[0]);
      } else if |items| == 2 {
        RepeatedSound(test, t, w, prefix, d);
        if GetByPrefix(test, t, w, prefix, d).Ok? {
          assert GetByPrefix(test, t, w, prefix, d).value
              == OList(Repeated(test, t, w, prefix, d, 0).value);
        }
      }
    case _ =>
      if !IsOne(test, d) && GetByPrefix(test, t, w, prefix, d).Ok? {
        var n := ArrayLength(d);
        var vs := Flat(t, w, prefix, 0, n).value;
        assert GetByPrefix(test, t, w, prefix, d).value == OList(vs);
        forall j | 0 <= j < |vs|
          ensures vs[j].OLeaf? && LeavesResolved(t, w, Element(prefix, j), vs[j])
        {
          assert vs[j] == OLeaf(WitnessAt(w, t.entries[Element(prefix, 0 + j)].varIdx));
        }
      }
  }

  lemma FieldsSound(test: ScalarTest, t: SymbolTable, w: seq<int>, prefix: string, d: Desc)
    requires d.Obj?
    ensures Fields(test, t, w, prefix, d, 0).Ok? ==>
              var vs := Fields(test, t, w, prefix, d, 0).value;
              && |vs| == |d.fields|
              && forall j :: 0 <= j < |vs| ==>
                   && vs[j].0 == d.fields[j].0
                   && HasShape(test, d.fields[j].1, vs[j].1)
                   && LeavesResolved(t, w, Member(prefix, d.fields[j].0), vs[j].1)
    decreases d, 1
  {
    FieldsSpec(test, t, w, prefix, d, 0);
    var r := Fields(test, t, w, prefix, d, 0);
    if r.Ok? {
      forall j | 0 <= j < |r.value|
        ensures r.value[j].0 == d.fields[j].0
        ensures HasShape(test, d.fields[j].1, r.value[j].1)
        ensures LeavesResolved(t, w, Member(prefix, d.fields[j].0), r.value[j].1)
      {
        var (k, e) := d.fields[j];
        assert e < d by { assert d.fields[j] in d.fields; }
        GetByPrefixSound(test, t, w, Member(prefix, k), e);
        assert r.value[j] == (k, FieldResult(test, t, w, prefix, d, 0 + j).value);
      }
    }
  }

  lemma RepeatedSound(test: ScalarTest, t: SymbolTable, w: seq<int>, prefix: string, d: Desc)
    requires d.Arr? && |d.items| == 2
    ensures Repeated(test, t, w, prefix, d, 0).Ok? ==>
              var vs := Repeated(test, t, w, prefix, d, 0).value;
              && |vs| == ArrayLength(d.items[0])
              && forall j :: 0 <= j < |vs| ==>
                   && HasShape(test, d.items[1], vs[j])
                   && LeavesResolved(t, w, Element(prefix, j), vs[j])
    decreases d, 1
  {
    RepeatedSpec(test, t, w, prefix, d, 0);
    var r := Repeated(test, t, w, prefix, d, 0);
    if r.Ok? {
      forall j | 0 <= j < |r.value|
        ensures HasShape(test, d.items[1], r.value[j])
        ensures LeavesResolved(t, w, Element(prefix, j), r.value[j])
      {
        GetByPrefixSound(test, t, w, Element(prefix, j), d.items[1]);
        assert r.value[j] == ItemResult(test, t, w, prefix, d, 0 + j).value;
      }
    }
  }

  // ---------------------------------------------------------------- descriptor by descriptor

  /** What the `j`-th entry of object descriptor `d` resolves to at `prefix.key`. */
  function FieldResult(test: ScalarTest, t: SymbolTable, w: seq<int>, prefix: string, d: Desc, j: nat)
    : Result<Out>
    requires d.Obj? && j < |d.fields|
  {
    GetByPrefix(test, t, w, Member(prefix, d.fields[j].0), d.fields[j].1)
  }

  /** What the inner descriptor of `[n, inner]` resolves to at `prefix[j]`. */
  function ItemResult(test: ScalarTest, t: SymbolTable, w: seq<int>, prefix: string, d: Desc, j: nat)
    : Result<Out>
    requires d.Arr? && |d.items| == 2
  {
    GetByPrefix(test, t, w, Element(prefix, j), d.items[1])
  }

  lemma {:induction false} FieldsSpec(test: ScalarTest, t: SymbolTable, w: seq<int>,
                                      prefix: string, d: Desc, i: nat)
    requires d.Obj? && i <= |d.fields|
    ensures var r := Fields(test, t, w, prefix, d, i);
      && (r.Ok? <==> forall j :: i <= j < |d.fields| ==> FieldResult(test, t, w, prefix, d, j).Ok?)
      && (r.Ok? ==> |r.value| == |d.fields| - i
                    && forall j :: 0 <= j < |r.value| ==>
                         r.value[j] == (d.fields[i + j].0, FieldResult(test, t, w, prefix, d, i + j).value))
    decreases |d.fields| - i
  {
    if i < |d.fields| {
      FieldsSpec(test, t, w, prefix, d, i + 1);
      var r := Fields(test, t, w, prefix, d, i);
      var head := FieldResult(test, t, w, prefix, d, i);
      var rest := Fields(test, t, w, prefix, d, i + 1);
      if r.Ok? {
        assert r.value == [(d.fields[i].0, head.value)] + rest.value;
        forall j | 1 <= j < |r.value|
          ensures r.value[j] == (d.fields[i + j].0, FieldResult(test, t, w, prefix, d, i + j).value)
        {
          assert r.value[j] == rest.value[j - 1] && i + j == (i + 1) + (j - 1);
        }
      }
    }
  }

  lemma {:induction false} FieldsFailure(test: ScalarTest, t: SymbolTable, w: seq<int>,
                                         prefix: string, d: Desc, i: nat)
    requires d.Obj? && i <= |d.fields|
    ensures var r := Fields(test, t, w, prefix, d, i);
      r.Err? ==> exists j :: (i <= j < |d.fields| && FieldResult(test, t, w, prefix, d, j).Err?
                   && (forall m :: i <= m < j ==> FieldResult(test, t, w, prefix, d, m).Ok?)
                   && r.failure == FieldResult(test, t, w, prefix, d, j).failure)
    decreases |d.fields| - i
  {
    if i < |d.fields| {
      var r := Fields(test, t, w, prefix, d, i);
      var head := FieldResult(test, t, w, prefix, d, i);
      var rest := Fields(test, t, w, prefix, d, i + 1);
      if head.Err? {
        assert r.failure == head.failure;
      } else if rest.Err? {
        FieldsFailure(test, t, w, prefix, d, i + 1);
        assert r.failure == rest.failure;
        var j :| i + 1 <= j < |d.fields| && FieldResult(test, t, w, prefix, d, j).Err?
                 && (forall m :: i + 1 <= m < j ==> FieldResult(test, t, w, prefix, d, m).Ok?)
                 && rest.failure == FieldResult(test, t, w, prefix, d, j).failure;
        assert forall m :: i <= m < j ==> FieldResult(test, t, w, prefix, d, m).Ok?;
      }
    }
  }

  /** An object descriptor yields an object with the same keys in the same order, the value
      under each key resolved at `prefix.key`; it fails as its first failing entry does. */
  lemma ObjectDescriptor(test: ScalarTest, t: SymbolTable, w: seq<int>, prefix: string, d: Desc)
    requires d.Obj?
    ensures var r := GetByPrefix(test, t, w, prefix, d);
      && (r.Ok? <==> forall j :: 0 <= j < |d.fields| ==> FieldResult(test, t, w, prefix, d, j).Ok?)
      && (r.Ok? ==> r.value.OObj? && |r.value.fields| == |d.fields|
                    && forall j :: 0 <= j < |d.fields| ==>
                         r.value.fields[j] == (d.fields[j].0, FieldResult(test, t, w, prefix, d, j).value))
      && (r.Err? ==> exists j :: (0 <= j < |d.fields| && FieldResult(test, t, w, prefix, d, j).Err?
                       && (forall m :: 0 <= m < j ==> FieldResult(test, t, w, prefix, d, m).Ok?)
                       && r.failure == FieldResult(test, t, w, prefix, d, j).failure))
  {
    FieldsSpec(test, t, w, prefix, d, 0);
    FieldsFailure(test, t, w, prefix, d, 0);
    var r := GetByPrefix(test, t, w, prefix, d);
    if r.Ok? {
      var vs := Fields(test, t, w, prefix, d, 0).value;
      assert r.value == OObj(vs);
      forall j | 0 <= j < |d.fields|
        ensures r.value.fields[j] == (d.fields[j].0, FieldResult(test, t, w, prefix, d, j).value)
      {
        assert vs[j] == (d.fields[0 + j].0, FieldResult(test, t, w, prefix, d, 0 + j).value);
      }
    }
  }

  lemma {:induction false} RepeatedSpec(test: ScalarTest, t: SymbolTable, w: seq<int>,
                                        prefix: string, d: Desc, i: nat)
    requires d.Arr? && |d.items| == 2 && i <= ArrayLength(d.items[0])
    ensures var r := Repeated(test, t, w, prefix, d, i);
      && (r.Ok? <==> forall j :: i <= j < ArrayLength(d.items[0]) ==> ItemResult(test, t, w, prefix, d, j).Ok?)
      && (r.Ok? ==> |r.value| == ArrayLength(d.items[0]) - i
                    && forall j :: 0 <= j < |r.value| ==> r.value[j] == ItemResult(test, t, w, prefix, d, i + j).value)
    decreases ArrayLength(d.items[0]) - i
  {
    if i < ArrayLength(d.items[0]) {
      RepeatedSpec(test, t, w, prefix, d, i + 1);
      var r := Repeated(test, t, w, prefix, d, i);
      var head := ItemResult(test, t, w, prefix, d, i);
      var rest := Repeated(test, t, w, prefix, d, i + 1);
      if r.Ok? {
        assert r.value == [head.value] + rest.value;
        forall j | 1 <= j < |r.value|
          ensures r.value[j] == ItemResult(test, t, w, prefix, d, i + j).value
        {
          assert r.value[j] == rest.value[j - 1] && i + j == (i + 1) + (j - 1);
        }
      }
    }
  }

  lemma {:induction false} RepeatedFailure(test: ScalarTest, t: SymbolTable, w: seq<int>,
                                           prefix: string, d: Desc, i: nat)
    requires d.Arr? && |d.items| == 2 && i <= ArrayLength(d.items[0])
    ensures var r := Repeated(test, t, w, prefix, d, i);
      r.Err? ==> exists j :: (i <= j < ArrayLength(d.items[0]) && ItemResult(test, t, w, prefix, d, j).Err?
                   && (forall m :: i <= m < j ==> ItemResult(test, t, w, prefix, d, m).Ok?)
                   && r.failure == ItemResult(test, t, w, prefix, d, j).failure)
    decreases ArrayLength(d.items[0]) - i
  {
    if i < ArrayLength(d.items[0]) {
      var r := Repeated(test, t, w, prefix, d, i);
      var head := ItemResult(test, t, w, prefix, d, i);
      var rest := Repeated(test, t, w, prefix, d, i + 1);
      if head.Err? {
        assert r.failure == head.failure;
      } else if rest.Err? {
        RepeatedFailure(test, t, w, prefix, d, i + 1);
        assert r.failure == rest.failure;
        var j :| i + 1 <= j < ArrayLength(d.items[0]) && ItemResult(test, t, w, prefix, d, j).Err?
                 && (forall m :: i + 1 <= m < j ==> ItemResult(test, t, w, prefix, d, m).Ok?)
                 && rest.failure == ItemResult(test, t, w, prefix, d, j).failure;
        assert forall m :: i <= m < j ==> ItemResult(test, t, w, prefix, d, m).Ok?;
      }
    }
  }

  /** Array descriptors: `[x]` resolves exactly as `x`; an empty array or one of more than two
      items fails with "Invalid output format"; `[n, inner]` yields `Array.from({length: n})`
      of `inner` resolved at `prefix[0]`, `prefix[1]`, ..., failing as the first failing one. */
  lemma ArrayDescriptor(test: ScalarTest, t: SymbolTable, w: seq<int>, prefix: string, d: Desc)
    requires d.Arr?
    ensures |d.items| == 1 ==> GetByPrefix(test, t, w, prefix, d) == GetByPrefix(test, t, w, prefix, d.items[0])
    ensures |d.items| == 0 || |d.items| > 2 ==>
              GetByPrefix(test, t, w, prefix, d) == Err(InvalidOutputFormat(prefix, DescToString(d)))
    ensures |d.items| == 2 ==> var r := GetByPrefix(test, t, w, prefix, d); var n := ArrayLength(d.items[0]);
      && (r.Ok? <==> forall j :: 0 <= j < n ==> ItemResult(test, t, w, prefix, d, j).Ok?)
      && (r.Ok? ==> r.value.OList? && |r.value.items| == n
                    && forall j :: 0 <= j < n ==> r.value.items[j] == ItemResult(test, t, w, prefix, d, j).value)
      && (r.Err? ==> exists j :: (0 <= j < n && ItemResult(test, t, w, prefix, d, j).Err?
                       && (forall m :: 0 <= m < j ==> ItemResult(test, t, w, prefix, d, m).Ok?)
                       && r.failure == ItemResult(test, t, w, prefix, d, j).failure))
  {
    if |d.items| == 2 {
      RepeatedSpec(test, t, w, prefix, d, 0);
      RepeatedFailure(test, t, w, prefix, d, 0);
      var r := GetByPrefix(test, t, w, prefix, d);
      if r.Ok? {
        var vs := Repeated(test, t, w, prefix, d, 0).value;
        assert r.value == OList(vs);
        forall j | 0 <= j < |vs|
          ensures r.value.items[j] == ItemResult(test, t, w, prefix, d, j).value
        {
          assert vs[j] == ItemResult(test, t, w, prefix, d, 0 + j).value;
        }
      }
    }
  }

  /** A primitive descriptor that counts as 1 reads the signal `prefix` itself; any other
      reads the flat list `prefix[0]`, ..., `prefix[n-1]` of `Array.from({length: n})`, where a
      number `n` gives `n` elements when positive and none otherwise. */
  lemma LeafDescriptor(test: ScalarTest, t: SymbolTable, w: seq<int>, prefix: string, d: Desc)
    requires d.Num? || d.Str? || d.Bool?
    ensures d.Num? ==> ArrayLength(d) == if d.n > 0 then d.n else 0
    ensures IsOne(test, d) ==> var r := GetByPrefix(test, t, w, prefix, d);
      && (r.Ok? <==> prefix in t.entries)
      && (r.Ok? ==> r.value == OLeaf(WitnessAt(w, t.entries[prefix].varIdx)))
      && (r.Err? ==> r.failure == OutputNotDefined(prefix))
    ensures !IsOne(test, d) ==> var r := GetByPrefix(test, t, w, prefix, d); var n := ArrayLength(d);
      && (r.Ok? <==> forall j :: 0 <= j < n ==> Element(prefix, j) in t.entries)
      && (r.Ok? ==> r.value.OList? && |r.value.items| == n
                    && forall j :: 0 <= j < n ==>
                         r.value.items[j] == OLeaf(WitnessAt(w, t.entries[Element(prefix, j)].varIdx)))
      && (r.Err? ==> exists j :: (0 <= j < n && Element(prefix, j) !in t.entries
                       && (forall m :: 0 <= m < j ==> Element(prefix, m) in t.entries)
                       && r.failure == OutputNotDefined(Element(prefix, j))))
  {
    if !IsOne(test, d) {
      var r := GetByPrefix(test, t, w, prefix, d);
      FlatFailsAtFirstUnbound(t, w, prefix, 0, ArrayLength(d));
      if r.Ok? {
        var vs := Flat(t, w, prefix, 0, ArrayLength(d)).value;
        assert r.value == OList(vs);
        forall j | 0 <= j < ArrayLength(d)
          ensures r.value.items[j] == OLeaf(WitnessAt(w, t.entries[Element(prefix, j)].varIdx))
        {
          assert vs[j] == OLeaf(WitnessAt(w, t.entries[Element(prefix, 0 + j)].varIdx));
        }
      }
    }
  }

  lemma {:induction false} RepeatedOfOne(test: ScalarTest, t: SymbolTable, w: seq<int>,
                                         prefix: string, d: Desc, i: nat)
    requires (d.Num? || d.Str? || d.Bool?) && i <= ArrayLength(d)
    ensures Repeated(test, t, w, prefix, Arr([d, Num(1)]), i) == Flat(t, w, prefix, i, ArrayLength(d))
    decreases ArrayLength(d) - i
  {
    var a := Arr([d, Num(1)]);
    assert a.items[0] == d && a.items[1] == Num(1);
    if i < ArrayLength(d) {
      RepeatedOfOne(test, t, w, prefix, d, i + 1);
    }
  }

  /** `[n, 1]` and `n` describe the same flat list whenever `n` is not itself taken as 1. */
  lemma RepeatOfOneIsFlat(test: ScalarTest, t: SymbolTable, w: seq<int>, prefix: string, d: Desc)
    requires d.Num? || d.Str? || d.Bool?
    requires !IsOne(test, d)
    ensures GetByPrefix(test, t, w, prefix, Arr([d, Num(1)])) == GetByPrefix(test, t, w, prefix, d)
  {
    RepeatedOfOne(test, t, w, prefix, d, 0);
  }

  /** A descriptor built only from objects, arrays and numbers. */
  ghost predicate NumbersOnly(d: Desc)
    decreases d
  {
    match d
    case Num(_) => true
    case Str(_) => false
    case Bool(_) => false
    case Obj(fields) => forall i :: 0 <= i < |fields| ==> (assert fields[i] in fields; NumbersOnly(fields[i].1))
    case Arr(items) => forall i :: 0 <= i < |items| ==> NumbersOnly(items[i])
  }

  /** On descriptors made of objects, arrays and numbers, `out === 1` and `out == 1` agree, so
      both testers extract the same result. */
  lemma {:induction false} StrictAndLooseAgree(t: SymbolTable, w: seq<int>, prefix: string, d: Desc)
    requires NumbersOnly(d)
    ensures GetByPrefix(Strict, t, w, prefix, d) == GetByPrefix(Loose, t, w, prefix, d)
    decreases d, 2
  {
    match d
    case Obj(fields) =>
      FieldsAgree(t, w, prefix, d, 0);
    case Arr(items) =>
      if |items| == 1 {
        StrictAndLooseAgree(t, w, prefix, items[0]);
      } else if |items| == 2 {
        RepeatedAgree(t, w, prefix, d, 0);
      }
    case Num(n) =>
  }

  lemma {:induction false} FieldsAgree(t: SymbolTable, w: seq<int>, prefix: string, d: Desc, i: nat)
    requires d.Obj? && i <= |d.fields| && NumbersOnly(d)
    ensures Fields(Strict, t, w, prefix, d, i) == Fields(Loose, t, w, prefix, d, i)
    decreases d, 1, |d.fields| - i
  {
    if i < |d.fields| {
      var (k, e) := d.fields[i];
      assert e < d by { assert d.fields[i] in d.fields; }
      StrictAndLooseAgree(t, w, Member(prefix, k), e);
      FieldsAgree(t, w, prefix, d, i + 1);
    }
  }

  lemma {:induction false} RepeatedAgree(t: SymbolTable, w: seq<int>, prefix: string, d: Desc, i: nat)
    requires d.Arr? && |d.items| == 2 && i <= ArrayLength(d.items[0]) && NumbersOnly(d)
    ensures Repeated(Strict, t, w, prefix, d, i) == Repeated(Loose, t, w, prefix, d, i)
    decreases d, 1, ArrayLength(d.items[0]) - i
  {
    if i < ArrayLength(d.items[0]) {
      StrictAndLooseAgree(t, w, Element(prefix, i), d.items[1]);
      RepeatedAgree(t, w, prefix, d, i + 1);
    }
  }

  /** Where the testers part: the string "1" (or `true`) is a scalar for the loose `==`, while
      the strict `===` reads it as the length of a one-element list at `prefix[0]`. */
  lemma LooseAndStrictDisagreeOnStringOne(t: SymbolTable, w: seq<int>, prefix: string)
    ensures GetByPrefix(Loose, t, w, prefix, Str("1")) == Scalar(t, w, prefix)
    ensures GetByPrefix(Loose, t, w, prefix, Bool(true)) == Scalar(t, w, prefix)
    ensures var r := GetByPrefix(Strict, t, w, prefix, Str("1"));
      && (r.Ok? <==> Element(prefix, 0) in t.entries)
      && (r.Ok? ==> r.value == OList([OLeaf(WitnessAt(w, t.entries[Element(prefix, 0)].varIdx))]))
  {
    LooseStringOneIsScalar(t, w, prefix);
    StrictStringOneIsList(t, w, prefix);
  }

  lemma LooseStringOneIsScalar(t: SymbolTable, w: seq<int>, prefix: string)
    ensures GetByPrefix(Loose, t, w, prefix, Str("1")) == Scalar(t, w, prefix)
    ensures GetByPrefix(Loose, t, w, prefix, Bool(true)) == Scalar(t, w, prefix)
  {
    StringOneIsOne();
  }

  /** Both the string "1" and `true` convert to the number 1. */
  lemma StringOneIsOne()
    ensures IsOne(Loose, Str("1")) && IsOne(Loose, Bool(true)) && ArrayLength(Str("1")) == 1
  {
    assert IntToString(1) == "1";
    StringToNumberOfIntToString(1);
  }

  lemma StrictStringOneIsList(t: SymbolTable, w: seq<int>, prefix: string)
    ensures var r := GetByPrefix(Strict, t, w, prefix, Str("1"));
      && (r.Ok? <==> Element(prefix, 0) in t.entries)
      && (r.Ok? ==> r.value == OList([OLeaf(WitnessAt(w, t.entries[Element(prefix, 0)].varIdx))]))
  {
    StringOneIsOne();
    var r := GetByPrefix(Strict, t, w, prefix, Str("1"));
    assert r == (var vs :- Flat(t, w, prefix, 0, 1); Ok(OList(vs)));
    if r.Ok? {
      var vs := Flat(t, w, prefix, 0, 1).value;
      assert r.value == OList(vs) && |vs| == 1;
      assert vs[0] == OLeaf(WitnessAt(w, t.entries[Element(prefix, 0 + 0)].varIdx));
    }
  }

  // ---------------------------------------------------------------- the prefix lookup

  /** With no matching key the prefix stays "main". */
  lemma {:induction false} FindPrefixNoMatch(keys: seq<string>, templateName: string)
    requires forall j :: 0 <= j < |keys| ==> !PatternMatches(templateName, keys[j])
    ensures FindPrefix(keys, templateName) == "main"
  {
    if keys != [] {
      assert !PatternMatches(templateName, keys[0]);
      forall j | 0 <= j < |keys| - 1 ensures !PatternMatches(templateName, keys[1..][j]) {
        assert keys[1..][j] == keys[j + 1];
      }
      FindPrefixNoMatch(keys[1..], templateName);
    }
  }

  /** The prefix is the first key, in table order, that the pattern matches, with its last
      segment stripped. */
  lemma {:induction false} FindPrefixFirstMatch(keys: seq<string>, templateName: string, j: nat)
    requires j < |keys| && PatternMatches(templateName, keys[j])
    requires forall m :: 0 <= m < j ==> !PatternMatches(templateName, keys[m])
    ensures FindPrefix(keys, templateName) == StripLastSegment(keys[j])
  {
    if j > 0 {
      assert !PatternMatches(templateName, keys[0]);
      forall m | 0 <= m < j - 1 ensures !PatternMatches(templateName, keys[1..][m]) {
        assert keys[1..][m] == keys[m + 1];
      }
      assert keys[1..][j - 1] == keys[j];
      FindPrefixFirstMatch(keys[1..], templateName, j - 1);
    }
  }

  /** A template name holding `$` never matches, so the lookup falls back to "main". */
  lemma {:induction false} DollarNameFallsBackToMain(keys: seq<string>, templateName: string)
    requires '$' in templateName
    ensures FindPrefix(keys, templateName) == "main"
  {
    if keys != [] {
      DollarNameFallsBackToMain(keys[1..], templateName);
    }
  }

  /** A key matches when it holds the template name followed by dot-free text, any one
      character, and a non-empty dot-free tail, with no line terminator before the name. */
  lemma KeyShapeMatches(before: string, templateName: string, middle: string, c: char, tail: string)
    requires '$' !in templateName
    requires forall m :: 0 <= m < |before| ==> !IsLineTerminator(before[m])
    requires '.' !in middle && !IsLineTerminator(c) && tail != [] && '.' !in tail
    ensures PatternMatches(templateName, before + templateName + middle + [c] + tail)
  {
    var k := before + templateName + middle + [c] + tail;
    var a, b := |before|, |before| + |templateName| + |middle|;
    assert k[a..a + |templateName|] == templateName;
    assert forall m :: a + |templateName| <= m < b ==> k[m] == middle[m - a - |templateName|];
    assert k[b] == c;
    assert forall m :: b < m < |k| ==> k[m] == tail[m - b - 1];
    assert MatchesAt(templateName, k, a, b);
  }

  /** Because the middle `.` of the pattern is not escaped, a key with no dot after the
      template name matches too: "main.sqrt" is taken for template "sq", so the lookup
      stops there and returns "main" although "main.sq.out" names the sub-component. */
  lemma MiddleDotMatchesAnyCharacter()
    ensures PatternMatches("sq", "main.sqrt")
    ensures FindPrefix(["main.sqrt", "main.sq.out"], "sq") == "main"
  {
    SqMatchesSqrt();
    SqrtKeyStripsToMain();
  }

  lemma SqMatchesSqrt()
    ensures PatternMatches("sq", "main.sqrt")
  {
    KeyShapeMatches("main.", "sq", "", 'r', "t");
    assert "main." + "sq" + "" + ['r'] + "t" == "main.sqrt";
  }

  lemma SqrtKeyStripsToMain()
    ensures StripLastSegment("main.sqrt") == "main"
  {
    var k := "main.sqrt";
    assert LastDotStrip(k, 9) == LastDotStrip(k, 5);
    assert k[..4] == "main";
  }
}
