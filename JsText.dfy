/** The pieces of JavaScript string and number semantics that the tester relies on:
    `String.prototype.split` with a one-character separator, `Array.prototype.join`,
    the decimal `toString` of a BigInt, `Number(string)` and `parseInt(string, 10)`. */
module JsText {

  /** A JavaScript number, as far as this model needs one: an integer, or NaN. */
  datatype JsNumber = Int(value: int) | NaN

  /** Number of occurrences of `c` in `s`. */
  function Count(s: string, c: char): nat
  {
    if s == [] then 0 else (if s[0] == c then 1 else 0) + Count(s[1..], c)
  }

  /** `s.split(sep)` for a one-character separator: the maximal runs between separators,
      including empty ones; the empty string splits into one empty piece. */
  function Split(s: string, sep: char): (r: seq<string>)
    ensures |r| == Count(s, sep) + 1
    ensures forall i :: 0 <= i < |r| ==> sep !in r[i]
  {
    if s == [] then [""]
    else
      var rest := Split(s[1..], sep);
      if s[0] == sep then [""] + rest
      else [[s[0]] + rest[0]] + rest[1..]
  }

  /** A character absent from a string is absent from each of its pieces. */
  lemma {:induction false} SplitKeepsOut(s: string, sep: char, c: char)
    requires c !in s
    ensures forall i :: 0 <= i < |Split(s, sep)| ==> c !in Split(s, sep)[i]
  {
    if s != [] {
      SplitKeepsOut(s[1..], sep, c);
    }
  }

  /** `parts.join(sep)`. */
  function Join(parts: seq<string>, sep: char): string
  {
    if |parts| == 0 then ""
    else if |parts| == 1 then parts[0]
    else parts[0] + [sep] + Join(parts[1..], sep)
  }

  /** Joining the pieces of a split gives back the string that was split. */
  lemma {:induction false} JoinSplit(s: string, sep: char)
    ensures Join(Split(s, sep), sep) == s
  {
    if s != [] {
      var rest := Split(s[1..], sep);
      JoinSplit(s[1..], sep);
      if s[0] == sep {
        assert Split(s, sep) == [""] + rest;
        JoinEmptyFirst(rest, sep);
      } else {
        assert Split(s, sep) == [[s[0]] + rest[0]] + rest[1..];
        JoinExtendFirst(s[0], rest, sep);
      }
      assert s == [s[0]] + s[1..];
    }
  }

  lemma JoinEmptyFirst(parts: seq<string>, sep: char)
    requires |parts| >= 1
    ensures Join([""] + parts, sep) == [sep] + Join(parts, sep)
  {
    assert ([""] + parts)[1..] == parts;
  }

  lemma JoinExtendFirst(c: char, parts: seq<string>, sep: char)
    requires |parts| >= 1
    ensures Join([[c] + parts[0]] + parts[1..], sep) == [c] + Join(parts, sep)
  {
    var r := [[c] + parts[0]] + parts[1..];
    if |parts| > 1 {
      assert r[1..] == parts[1..];
    }
  }

  lemma {:induction false} SplitWithoutSeparator(x: string, sep: char)
    requires sep !in x
    ensures Split(x, sep) == [x]
  {
    if x != [] {
      SplitWithoutSeparator(x[1..], sep);
      assert [x[0]] + x[1..] == x;
    }
  }

  lemma {:induction false} SplitAtFirstSeparator(x: string, sep: char, y: string)
    requires sep !in x
    ensures Split(x + [sep] + y, sep) == [x] + Split(y, sep)
  {
    if x == [] {
      assert x + [sep] + y == [sep] + y;
      assert ([sep] + y)[1..] == y;
    } else {
      var s := x + [sep] + y;
      assert s[0] == x[0];
      assert s[1..] == x[1..] + [sep] + y;
      SplitAtFirstSeparator(x[1..], sep, y);
      assert [x[0]] + x[1..] == x;
    }
  }

  /** Splitting a join of separator-free pieces gives back the pieces. */
  lemma {:induction false} SplitJoin(parts: seq<string>, sep: char)
    requires |parts| >= 1
    requires forall i :: 0 <= i < |parts| ==> sep !in parts[i]
    ensures Split(Join(parts, sep), sep) == parts
  {
    if |parts| == 1 {
      SplitWithoutSeparator(parts[0], sep);
    } else {
      SplitJoin(parts[1..], sep);
      SplitAtFirstSeparator(parts[0], sep, Join(parts[1..], sep));
      assert [parts[0]] + parts[1..] == parts;
    }
  }

  /** A joined string contains the separator only where it was put between pieces. */
  lemma {:induction false} JoinContains(parts: seq<string>, sep: char, c: char)
    requires c != sep
    requires forall i :: 0 <= i < |parts| ==> c !in parts[i]
    ensures c !in Join(parts, sep)
  {
    if |parts| > 1 {
      JoinContains(parts[1..], sep, c);
    }
  }

  /** A final empty piece joins as a final separator. */
  lemma {:induction false} JoinThenEmpty(parts: seq<string>, sep: char)
    requires |parts| >= 1
    ensures Join(parts + [""], sep) == Join(parts, sep) + [sep]
  {
    if |parts| > 1 {
      assert (parts + [""])[1..] == parts[1..] + [""];
      JoinThenEmpty(parts[1..], sep);
    } else {
      assert (parts + [""])[1..] == [""];
    }
  }

  // ---------------------------------------------------------------- decimal digits

  predicate IsDigit(c: char) { '0' <= c <= '9' }

  predicate AllDigits(s: string) { forall i :: 0 <= i < |s| ==> IsDigit(s[i]) }

  function DigitChar(d: nat): (c: char)
    requires d < 10
    ensures IsDigit(c) && c as int - '0' as int == d
  {
    ('0' as int + d) as char
  }

  /** The value of a string of decimal digits, most significant first. */
  function DigitsValue(s: string): nat
    requires AllDigits(s)
  {
    if s == [] then 0
    else DigitsValue(s[..|s| - 1]) * 10 + (s[|s| - 1] as int - '0' as int)
  }

  /** The shortest decimal numeral of `n`, as BigInt's and Number's `toString` write it. */
  function NatToString(n: nat): (r: string)
    ensures |r| >= 1 && AllDigits(r)
    ensures |r| > 1 ==> r[0] != '0'
  {
    if n < 10 then [DigitChar(n)] else NatToString(n / 10) + [DigitChar(n % 10)]
  }

  /** `toString()` of an integer-valued BigInt or Number. */
  function IntToString(i: int): (r: string)
    ensures |r| >= 1
  {
    if i < 0 then "-" + NatToString(-i) else NatToString(i)
  }

  /** Reading back a numeral gives the number that was written. */
  lemma {:induction false} DigitsValueOfNatToString(n: nat)
    ensures DigitsValue(NatToString(n)) == n
  {
    if n >= 10 {
      DigitsValueOfNatToString(n / 10);
      var s := NatToString(n);
      assert s[..|s| - 1] == NatToString(n / 10);
    }
  }

  lemma NatToStringInjective(a: nat, b: nat)
    requires NatToString(a) == NatToString(b)
    ensures a == b
  {
    DigitsValueOfNatToString(a);
    DigitsValueOfNatToString(b);
  }

  /** Two integers have the same decimal text only if they are equal, so comparing
      `toString` results compares values. */
  lemma IntToStringInjective(i: int, j: int)
    ensures IntToString(i) == IntToString(j) <==> i == j
  {
    var si, sj := IntToString(i), IntToString(j);
    if si == sj {
      if i < 0 {
        assert si[0] == '-';
        assert sj[0] == '-' <==> j < 0;
        assert si[1..] == NatToString(-i) && sj[1..] == NatToString(-j);
        NatToStringInjective(-i, -j);
      } else {
        assert IsDigit(si[0]);
        assert sj[0] == '-' <==> j < 0;
        NatToStringInjective(i, j);
      }
    }
  }

  // ---------------------------------------------------------------- Number() and parseInt()

  /** The characters JavaScript strips around a numeric string: WhiteSpace and
      LineTerminator of section 12.2 and 12.3 of ECMA-262. */
  predicate IsJsSpace(c: char)
  {
    c == '\t' || c == '\n' || c == '\U{000B}' || c == '\U{000C}' || c == '\r' || c == ' '
    || c == '\U{00A0}' || c == '\U{1680}' || ('\U{2000}' <= c <= '\U{200A}')
    || c == '\U{2028}' || c == '\U{2029}' || c == '\U{202F}' || c == '\U{205F}'
    || c == '\U{3000}' || c == '\U{FEFF}'
  }

  /** `s` without its leading white space. */
  function TrimStart(s: string): string
  {
    if s != [] && IsJsSpace(s[0]) then TrimStart(s[1..]) else s
  }

  /** `s` without its trailing white space. */
  function TrimEnd(s: string): string
  {
    if s != [] && IsJsSpace(s[|s| - 1]) then TrimEnd(s[..|s| - 1]) else s
  }

  /** `Number(s)` for the numeric strings a symbol listing holds: surrounding white space is
      ignored, a blank string is 0, an optionally signed run of decimal digits is its value,
      and anything else is NaN. */
  function StringToNumber(s: string): JsNumber
  {
    TrimmedToNumber(TrimEnd(TrimStart(s)))
  }

  /** `Number` of a string with nothing left to trim. */
  function TrimmedToNumber(t: string): JsNumber
  {
    if t == [] then Int(0)
    else if AllDigits(t) then Int(DigitsValue(t))
    else if (t[0] == '+' || t[0] == '-') && |t| > 1 && AllDigits(t[1..]) then
      Int(if t[0] == '-' then 0 - DigitsValue(t[1..]) else DigitsValue(t[1..]))
    else NaN
  }

  /** The longest prefix of `s` made of decimal digits. */
  function LeadingDigits(s: string): (r: string)
    ensures r <= s && AllDigits(r)
    ensures |r| < |s| ==> !IsDigit(s[|r|])
  {
    if s != [] && IsDigit(s[0]) then [s[0]] + LeadingDigits(s[1..]) else ""
  }

  /** `parseInt(s, 10)`: leading white space is skipped, one sign is read, then as many
      decimal digits as follow; without any digit the result is NaN. */
  function ParseInt(s: string): JsNumber
  {
    var t := TrimStart(s);
    var negative := t != [] && t[0] == '-';
    var body := if t != [] && (t[0] == '-' || t[0] == '+') then t[1..] else t;
    var digits := LeadingDigits(body);
    if digits == [] then NaN
    else Int(if negative then 0 - DigitsValue(digits) else DigitsValue(digits))
  }

  lemma {:induction false} LeadingDigitsOfDigits(s: string)
    requires AllDigits(s)
    ensures LeadingDigits(s) == s
  {
    if s != [] {
      LeadingDigitsOfDigits(s[1..]);
    }
  }

  /** `parseInt` reads back what `toString` writes. */
  lemma ParseIntOfNatToString(n: nat)
    ensures ParseInt(NatToString(n)) == Int(n)
  {
    var s := NatToString(n);
    assert IsDigit(s[0]) && !IsJsSpace(s[0]);
    assert TrimStart(s) == s;
    assert s[0] != '-' && s[0] != '+';
    LeadingDigitsOfDigits(s);
    DigitsValueOfNatToString(n);
  }

  /** A numeral holds only digits, so neither separator of a symbol listing. */
  lemma NumeralHasNoSeparator(n: nat)
    ensures ',' !in NatToString(n) && '\n' !in NatToString(n)
  {
    var s := NatToString(n);
    assert forall i :: 0 <= i < |s| ==> IsDigit(s[i]);
  }

  /** `Number` reads back what `toString` writes for a natural. */
  lemma StringToNumberOfNatToString(n: nat)
    ensures StringToNumber(NatToString(n)) == Int(n)
  {
    StringToNumberOfIntToString(n);
    assert IntToString(n) == NatToString(n);
  }

  /** A numeral has no surrounding white space to trim. */
  lemma NumeralIsTrimmed(i: int)
    ensures TrimEnd(TrimStart(IntToString(i))) == IntToString(i)
  {
    var s := IntToString(i);
    assert !IsJsSpace(s[0]);
    assert TrimStart(s) == s;
    assert !IsJsSpace(s[|s| - 1]);
  }

  /** `Number` reads back what `toString` writes. */
  lemma StringToNumberOfIntToString(i: int)
    ensures StringToNumber(IntToString(i)) == Int(i)
  {
    NumeralIsTrimmed(i);
    NumberOfTrimmed(IntToString(i));
    NumeralToNumber(i);
  }

  lemma NumeralToNumber(i: int)
    ensures TrimmedToNumber(IntToString(i)) == Int(i)
  {
    if i < 0 {
      NegativeNumeral(i);
    } else {
      NonNegativeNumeral(i);
    }
  }

  lemma NumberOfTrimmed(s: string)
    requires TrimEnd(TrimStart(s)) == s
    ensures StringToNumber(s) == TrimmedToNumber(s)
  {
  }

  lemma NonNegativeNumeral(i: int)
    requires i >= 0
    ensures TrimmedToNumber(IntToString(i)) == Int(i)
  {
    DigitsValueOfNatToString(i);
  }

  /** `"-" + digits` is signed, not all digits, and its digits spell `-i`. */
  lemma NegativeNumeral(i: int)
    requires i < 0
    ensures TrimmedToNumber(IntToString(i)) == Int(i)
  {
    var s := IntToString(i);
    assert s[1..] == NatToString(-i);
    assert !IsDigit(s[0]);
    DigitsValueOfNatToString(-i);
  }
}
