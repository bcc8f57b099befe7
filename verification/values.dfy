/** ECMA-SL values and the JavaScript property keys they turn into when the
    interpreter indexes a heap or a record with a value's payload. */
module Values {
  import opened Results

  /** A heap location is identified by the string under which the heap object
      stores its record. */
  type Loc = string

  /** Field names of a record. */
  type Field = string

  /** Values produced by evaluating an expression. Numbers are modelled as
      integers. */
  datatype Value =
    | Num(n: int)
    | Str(s: string)
    | Bool(b: bool)
    | Null
    | Undefined
    | LocVal(loc: Loc)

  /** The character of the decimal digit `d`. */
  function DigitChar(d: nat): (c: char)
    requires d < 10
    ensures '0' <= c <= '9'
    ensures c as int - '0' as int == d
  {
    (d + '0' as int) as char
  }

  predicate IsDigit(c: char) {
    '0' <= c <= '9'
  }

  predicate AllDigits(s: string) {
    forall i :: 0 <= i < |s| ==> IsDigit(s[i])
  }

  /** A canonical numeral: decimal digits with no leading zero, except for
      the numeral `0` itself. */
  predicate Canonical(s: string) {
    0 < |s| && AllDigits(s) && (|s| == 1 || s[0] != '0')
  }

  /** Decimal digits of a natural number, most significant first, without
      leading zeros. */
  function NatDigits(n: nat): string
    decreases n
  {
    if n < 10 then [DigitChar(n)] else NatDigits(n / 10) + [DigitChar(n % 10)]
  }

  /** JavaScript's Number-to-String conversion restricted to integers. */
  function IntToDecimal(n: int): string {
    if n < 0 then "-" + NatDigits(-n) else NatDigits(n)
  }

  /** The number a string of decimal digits denotes (reference reading of
      `NatDigits`). */
  function DigitsValue(s: string): nat
    requires AllDigits(s)
  {
    if |s| == 0 then 0
    else DigitsValue(s[..|s| - 1]) * 10 + (s[|s| - 1] as int - '0' as int)
  }

  /** Reads back an optionally negative decimal numeral. */
  function ParseDecimal(s: string): Option<int> {
    if 1 < |s| && s[0] == '-' && AllDigits(s[1..]) then Some(-(DigitsValue(s[1..]) as int))
    else if 0 < |s| && AllDigits(s) then Some(DigitsValue(s))
    else None
  }

  /** The property key a value's payload becomes when it is used inside
      JavaScript's `[...]` indexing: strings are used as they are, a location
      by its identifier, everything else through JavaScript's ToString. */
  function Key(v: Value): (r: string)
    ensures v.Num? && v.n >= 0 ==> Canonical(r)
    ensures v.Num? && v.n < 0 ==> |r| > 1 && r[0] == '-' && Canonical(r[1..])
    ensures v.Num? ==> ParseDecimal(r) == Some(v.n)
    ensures v.Str? ==> r == v.s
    ensures v.LocVal? ==> r == v.loc
    ensures v.Bool? ==> r == (if v.b then "true" else "false")
    ensures v.Null? ==> r == "null"
    ensures v.Undefined? ==> r == "undefined"
  {
    match v
    case Num(n) => IntToDecimalShape(n); IntToDecimal(n)
    case Str(s) => s
    case Bool(b) => if b then "true" else "false"
    case Null => "null"
    case Undefined => "undefined"
    case LocVal(l) => l
  }

  lemma {:induction false} NatDigitsRoundTrip(n: nat)
    ensures 0 < |NatDigits(n)|
    ensures AllDigits(NatDigits(n))
    ensures DigitsValue(NatDigits(n)) == n
    decreases n
  {
    if n >= 10 {
      NatDigitsRoundTrip(n / 10);
      var s := NatDigits(n);
      assert s[..|s| - 1] == NatDigits(n / 10);
    }
  }

  /** Reading back the decimal rendering of an integer gives the integer. */
  lemma DecimalRoundTrip(n: int)
    ensures ParseDecimal(IntToDecimal(n)) == Some(n)
  {
    if n < 0 {
      var d := NatDigits(-n);
      NatDigitsRoundTrip(-n);
      var s := IntToDecimal(n);
      assert s == "-" + d;
      assert s[0] == '-';
      assert s[1..] == d;
    } else {
      var d := NatDigits(n);
      NatDigitsRoundTrip(n);
      assert d[0] != '-';
    }
  }

  /** The decimal rendering of a natural number is canonical, and that of
      a positive one does not start with `0`. */
  lemma {:induction false} NatDigitsCanonical(n: nat)
    ensures Canonical(NatDigits(n))
    ensures n > 0 ==> NatDigits(n)[0] != '0'
    decreases n
  {
    if n >= 10 {
      NatDigitsCanonical(n / 10);
    }
  }

  /** The shape of an integer's rendering: a canonical numeral, preceded by
      `-` when negative, that reads back as the integer. */
  lemma IntToDecimalShape(n: int)
    ensures n >= 0 ==> Canonical(IntToDecimal(n))
    ensures n < 0 ==> var r := IntToDecimal(n); |r| > 1 && r[0] == '-' && Canonical(r[1..])
    ensures ParseDecimal(IntToDecimal(n)) == Some(n)
  {
    DecimalRoundTrip(n);
    if n < 0 {
      NatDigitsCanonical(-n);
      assert IntToDecimal(n)[1..] == NatDigits(-n);
    } else {
      NatDigitsCanonical(n);
    }
  }

  /** A digit string whose first digit is not `0` denotes a positive number. */
  lemma {:induction false} PositiveLead(s: string)
    requires 0 < |s| && AllDigits(s) && s[0] != '0'
    ensures DigitsValue(s) > 0
    decreases |s|
  {
    if |s| > 1 {
      PositiveLead(s[..|s| - 1]);
    }
  }

  /** A canonical numeral is the rendering of the number it denotes. */
  lemma {:induction false} CanonicalIsNatDigits(s: string)
    requires Canonical(s)
    ensures s == NatDigits(DigitsValue(s))
    decreases |s|
  {
    if |s| > 1 {
      var init := s[..|s| - 1];
      assert Canonical(init);
      PositiveLead(init);
      CanonicalIsNatDigits(init);
      var n := DigitsValue(s);
      assert n / 10 == DigitsValue(init);
      assert s == init + [s[|s| - 1]];
    }
  }

  /** Distinct numbers index distinct properties. */
  lemma NumKeyInjective(a: int, b: int)
    ensures Key(Num(a)) == Key(Num(b)) <==> a == b
  {
  }

  /** A natural number and a string address the same property exactly when
      the string is the canonical numeral of the number: `r[7]` is `r["7"]`
      but not `r["07"]`. */
  lemma NumStrShareKey(n: nat, s: string)
    ensures Key(Num(n)) == Key(Str(s)) <==> Canonical(s) && DigitsValue(s) == n
  {
    if Key(Num(n)) == Key(Str(s)) {
      NatDigitsRoundTrip(n);
    }
    if Canonical(s) && DigitsValue(s) == n {
      CanonicalIsNatDigits(s);
    }
  }
}
