/** PHP value semantics the client relies on: the values json_decode($text, true)
    produces, `empty()`, the `(string)` and `(int)` casts, and the `??` / `isset`
    lookup on decoded arrays. */
module PhpValues {
  import opened Wrappers

  /** A value decoded by json_decode with associative arrays: JSON objects
      become string-keyed arrays (Obj), JSON lists become integer-keyed
      arrays (Arr). Floats are not modelled. */
  datatype Json =
    | Null
    | Bool(b: bool)
    | Int(i: int)
    | Str(s: string)
    | Arr(items: seq<Json>)
    | Obj(fields: map<string, Json>)

  /** `empty($s)` for a string: only "" and "0" are empty. */
  predicate IsEmptyString(s: string) {
    s == "" || s == "0"
  }

  /** `empty($v)`: null, false, 0, "", "0" and the empty array. */
  predicate Empty(v: Json) {
    match v
    case Null => true
    case Bool(b) => !b
    case Int(i) => i == 0
    case Str(s) => IsEmptyString(s)
    case Arr(items) => |items| == 0
    case Obj(fields) => |fields| == 0
  }

  /** The boolean a value converts to in `||`, `!` and `if`. */
  predicate Truthy(v: Json) {
    !Empty(v)
  }

  /** `$v[$key] ?? ...` and `isset($v[$key])` for a non-numeric string key:
      only an array holding a non-null value under that key yields one.
      Strings, numbers, booleans and null yield nothing and raise nothing. */
  function Field(v: Json, key: string): Option<Json> {
    match v
    case Obj(fields) => if key in fields && fields[key] != Null then Some(fields[key]) else None
    case _ => None
  }

  /** `$v[$outer][$inner] ?? ...`: the nested lookup short-circuits on any
      missing or null level. */
  function Field2(v: Json, outer: string, inner: string): Option<Json> {
    match Field(v, outer)
    case None => None
    case Some(w) => Field(w, inner)
  }

  // ---------------------------------------------------------------------------
  // Decimal digits

  predicate IsDigit(c: char) {
    '0' <= c <= '9'
  }

  predicate AllDigits(s: string) {
    forall k :: 0 <= k < |s| ==> IsDigit(s[k])
  }

  function DigitChar(d: nat): (c: char)
    requires d < 10
    ensures IsDigit(c)
  {
    (d + '0' as int) as char
  }

  function DigitValue(c: char): (d: nat)
    requires IsDigit(c)
    ensures d < 10
  {
    c as int - '0' as int
  }

  /** The decimal spelling of a natural number, without leading zeros. */
  function NatToDecimal(n: nat): (r: string)
    ensures |r| > 0 && AllDigits(r)
    ensures r[0] == '0' <==> n == 0
    ensures r == "0" <==> n == 0
    decreases n
  {
    if n < 10 then [DigitChar(n)] else NatToDecimal(n / 10) + [DigitChar(n % 10)]
  }

  /** `(string)$i` for an integer. */
  function IntToDecimal(i: int): (r: string)
    ensures |r| > 0
    ensures IsEmptyString(r) <==> i == 0
  {
    if i < 0 then "-" + NatToDecimal(-i) else NatToDecimal(i)
  }

  /** The number a string of digits spells, most significant digit first. */
  function DigitsValue(s: string): nat
    requires AllDigits(s)
    decreases |s|
  {
    if |s| == 0 then 0 else DigitsValue(s[..|s| - 1]) * 10 + DigitValue(s[|s| - 1])
  }

  /** The longest run of digits at the start of `s`. */
  function DigitPrefix(s: string): (r: string)
    ensures |r| <= |s| && r == s[..|r|]
    ensures AllDigits(r)
    ensures |r| < |s| ==> !IsDigit(s[|r|])
    decreases |s|
  {
    if |s| > 0 && IsDigit(s[0]) then [s[0]] + DigitPrefix(s[1..]) else ""
  }

  /** The whitespace PHP skips before a number: space, \t, \n, \r, \v, \f. */
  predicate IsNumericSpace(c: char) {
    c == ' ' || c == '\t' || c == '\n' || c == '\r' || c == '\U{B}' || c == '\U{C}'
  }

  function SkipSpace(s: string): (r: string)
    ensures |r| <= |s| && r == s[|s| - |r|..]
    ensures |r| > 0 ==> !IsNumericSpace(r[0])
    ensures forall k :: 0 <= k < |s| - |r| ==> IsNumericSpace(s[k])
    decreases |s|
  {
    if |s| > 0 && IsNumericSpace(s[0]) then SkipSpace(s[1..]) else s
  }

  /** `(int)$s` for a string: leading whitespace, an optional sign and the
      longest run of digits after it; a string that does not start that way is 0. */
  function LeadingInt(s: string): int {
    var t := SkipSpace(s);
    if |t| > 0 && t[0] == '-' then 0 - DigitsValue(DigitPrefix(t[1..])) as int
    else if |t| > 0 && t[0] == '+' then DigitsValue(DigitPrefix(t[1..]))
    else DigitsValue(DigitPrefix(t))
  }

  // ---------------------------------------------------------------------------
  // Casts

  /** `(string)$v`. An array converts to "Array" (PHP only warns). */
  function ToStr(v: Json): string {
    match v
    case Null => ""
    case Bool(b) => if b then "1" else ""
    case Int(i) => IntToDecimal(i)
    case Str(s) => s
    case Arr(_) => "Array"
    case Obj(_) => "Array"
  }

  /** `(int)$v`. An array converts to 0 when empty and to 1 otherwise. */
  function ToInt(v: Json): int {
    match v
    case Null => 0
    case Bool(b) => if b then 1 else 0
    case Int(i) => i
    case Str(s) => LeadingInt(s)
    case Arr(items) => if |items| == 0 then 0 else 1
    case Obj(fields) => if |fields| == 0 then 0 else 1
  }

  // ---------------------------------------------------------------------------
  // Lemmas

  /** Reading back the decimal spelling of n gives n. */
  lemma {:induction false} NatDecimalRoundTrip(n: nat)
    ensures DigitsValue(NatToDecimal(n)) == n
    decreases n
  {
    if n >= 10 {
      NatDecimalRoundTrip(n / 10);
      var s := NatToDecimal(n / 10);
      var t := s + [DigitChar(n % 10)];
      assert t[..|t| - 1] == s;
    }
  }

  /** A string made only of digits is its own digit prefix. */
  lemma {:induction false} DigitPrefixOfDigits(s: string, rest: string)
    requires AllDigits(s)
    requires |rest| == 0 || !IsDigit(rest[0])
    ensures DigitPrefix(s + rest) == s
    decreases |s|
  {
    if |s| > 0 {
      assert (s + rest)[1..] == s[1..] + rest;
      DigitPrefixOfDigits(s[1..], rest);
      assert [s[0]] + s[1..] == s;
    } else {
      assert s + rest == rest;
    }
  }

  /** `(int)(string)$i == $i`: the two casts are inverse on integers. */
  lemma IntCastRoundTrip(i: int)
    ensures ToInt(Str(ToStr(Int(i)))) == i
  {
    var n: nat := if i < 0 then -i else i;
    NatDecimalRoundTrip(n);
    if i < 0 {
      LeadingIntOfNegated(NatToDecimal(n));
    } else {
      LeadingIntOfDigits(NatToDecimal(n));
    }
  }

  /** A digit string casts to the number it spells ... */
  lemma LeadingIntOfDigits(d: string)
    requires |d| > 0 && AllDigits(d)
    ensures LeadingInt(d) == DigitsValue(d)
  {
    DigitPrefixOfAllDigits(d);
    SkipSpaceStops(d);
    assert !(d[0] == '-' || d[0] == '+');
  }

  /** ... and so does one with a minus sign in front, negated. */
  lemma LeadingIntOfNegated(d: string)
    requires |d| > 0 && AllDigits(d)
    ensures LeadingInt("-" + d) == 0 - DigitsValue(d) as int
  {
    DigitPrefixOfAllDigits(d);
    var s := "-" + d;
    SkipSpaceStops(s);
    assert s[1..] == d;
  }

  lemma DigitPrefixOfAllDigits(d: string)
    requires AllDigits(d)
    ensures DigitPrefix(d) == d
  {
    DigitPrefixOfDigits(d, "");
    assert d + "" == d;
  }

  /** Nothing is skipped before a character that is not whitespace. */
  lemma SkipSpaceStops(s: string)
    requires |s| > 0 && !IsNumericSpace(s[0])
    ensures SkipSpace(s) == s
  {
  }

  /** `empty((string)$v)` holds exactly for the empty scalars: null, false,
      0, "" and "0". Arrays, even empty ones, become the non-empty "Array". */
  lemma StrCastEmpty(v: Json)
    ensures IsEmptyString(ToStr(v)) <==> Empty(v) && !v.Arr? && !v.Obj?
  {
  }

  /** A non-zero `(int)` cast comes only from a non-empty value. */
  lemma IntCastNonZeroIsTruthy(v: Json)
    ensures ToInt(v) != 0 ==> Truthy(v)
  {
    if v.Str? {
      LeadingIntNonZero(v.s);
    }
  }

  /** "" and "0" both cast to 0. */
  lemma LeadingIntNonZero(s: string)
    ensures IsEmptyString(s) ==> LeadingInt(s) == 0
  {
    if s == "0" {
      LeadingIntOfZero();
    } else if s == "" {
      assert SkipSpace(s) == "" && DigitPrefix("") == "";
    }
  }

  /** "0" casts to 0. */
  lemma LeadingIntOfZero()
    ensures LeadingInt("0") == 0
  {
    assert SkipSpace("0") == "0";
    DigitPrefixOfDigits("0", "");
    assert "0" + "" == "0";
    assert DigitsValue("0") == DigitsValue("") * 10 + DigitValue('0');
  }
}
