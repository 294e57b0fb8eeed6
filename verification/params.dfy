/** Request values as the handlers receive them, the JavaScript truthiness
    test the handlers apply to them, and the integer key SQLite compares them
    as when they meet an INTEGER column. */
module Params {

  import opened Optional

  /** A request field: absent (or null), a JSON number, or a string (query
      strings and path segments are always strings). */
  datatype Param = Absent | Num(n: int) | Str(s: string)

  /** JavaScript truthiness of the value: `!x` is true for undefined, null,
      the number 0 and the empty string. */
  predicate Truthy(p: Param)
    ensures Truthy(p) <==> p !in {Absent, Num(0), Str("")}
  {
    match p
    case Absent => false
    case Num(n) => n != 0
    case Str(s) => s != ""
  }

  predicate IsDigit(c: char)
  {
    '0' <= c <= '9'
  }

  predicate AllDigits(s: string)
  {
    forall i :: 0 <= i < |s| ==> IsDigit(s[i])
  }

  /** An integer literal in the form SQLite converts to INTEGER: an optional
      minus sign followed by at least one decimal digit. */
  predicate IsNumeral(s: string)
  {
    if |s| > 0 && s[0] == '-' then |s| > 1 && AllDigits(s[1..])
    else |s| > 0 && AllDigits(s)
  }

  /** The value of a string of decimal digits. */
  function DigitsValue(s: string): (v: nat)
    requires AllDigits(s)
    ensures |s| == 0 ==> v == 0
  {
    if |s| == 0 then 0
    else DigitsValue(s[..|s| - 1]) * 10 + (s[|s| - 1] as int - '0' as int)
  }

  function NumeralValue(s: string): int
    requires IsNumeral(s)
  {
    if s[0] == '-' then -(DigitsValue(s[1..]) as int) else DigitsValue(s)
  }

  /** The range of a SQLite INTEGER: signed 64-bit. */
  const MinKey: int := -0x8000_0000_0000_0000
  const MaxKey: int := 0x7FFF_FFFF_FFFF_FFFF

  predicate InKeyRange(n: int)
  {
    MinKey <= n <= MaxKey
  }

  /** The integer row key a request value names, if any. A number names
      itself; a string names the integer it spells. A value outside the
      64-bit range stays a REAL, as does any other string, and an absent
      value is NULL: none of them matches a row of an INTEGER column. */
  function KeyOf(p: Param): (k: Option<int>)
    ensures p.Num? ==> (k.Some? <==> InKeyRange(p.n))
    ensures p.Num? && k.Some? ==> k.value == p.n
    ensures p.Absent? ==> k.None?
    ensures p.Str? ==> (k.Some? <==> IsNumeral(p.s) && InKeyRange(NumeralValue(p.s)))
    ensures p.Str? && k.Some? ==> k.value == NumeralValue(p.s)
    ensures k.Some? ==> InKeyRange(k.value)
  {
    match p
    case Absent => None
    case Num(n) => if InKeyRange(n) then Some(n) else None
    case Str(s) => if IsNumeral(s) && InKeyRange(NumeralValue(s)) then Some(NumeralValue(s)) else None
  }

  function DigitChar(d: nat): (c: char)
    requires d < 10
    ensures IsDigit(c) && c as int - '0' as int == d
  {
    ('0' as int + d) as char
  }

  /** Decimal rendering of a natural number, as JavaScript prints it. */
  function ShowNat(n: nat): (s: string)
    ensures |s| > 0 && AllDigits(s)
  {
    if n < 10 then [DigitChar(n)] else ShowNat(n / 10) + [DigitChar(n % 10)]
  }

  /** Decimal rendering of an integer, as a template literal `${id}` prints
      it when the client builds `/user/${id}` or `/history/${id}`. JavaScript
      prints this form only for magnitudes below 10^21 (beyond that it uses
      exponent notation); every 64-bit key is below. */
  function Show(n: int): string
  {
    if n < 0 then "-" + ShowNat(-n) else ShowNat(n)
  }

  lemma {:induction false} ShowNatValue(n: nat)
    ensures DigitsValue(ShowNat(n)) == n
    decreases n
  {
    if n >= 10 {
      var s := ShowNat(n / 10);
      var t := s + [DigitChar(n % 10)];
      assert t[..|t| - 1] == s;
      ShowNatValue(n / 10);
    }
  }

  /** A rendered natural number is a numeral without a sign. */
  lemma ShowNatKey(n: nat)
    ensures IsNumeral(ShowNat(n)) && ShowNat(n)[0] != '-'
    ensures NumeralValue(ShowNat(n)) == n
  {
    var s := ShowNat(n);
    assert IsDigit(s[0]);
    ShowNatValue(n);
  }

  /** Printing a numeric id and sending it back as a string names the same
      row as the number itself: the path segment `/user/${id}` reaches the
      user that `{ userId: id }` registered. */
  lemma ShowKeyRoundTrip(n: int)
    ensures KeyOf(Str(Show(n))) == KeyOf(Num(n))
    ensures InKeyRange(n) ==> KeyOf(Num(n)) == Some(n)
    ensures Truthy(Str(Show(n)))
  {
    if n < 0 {
      var s := Show(n);
      var t := ShowNat(-n);
      assert s == "-" + t && s[1..] == t;
      ShowNatValue(-n);
      assert IsNumeral(s);
    } else {
      ShowNatKey(n);
    }
  }

  /** A numeral names the integer it spells, leading zeros and sign
      included. */
  lemma NumeralKeys()
    ensures KeyOf(Str("42")) == Some(42)
    ensures KeyOf(Str("007")) == Some(7)
    ensures KeyOf(Str("-5")) == Some(-5)
  {
    assert "42"[..1] == "4" && "4"[..0] == "";
    assert "007"[..2] == "00" && "00"[..1] == "0" && "0"[..0] == "";
    assert "-5"[1..] == "5" && "5"[..0] == "";
  }

  /** The number 0 is rejected by the truthiness guards, but the string "0"
      is not. */
  lemma ZeroStringIsTruthy()
    ensures !Truthy(Num(0))
    ensures Truthy(Str(Show(0))) && KeyOf(Str(Show(0))) == Some(0)
  {
    ShowKeyRoundTrip(0);
  }
}
