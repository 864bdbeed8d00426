/**
 * The few JavaScript value semantics the content script leans on:
 * nullable strings in boolean context (`x || y`), `parseInt(s, 10)` and
 * `String(n)` for integers.  Numbers are unbounded integers here; the
 * double-precision range of JavaScript numbers is not modelled.
 */
module JsValues {

  datatype Option<+T> = None | Some(value: T)

  /** A string-or-null in boolean context: `null` and `""` are falsy. */
  predicate Truthy(s: Option<string>) {
    s.Some? && s.value != ""
  }

  /** `a || b` on strings-or-null. */
  function Or(a: Option<string>, b: Option<string>): Option<string> {
    if Truthy(a) then a else b
  }

  /** The characters `parseInt` skips before the number: ECMAScript
      WhiteSpace and LineTerminator code points. */
  predicate IsStrWhiteSpace(c: char) {
    || c == '\t' || c == '\n' || c == '\U{B}' || c == '\U{C}' || c == '\r' || c == ' '
    || c == '\U{A0}' || c == '\U{1680}' || ('\U{2000}' <= c <= '\U{200A}')
    || c == '\U{2028}' || c == '\U{2029}' || c == '\U{202F}' || c == '\U{205F}'
    || c == '\U{3000}' || c == '\U{FEFF}'
  }

  predicate IsDigit(c: char) {
    '0' <= c <= '9'
  }

  predicate AllDigits(s: string) {
    forall i :: 0 <= i < |s| ==> IsDigit(s[i])
  }

  predicate AllWhiteSpace(s: string) {
    forall i :: 0 <= i < |s| ==> IsStrWhiteSpace(s[i])
  }

  /** Drops the leading white space, as `parseInt` does first. */
  function TrimStart(s: string): string {
    if s != [] && IsStrWhiteSpace(s[0]) then TrimStart(s[1..]) else s
  }

  /** The longest prefix of `s` made of decimal digits. */
  function DigitRun(s: string): (r: string)
    ensures AllDigits(r)
  {
    if s != [] && IsDigit(s[0]) then [s[0]] + DigitRun(s[1..]) else []
  }

  function DigitValue(c: char): nat
    requires IsDigit(c)
  {
    (c as int) - ('0' as int)
  }

  function DigitChar(d: nat): (c: char)
    requires d < 10
    ensures IsDigit(c) && DigitValue(c) == d
  {
    ['0', '1', '2', '3', '4', '5', '6', '7', '8', '9'][d]
  }

  /** The value of a string of decimal digits, most significant first. */
  function DecimalValue(ds: string): nat
    requires AllDigits(ds)
  {
    if ds == [] then 0 else DecimalValue(ds[..|ds| - 1]) * 10 + DigitValue(ds[|ds| - 1])
  }

  /**
   * `parseInt(s, 10)`: skip leading white space, take an optional sign,
   * then the longest run of decimal digits; no digits at all gives NaN,
   * modelled as `None`.  Anything after the digits is ignored.
   */
  function ParseInt(s: string): (r: Option<int>)
    ensures var t := TrimStart(s);
            var body := if t != [] && (t[0] == '-' || t[0] == '+') then t[1..] else t;
            r.None? <==> (body == [] || !IsDigit(body[0]))
  {
    ParseSigned(TrimStart(s))
  }

  /** `parseInt` after the white space: the sign, then the digits. */
  function ParseSigned(t: string): Option<int> {
    if t != [] && t[0] == '-' then
      match ParseDigits(t[1..])
      case None => None
      case Some(m) => Some(-(m as int))
    else if t != [] && t[0] == '+' then ParseDigits(t[1..])
    else ParseDigits(t)
  }

  /** The value of the leading run of digits, or NaN when there is none. */
  function ParseDigits(s: string): Option<nat> {
    var ds := DigitRun(s);
    if ds == [] then None else Some(DecimalValue(ds))
  }

  /** The decimal numeral of a natural number, without leading zeros. */
  function NatToDecimal(n: nat): (r: string)
    ensures r != [] && AllDigits(r)
    ensures DecimalValue(r) == n
    ensures |r| > 1 ==> r[0] != '0'
    decreases n
  {
    if n < 10 then [DigitChar(n)]
    else
      var r := NatToDecimal(n / 10) + [DigitChar(n % 10)];
      assert r[..|r| - 1] == NatToDecimal(n / 10);
      r
  }

  /** `String(n)` for an integer `n`. */
  function IntToString(n: int): (r: string)
    ensures r != [] && (r[0] == '-' || IsDigit(r[0]))
  {
    if n < 0 then "-" + NatToDecimal(-n) else NatToDecimal(n)
  }

  lemma {:induction false} TrimStartPast(ws: string, t: string)
    requires AllWhiteSpace(ws)
    requires t != [] && !IsStrWhiteSpace(t[0])
    ensures TrimStart(ws + t) == t
    decreases |ws|
  {
    if ws != [] {
      assert (ws + t)[1..] == ws[1..] + t;
      TrimStartPast(ws[1..], t);
    } else {
      assert ws + t == t;
    }
  }

  lemma {:induction false} DigitRunStopsAt(ds: string, rest: string)
    requires AllDigits(ds)
    requires rest == [] || !IsDigit(rest[0])
    ensures DigitRun(ds + rest) == ds
    decreases |ds|
  {
    if ds != [] {
      assert (ds + rest)[1..] == ds[1..] + rest;
      DigitRunStopsAt(ds[1..], rest);
    } else {
      assert ds + rest == rest;
    }
  }

  lemma ParseSignedUnsigned(ds: string, rest: string)
    requires ds != [] && AllDigits(ds)
    requires rest == [] || !IsDigit(rest[0])
    ensures ParseSigned(ds + rest) == Some(DecimalValue(ds))
  {
    DigitRunStopsAt(ds, rest);
    assert (ds + rest)[0] == ds[0];
  }

  lemma ParseSignedNegative(ds: string, rest: string)
    requires ds != [] && AllDigits(ds)
    requires rest == [] || !IsDigit(rest[0])
    ensures ParseSigned("-" + ds + rest) == Some(-(DecimalValue(ds) as int))
  {
    var t := "-" + ds + rest;
    assert t[0] == '-' && t[1..] == ds + rest;
    DigitRunStopsAt(ds, rest);
  }

  lemma ParseSignedPositive(ds: string, rest: string)
    requires ds != [] && AllDigits(ds)
    requires rest == [] || !IsDigit(rest[0])
    ensures ParseSigned("+" + ds + rest) == Some(DecimalValue(ds))
  {
    var t := "+" + ds + rest;
    assert t[0] == '+' && t[1..] == ds + rest;
    DigitRunStopsAt(ds, rest);
  }

  /** An explicit plus sign is accepted: `parseInt("+5") == 5`. */
  lemma PlusFiveIsFive()
    ensures ParseInt("+5") == Some(5)
  {
    ParseSignedPositive("5", "");
    assert "+" + "5" + "" == "+5";
    assert DecimalValue("5") == 5 by {
      assert "5"[..0] == "";
    }
  }

  lemma ParseSignedReadsIntToString(n: int, rest: string)
    requires rest == [] || !IsDigit(rest[0])
    ensures ParseSigned(IntToString(n) + rest) == Some(n)
  {
    if n < 0 {
      ParseSignedNegative(NatToDecimal(-n), rest);
    } else {
      ParseSignedUnsigned(NatToDecimal(n), rest);
    }
  }

  /**
   * `parseInt` reads back what `String` wrote, even with white space in
   * front and any non-digit text behind it.
   */
  lemma ParseIntReadsIntToString(ws: string, n: int, rest: string)
    requires AllWhiteSpace(ws)
    requires rest == [] || !IsDigit(rest[0])
    ensures ParseInt(ws + IntToString(n) + rest) == Some(n)
  {
    var t := IntToString(n) + rest;
    assert ws + IntToString(n) + rest == ws + t;
    assert t[0] == '-' || IsDigit(t[0]);
    TrimStartPast(ws, t);
    ParseSignedReadsIntToString(n, rest);
  }

  /** The plain round trip: `parseInt(String(n), 10) == n`. */
  lemma ParseIntOfIntToString(n: int)
    ensures ParseInt(IntToString(n)) == Some(n)
  {
    ParseIntReadsIntToString([], n, []);
    assert [] + IntToString(n) + [] == IntToString(n);
  }
}
