/**
 * The two pieces of JavaScript number handling the helper relies on:
 * `parseInt(s, 10)` and the `v || d` fallback applied to its result.
 *
 * A JavaScript number that is NaN is modelled as `None`; every number
 * `parseInt` can produce from a decimal digit string is an integer, modelled
 * exactly (the rounding of very long digit strings to a double is not).
 */
module JsNumber {

  datatype Option<+T> = None | Some(value: T)

  /** The characters `parseInt` skips before the number: ECMAScript's
      white space (TAB, VT, FF, SP, NBSP, ZWNBSP, the Zs category) and line
      terminators (LF, CR, LS, PS). */
  predicate IsSpace(c: char) {
    c == '\t' || c == '\n' || c == '\U{000B}' || c == '\U{000C}' || c == '\r' ||
    c == ' ' || c == '\U{00A0}' || c == '\U{1680}' ||
    ('\U{2000}' <= c <= '\U{200A}') ||
    c == '\U{2028}' || c == '\U{2029}' || c == '\U{202F}' || c == '\U{205F}' ||
    c == '\U{3000}' || c == '\U{FEFF}'
  }

  predicate IsDigit(c: char) {
    '0' <= c <= '9'
  }

  predicate AllDigits(s: string) {
    forall i :: 0 <= i < |s| ==> IsDigit(s[i])
  }

  function DigitValue(c: char): (d: nat)
    requires IsDigit(c)
    ensures d < 10
  {
    c as int - '0' as int
  }

  function DigitChar(d: nat): (c: char)
    requires d < 10
    ensures IsDigit(c) && DigitValue(c) == d
  {
    ('0' as int + d) as char
  }

  /** Drops the leading white space of `s`. */
  function TrimStart(s: string): (r: string)
    ensures |r| <= |s| && r == s[|s| - |r|..]
    ensures r == [] || !IsSpace(r[0])
  {
    if s != [] && IsSpace(s[0]) then TrimStart(s[1..]) else s
  }

  /** The longest prefix of `s` made of decimal digits. */
  function DigitPrefix(s: string): (r: string)
    ensures r <= s && AllDigits(r)
    ensures |r| == |s| || !IsDigit(s[|r|])
  {
    if s != [] && IsDigit(s[0]) then [s[0]] + DigitPrefix(s[1..]) else []
  }

  /** The value of a decimal digit string, most significant digit first. */
  function DecimalValue(ds: string): nat
    requires AllDigits(ds)
  {
    if ds == [] then 0 else DecimalValue(ds[..|ds| - 1]) * 10 + DigitValue(ds[|ds| - 1])
  }

  /** What `parseInt` does once the white space is gone: one optional sign,
      then the longest run of decimal digits; no digit at all gives NaN. */
  function ParseSigned(t: string): Option<int> {
    var negative := t != [] && t[0] == '-';
    var u := if t != [] && (t[0] == '+' || t[0] == '-') then t[1..] else t;
    var ds := DigitPrefix(u);
    if ds == [] then None
    else
      var magnitude: int := DecimalValue(ds);
      Some(if negative then -magnitude else magnitude)
  }

  /** `parseInt(s, 10)`: NaN exactly when no digit follows the white space
      and the optional sign; a negative result needs a leading `-`. */
  function ParseInt(s: string): (r: Option<int>)
    ensures var t := TrimStart(s);
            var u := if t != [] && (t[0] == '+' || t[0] == '-') then t[1..] else t;
            r.None? <==> u == [] || !IsDigit(u[0])
    ensures r.Some? && r.value < 0 ==> TrimStart(s)[0] == '-'
  {
    ParseSigned(TrimStart(s))
  }

  /** `parseInt(v, 10)` of a value that may be missing: `parseInt(undefined)`
      and `parseInt(null)` read the words "undefined"/"null" and give NaN. */
  function ParseIntOpt(s: Option<string>): (r: Option<int>)
    ensures s.None? ==> r.None?
  {
    match s
    case None => None
    case Some(text) => ParseInt(text)
  }

  /** `v || d` for a number `v`: NaN and 0 are falsy and yield `d`. */
  function OrDefault(v: Option<int>, d: int): (r: int)
    ensures (v.Some? && v.value != 0) ==> r == v.value
    ensures (v.None? || v.value == 0) ==> r == d
  {
    if v.Some? && v.value != 0 then v.value else d
  }

  /** The canonical decimal rendering of a natural number (`String(n)`). */
  function Decimal(n: nat): (s: string)
    ensures s != [] && AllDigits(s)
  {
    if n < 10 then [DigitChar(n)] else Decimal(n / 10) + [DigitChar(n % 10)]
  }

  /** `String(n)` for an integer `n`: a `-` for a negative number, then
      decimal digits only. */
  function IntToString(n: int): (r: string)
    ensures r != []
    ensures n < 0 <==> r[0] == '-'
    ensures AllDigits(if n < 0 then r[1..] else r)
  {
    if n < 0 then "-" + Decimal(-n) else Decimal(n)
  }

  lemma {:induction false} DecimalValueOfDecimal(n: nat)
    ensures DecimalValue(Decimal(n)) == n
  {
    if n >= 10 {
      var s := Decimal(n);
      assert s[..|s| - 1] == Decimal(n / 10);
      DecimalValueOfDecimal(n / 10);
    }
  }

  lemma {:induction false} DigitPrefixStopsAtNonDigit(ds: string, rest: string)
    requires AllDigits(ds)
    requires rest == [] || !IsDigit(rest[0])
    ensures DigitPrefix(ds + rest) == ds
  {
    if ds != [] {
      assert (ds + rest)[1..] == ds[1..] + rest;
      DigitPrefixStopsAtNonDigit(ds[1..], rest);
    } else {
      assert ds + rest == rest;
    }
  }

  lemma {:induction false} TrimStartSkipsSpace(ws: string, t: string)
    requires forall i :: 0 <= i < |ws| ==> IsSpace(ws[i])
    requires t == [] || !IsSpace(t[0])
    ensures TrimStart(ws + t) == t
  {
    if ws != [] {
      assert (ws + t)[1..] == ws[1..] + t;
      TrimStartSkipsSpace(ws[1..], t);
    } else {
      assert ws + t == t;
    }
  }

  /** `parseInt` reads back what `String(n)` wrote, whatever white space
      precedes it and whatever non-digit text follows it. */
  lemma ParseIntReadsIntToString(ws: string, n: int, rest: string)
    requires forall i :: 0 <= i < |ws| ==> IsSpace(ws[i])
    requires rest == [] || !IsDigit(rest[0])
    ensures ParseInt(ws + IntToString(n) + rest) == Some(n)
  {
    var t := IntToString(n) + rest;
    assert ws + IntToString(n) + rest == ws + t;
    SignedReadsIntToString(n, rest);
    TrimStartSkipsSpace(ws, t);
  }

  lemma SignedReadsIntToString(n: int, rest: string)
    requires rest == [] || !IsDigit(rest[0])
    ensures var t := IntToString(n) + rest;
            (t != [] && !IsSpace(t[0])) && ParseSigned(t) == Some(n)
  {
    if n < 0 {
      var m: nat := -n;
      assert IntToString(n) == "-" + Decimal(m);
      SignedReadsNegative(m, rest);
      MinusFirst(Decimal(m), rest);
    } else {
      SignedReadsNatural(n, rest);
    }
  }

  lemma SignedReadsNatural(n: nat, rest: string)
    requires rest == [] || !IsDigit(rest[0])
    ensures var t := Decimal(n) + rest;
            (t != [] && !IsSpace(t[0])) && ParseSigned(t) == Some(n)
  {
    var d := Decimal(n);
    DecimalValueOfDecimal(n);
    DigitPrefixStopsAtNonDigit(d, rest);
    var t := d + rest;
    assert t[0] == d[0] && IsDigit(t[0]);
  }

  lemma SignedReadsNegative(m: nat, rest: string)
    requires rest == [] || !IsDigit(rest[0])
    ensures ParseSigned("-" + Decimal(m) + rest) == Some(-(m as int))
  {
    var d := Decimal(m);
    DecimalValueOfDecimal(m);
    DigitPrefixStopsAtNonDigit(d, rest);
    MinusFirst(d, rest);
  }

  lemma MinusFirst(d: string, rest: string)
    ensures var t := "-" + d + rest;
            t[0] == '-' && t[1..] == d + rest
  {
  }

  /** A string without any decimal digit is NaN to `parseInt`. */
  lemma NoDigitIsNaN(s: string)
    requires forall i :: 0 <= i < |s| ==> !IsDigit(s[i])
    ensures ParseInt(s) == None
  {
    var t := TrimStart(s);
    var u := if t != [] && (t[0] == '+' || t[0] == '-') then t[1..] else t;
    assert u == s[|s| - |u|..];
    if u != [] {
      assert u[0] == s[|s| - |u|];
    }
  }

  /** The `nextId` written as `String(nextId)` is read back by
      `parseInt(..., 10) || 1` unchanged, unless it was 0. */
  lemma {:induction false} StoredNumberRestored(n: int)
    ensures OrDefault(ParseIntOpt(Some(IntToString(n))), 1) == (if n == 0 then 1 else n)
  {
    ParseIntOfIntToString(n);
  }

  /** `parseInt(String(n), 10)` is `n`. */
  lemma ParseIntOfIntToString(n: int)
    ensures ParseInt(IntToString(n)) == Some(n)
  {
    var t := IntToString(n);
    SignedReadsIntToString(n, []);
    assert t + [] == t;
    TrimStartSkipsSpace([], t);
    assert [] + t == t;
  }
}
