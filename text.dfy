/** Small helper datatypes shared by the other modules. */
module Optional {

  datatype Option<+T> = None | Some(value: T)
}

/**
 The Arduino `String` and C library operations the firmware relies on: `isspace`
 in the "C" locale, `String::trim`, reading a `char` buffer as a NUL-terminated
 C string, `String::indexOf`, `String::toInt` (which is `atol`) and the decimal
 rendering `String(int)`.
 */
module ArduinoText {

  /** `isspace` in the "C" locale: space, tab, newline, vertical tab, form feed, carriage return. */
  predicate IsSpace(c: char) {
    c == ' ' || '\t' <= c <= '\r'
  }

  predicate IsDigit(c: char) {
    '0' <= c <= '9'
  }

  predicate AllSpace(s: string) {
    forall i :: 0 <= i < |s| ==> IsSpace(s[i])
  }

  predicate AllDigits(s: string) {
    forall i :: 0 <= i < |s| ==> IsDigit(s[i])
  }

  function DigitValue(c: char): (d: nat)
    requires IsDigit(c)
    ensures d < 10
  {
    (c as int) - ('0' as int)
  }

  function DigitChar(d: nat): (c: char)
    requires d < 10
    ensures IsDigit(c) && DigitValue(c) == d
  {
    (('0' as int) + d) as char
  }

  /** The text `String(buf)` sees in a `char` buffer: everything before the first NUL. */
  function CString(s: string): (r: string)
    ensures r <= s
    ensures '\0' !in r
    ensures |r| < |s| ==> s[|r|] == '\0'
    ensures '\0' !in s ==> r == s
  {
    if s == [] || s[0] == '\0' then [] else [s[0]] + CString(s[1..])
  }

  /** Writing a NUL at position k bounds the C string to the first k characters. */
  lemma {:induction false} CStringUpTo(s: string, k: nat)
    requires k < |s| && s[k] == '\0'
    ensures CString(s) == CString(s[..k])
  {
    if s[0] != '\0' {
      CStringUpTo(s[1..], k - 1);
      assert s[1..][..k - 1] == s[..k][1..];
    }
  }

  /** How many `isspace` characters `s` starts with. */
  function LeadingSpaces(s: string): (n: nat)
    ensures n <= |s|
    ensures forall i :: 0 <= i < n ==> IsSpace(s[i])
    ensures n < |s| ==> !IsSpace(s[n])
  {
    if s != [] && IsSpace(s[0]) then 1 + LeadingSpaces(s[1..]) else 0
  }

  /** How many `isspace` characters `s` ends with. */
  function TrailingSpaces(s: string): (n: nat)
    ensures n <= |s|
    ensures forall i :: |s| - n <= i < |s| ==> IsSpace(s[i])
    ensures n < |s| ==> !IsSpace(s[|s| - n - 1])
  {
    if s != [] && IsSpace(s[|s| - 1]) then 1 + TrailingSpaces(s[..|s| - 1]) else 0
  }

  /** Drops leading `isspace` characters, as `atol` does before reading a number. */
  function TrimStart(s: string): (r: string)
    ensures |r| <= |s| && r == s[|s| - |r|..]
    ensures AllSpace(s[..|s| - |r|])
    ensures r == [] || !IsSpace(r[0])
  {
    s[LeadingSpaces(s)..]
  }

  /**
   `String::trim`: strip the leading `isspace` characters, then the trailing
   ones of what is left.
   */
  function Trim(s: string): (r: string)
    ensures r == [] || (!IsSpace(r[0]) && !IsSpace(r[|r| - 1]))
    ensures var k := LeadingSpaces(s);
      k + |r| <= |s| && r == s[k..k + |r|] && AllSpace(s[..k]) && AllSpace(s[k + |r|..])
  {
    var k := LeadingSpaces(s);
    var n := TrailingSpaces(s[k..]);
    s[k..|s| - n]
  }

  /** A line trims to nothing exactly when every character in it is whitespace. */
  lemma TrimEmptyIff(s: string)
    ensures Trim(s) == [] <==> AllSpace(s)
  {
    var k := LeadingSpaces(s);
    if AllSpace(s) {
      assert k == |s|;
    } else {
      var i :| 0 <= i < |s| && !IsSpace(s[i]);
      assert k < |s|;
      var t := s[k..];
      assert !IsSpace(t[0]);
      assert TrailingSpaces(t) < |t|;
    }
  }

  /** Text without surrounding whitespace is left as it is; in particular `Trim` is idempotent. */
  lemma TrimFixed(s: string)
    requires s == [] || (!IsSpace(s[0]) && !IsSpace(s[|s| - 1]))
    ensures Trim(s) == s
  {
  }

  lemma TrimIdempotent(s: string)
    ensures Trim(Trim(s)) == Trim(s)
  {
    TrimFixed(Trim(s));
  }

  /** Index of the first `c` in `s`, or -1. */
  function FirstIndex(s: string, c: char): (r: int)
    ensures -1 <= r < |s|
    ensures r >= 0 ==> s[r] == c && c !in s[..r]
    ensures r == -1 <==> c !in s
  {
    if s == [] then -1
    else if s[0] == c then 0
    else
      var k := FirstIndex(s[1..], c);
      assert s[1..][..k + 1] == s[..k + 2][1..] by { if k >= 0 { assert s[1..][..k] == s[..k + 1][1..]; } }
      if k < 0 then -1 else k + 1
  }

  /**
   `String::indexOf` with a one-character needle. It searches with `strstr` on the
   underlying C buffer, so the search ends at the first NUL.
   */
  function IndexOf(s: string, c: char): (r: int)
    requires c != '\0'
    ensures -1 <= r < |s|
    ensures r >= 0 ==> s[r] == c && c !in s[..r] && '\0' !in s[..r]
    ensures r == -1 <==> c !in CString(s)
  {
    var t := CString(s);
    var r := FirstIndex(t, c);
    assert r >= 0 ==> s[..r] == t[..r];
    r
  }

  lemma {:induction false} FirstIndexAfter(x: string, c: char, y: string)
    requires c !in x
    ensures FirstIndex(x + [c] + y, c) == |x|
  {
    if x != [] {
      assert (x + [c] + y)[1..] == x[1..] + [c] + y;
      FirstIndexAfter(x[1..], c, y);
    }
  }

  /** A NUL-free prefix is part of the C string; reading stops only in what follows. */
  lemma {:induction false} CStringAppend(x: string, rest: string)
    requires '\0' !in x
    ensures CString(x + rest) == x + CString(rest)
  {
    if x != [] {
      assert (x + rest)[0] == x[0] && x[0] != '\0';
      assert (x + rest)[1..] == x[1..] + rest;
      CStringAppend(x[1..], rest);
      assert [x[0]] + x[1..] == x;
    } else {
      assert x + rest == rest;
    }
  }

  /**
   In `x + [c] + y` with no `c` and no NUL in `x`, `indexOf` finds the `c` after
   `x`, whatever `y` holds.
   */
  lemma IndexOfAfter(x: string, c: char, y: string)
    requires c != '\0' && c !in x && '\0' !in x
    ensures IndexOf(x + [c] + y, c) == |x|
    ensures (x + [c] + y)[..|x|] == x && (x + [c] + y)[|x| + 1..] == y
  {
    var e := x + [c] + y;
    CStringAppend(x + [c], y);
    assert x + [c] + y == x + ([c] + y);
    assert CString(e) == x + [c] + CString(y);
    FirstIndexAfter(x, c, CString(y));
  }

  /** The longest prefix of decimal digits. */
  function DigitPrefix(s: string): (r: string)
    ensures r <= s && AllDigits(r)
    ensures |r| < |s| ==> !IsDigit(s[|r|])
  {
    if s != [] && IsDigit(s[0]) then [s[0]] + DigitPrefix(s[1..]) else []
  }

  /** The value of a run of decimal digits, most significant first. */
  function DigitsValue(d: string): nat
    requires AllDigits(d)
  {
    if d == [] then 0 else DigitsValue(d[..|d| - 1]) * 10 + DigitValue(d[|d| - 1])
  }

  /**
   `String::toInt`, that is `atol`: skip leading whitespace, accept one optional
   `+` or `-`, then read decimal digits up to the first non-digit. Text with no
   digits there reads as 0.
   */
  function ToInt(s: string): (r: int)
    ensures TrimStart(s) == [] ==> r == 0
    ensures r < 0 ==> TrimStart(s)[0] == '-'
  {
    var t := TrimStart(s);
    if t != [] && (t[0] == '-' || t[0] == '+') then
      var m: int := DigitsValue(DigitPrefix(t[1..]));
      if t[0] == '-' then -m else m
    else
      DigitsValue(DigitPrefix(t))
  }

  /** Decimal rendering of a natural number, without leading zeros. */
  function NatToString(n: nat): (r: string)
    ensures |r| > 0 && AllDigits(r)
    ensures r[0] == '0' ==> n == 0
  {
    if n < 10 then [DigitChar(n)] else NatToString(n / 10) + [DigitChar(n % 10)]
  }

  /** `String(int)`: a `-` sign for negative values, then the decimal digits. */
  function IntToString(i: int): (r: string)
    ensures |r| > 0
    ensures '+' !in r && '\0' !in r && !IsSpace(r[0])
    ensures '-' in r <==> i < 0
    ensures i < 0 ==> r[0] == '-'
  {
    if i < 0 then "-" + NatToString(-i) else NatToString(i)
  }

  lemma {:induction false} NatToStringValue(n: nat)
    ensures DigitsValue(NatToString(n)) == n
  {
    var s := NatToString(n);
    if n >= 10 {
      assert s[..|s| - 1] == NatToString(n / 10);
      NatToStringValue(n / 10);
    }
  }

  lemma {:induction false} DigitPrefixOfDigits(s: string, rest: string)
    requires AllDigits(s)
    requires rest == [] || !IsDigit(rest[0])
    ensures DigitPrefix(s + rest) == s
  {
    if s != [] {
      assert (s + rest)[1..] == s[1..] + rest;
      DigitPrefixOfDigits(s[1..], rest);
    }
  }

  /** `toInt` reads back what `String(int)` writes. */
  lemma ToIntIntToString(i: int)
    ensures ToInt(IntToString(i)) == i
  {
    var s := IntToString(i);
    assert TrimStart(s) == s;
    if i < 0 {
      var d := NatToString(-i);
      assert s[1..] == d && d + [] == d;
      DigitPrefixOfDigits(d, []);
      NatToStringValue(-i);
      assert ToInt(s) + DigitsValue(d) == 0;
    } else {
      assert s + [] == s;
      DigitPrefixOfDigits(s, []);
      NatToStringValue(i);
    }
  }

  /** Leading whitespace followed by text that starts with a non-space is counted exactly. */
  lemma {:induction false} LeadingSpacesAppend(ws: string, t: string)
    requires AllSpace(ws)
    requires t == [] || !IsSpace(t[0])
    ensures LeadingSpaces(ws + t) == |ws|
    ensures TrimStart(ws + t) == t
  {
    if ws == [] {
      assert ws + t == t;
    } else {
      assert (ws + t)[0] == ws[0];
      assert (ws + t)[1..] == ws[1..] + t;
      LeadingSpacesAppend(ws[1..], t);
    }
  }

  /** One optional sign as `atol` accepts it. */
  predicate IsSign(sign: string) {
    sign == "" || sign == "+" || sign == "-"
  }

  /**
   `atol` on any text: leading whitespace, an optional sign, a run of digits and
   anything that does not continue the run reads as the signed value of the digits.
   */
  lemma ToIntReads(ws: string, sign: string, d: string, rest: string)
    requires AllSpace(ws) && IsSign(sign)
    requires d != [] && AllDigits(d)
    requires rest == [] || !IsDigit(rest[0])
    ensures var v: int := DigitsValue(d); ToInt(ws + sign + d + rest) == if sign == "-" then -v else v
  {
    var t := sign + (d + rest);
    assert ws + sign + d + rest == ws + t;
    DigitPrefixOfDigits(d, rest);
    if sign == "" {
      assert t == d + rest && t[0] == d[0];
      LeadingSpacesAppend(ws, t);
      ToIntUnsigned(ws + t, t);
    } else {
      assert t[0] == sign[0] && t[1..] == d + rest;
      LeadingSpacesAppend(ws, t);
      ToIntSigned(ws + t, t);
    }
  }

  /** `ToInt` once the whitespace is skipped and no sign follows. */
  lemma ToIntUnsigned(s: string, t: string)
    requires TrimStart(s) == t && (t == [] || (t[0] != '-' && t[0] != '+'))
    ensures ToInt(s) == DigitsValue(DigitPrefix(t))
  {
  }

  /** `ToInt` once the whitespace is skipped and a sign follows. */
  lemma ToIntSigned(s: string, t: string)
    requires TrimStart(s) == t && t != [] && (t[0] == '-' || t[0] == '+')
    ensures var m: int := DigitsValue(DigitPrefix(t[1..])); ToInt(s) == if t[0] == '-' then -m else m
  {
  }

  /**
   With no digit where `atol` expects one (after the whitespace and the optional
   sign), the text reads as 0.
   */
  lemma ToIntNoDigits(ws: string, sign: string, rest: string)
    requires AllSpace(ws) && IsSign(sign)
    requires rest == [] || !IsDigit(rest[0])
    requires sign == "" && rest != [] ==> !IsSpace(rest[0]) && rest[0] != '+' && rest[0] != '-'
    ensures ToInt(ws + sign + rest) == 0
  {
    var t := sign + rest;
    assert ws + sign + rest == ws + t;
    LeadingSpacesAppend(ws, t);
    if sign == "" {
      assert t == rest;
    } else {
      assert t[1..] == rest;
    }
  }
  /** Digits followed by blanks read as the digits. */
  lemma ToIntDigitsBlank(d: string, w: string)
    requires d != [] && AllDigits(d) && AllSpace(w)
    ensures ToInt(d + w) == DigitsValue(d)
  {
    assert d + w == [] + [] + d + w;
    assert w == [] || !IsDigit(w[0]);
    ToIntReads([], [], d, w);
  }

  /** Blanks followed by digits read as the digits. */
  lemma ToIntBlankDigits(w: string, d: string)
    requires d != [] && AllDigits(d) && AllSpace(w)
    ensures ToInt(w + d) == DigitsValue(d)
  {
    assert w + d == w + [] + d + [];
    ToIntReads(w, [], d, []);
  }
}
