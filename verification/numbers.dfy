/**
 * JavaScript's `parseInt(s)` with no radix argument, and the `|| 50` default
 * both report parsers put behind it.
 */
module Numbers {
  import opened Text

  /** The score both parsers fall back to. */
  const DefaultScore: int := 50

  predicate IsHexLetter(c: char) {
    ('a' <= c <= 'f') || ('A' <= c <= 'F')
  }

  /** A digit in radix 10 or 16. */
  predicate IsRadixDigit(c: char, hex: bool) {
    IsDigit(c) || (hex && IsHexLetter(c))
  }

  function DigitValue(c: char): nat {
    if IsDigit(c) then c as int - '0' as int
    else if 'a' <= c <= 'f' then c as int - 'a' as int + 10
    else if 'A' <= c <= 'F' then c as int - 'A' as int + 10
    else 0
  }

  /** Length of the longest prefix of `s` made of radix digits. */
  function DigitRun(s: string, hex: bool): (n: nat)
    ensures n <= |s|
    ensures forall i :: 0 <= i < n ==> IsRadixDigit(s[i], hex)
    ensures n < |s| ==> !IsRadixDigit(s[n], hex)
  {
    if |s| > 0 && IsRadixDigit(s[0], hex) then 1 + DigitRun(s[1..], hex) else 0
  }

  /** The regex `^\d+\.`: digits, at least one, then a dot. */
  predicate StartsWithNumbering(t: string) {
    var n := DigitRun(t, false);
    0 < n < |t| && t[n] == '.'
  }

  /** A text that starts with a numbering still does after more is
      appended. */
  lemma NumberingOfPrefix(t: string, more: string)
    requires StartsWithNumbering(t)
    ensures StartsWithNumbering(t + more)
  {
    var n := DigitRun(t, false);
    DigitRunOfDigits(t[..n], t[n..] + more, false);
    assert t[..n] + (t[n..] + more) == t + more;
  }

  /** The value of a digit string, most significant digit first. */
  function ValueOf(digits: string, hex: bool): nat {
    if |digits| == 0 then 0
    else ValueOf(digits[..|digits| - 1], hex) * (if hex then 16 else 10) + DigitValue(digits[|digits| - 1])
  }

  /** `parseInt(s)`: skip leading white space, take one optional sign, switch
      to radix 16 after a `0x`/`0X` prefix, then read the longest run of
      digits; no digit at all is NaN, modelled as `None`. */
  function ParseInt(s: string): (r: Option<int>)
    ensures AllSpace(s) ==> r.None?
  {
    ParseSigned(TrimStart(s))
  }

  /** `parseInt` after the leading white space is gone. */
  function ParseSigned(t: string): Option<int> {
    match ReadUnsigned(DropSign(t))
    case None => None
    case Some(v) => Some(if IsNegative(t) then -v else v)
  }

  predicate IsNegative(t: string) {
    |t| > 0 && t[0] == '-'
  }

  function DropSign(t: string): string {
    if |t| > 0 && (t[0] == '-' || t[0] == '+') then t[1..] else t
  }

  predicate HasHexPrefix(u: string) {
    |u| >= 2 && u[0] == '0' && (u[1] == 'x' || u[1] == 'X')
  }

  /** The digits after the sign, in the radix the prefix selects. */
  function ReadUnsigned(u: string): Option<int> {
    var hex := HasHexPrefix(u);
    var body := if hex then u[2..] else u;
    var n := DigitRun(body, hex);
    if n == 0 then None else Some(ValueOf(body[..n], hex))
  }

  /** `parseInt(s) || 50`: NaN and zero are both falsy, so either gives the
      default; any other parsed value is kept. */
  function ScoreOf(s: string): (r: int)
    ensures r != 0
    ensures r == DefaultScore || ParseInt(s) == Some(r)
    ensures ParseInt(s).Some? && ParseInt(s).value != 0 ==> r == ParseInt(s).value
  {
    match ParseInt(s)
    case None => DefaultScore
    case Some(v) => if v == 0 then DefaultScore else v
  }

  // ---------------------------------------------------------------------------
  // decimal rendering, the partner of ParseInt

  function DigitChar(d: nat): char
    requires d < 10
  {
    ('0' as int + d) as char
  }

  /** The canonical decimal rendering of `n`: no leading zero. */
  function Decimal(n: nat): (s: string)
    ensures |s| >= 1
    ensures forall i :: 0 <= i < |s| ==> IsDigit(s[i])
    ensures n > 0 ==> s[0] != '0'
  {
    if n < 10 then [DigitChar(n)] else Decimal(n / 10) + [DigitChar(n % 10)]
  }

  lemma {:induction false} ValueOfDecimal(n: nat)
    ensures ValueOf(Decimal(n), false) == n
  {
    var s := Decimal(n);
    if n >= 10 {
      ValueOfDecimal(n / 10);
      assert s[..|s| - 1] == Decimal(n / 10);
    }
  }

  lemma {:induction false} DigitRunOfDigits(digits: string, rest: string, hex: bool)
    requires forall i :: 0 <= i < |digits| ==> IsRadixDigit(digits[i], hex)
    requires rest == [] || !IsRadixDigit(rest[0], hex)
    ensures DigitRun(digits + rest, hex) == |digits|
    decreases |digits|
  {
    if |digits| > 0 {
      assert (digits + rest)[1..] == digits[1..] + rest;
      DigitRunOfDigits(digits[1..], rest, hex);
    } else {
      assert digits + rest == rest;
    }
  }

  lemma ReadUnsignedOfDecimal(n: nat, rest: string)
    requires rest == [] || !IsDigit(rest[0])
    requires n > 0 || rest == [] || (rest[0] != 'x' && rest[0] != 'X')
    ensures ReadUnsigned(Decimal(n) + rest) == Some(n)
  {
    var d := Decimal(n);
    var u := d + rest;
    assert !HasHexPrefix(u);
    DigitRunOfDigits(d, rest, false);
    assert u[..|d|] == d;
    ValueOfDecimal(n);
  }

  /** A sign in front of unsigned digits only flips the value. */
  lemma ParseSignedOfUnsigned(u: string, v: int)
    requires ReadUnsigned(u) == Some(v)
    requires u == [] || (u[0] != '-' && u[0] != '+')
    ensures ParseSigned(u) == Some(v)
    ensures ParseSigned(['-'] + u) == Some(-v)
    ensures ParseSigned(['+'] + u) == Some(v)
  {
    assert (['-'] + u)[1..] == u;
    assert (['+'] + u)[1..] == u;
  }

  /** `parseInt` ignores the white space in front of a sign or digit. */
  lemma ParseIntSkipsSpace(ws: string, t: string)
    requires AllSpace(ws) && |t| > 0 && !IsSpace(t[0])
    ensures ParseInt(ws + t) == ParseSigned(t)
  {
    TrimStartOfPadded(ws, t);
  }

  lemma ParseIntOfUnsigned(ws: string, u: string, v: int)
    requires AllSpace(ws)
    requires ReadUnsigned(u) == Some(v)
    requires |u| > 0 && u[0] != '-' && u[0] != '+' && !IsSpace(u[0])
    ensures ParseInt(ws + u) == Some(v)
    ensures ParseInt(ws + ['-'] + u) == Some(-v)
  {
    ParseSignedOfUnsigned(u, v);
    ParseIntSkipsSpace(ws, u);
    ParseIntOfNegated(ws, u);
  }

  lemma ParseIntOfNegated(ws: string, u: string)
    requires AllSpace(ws)
    ensures ParseInt(ws + ['-'] + u) == ParseSigned(['-'] + u)
  {
    assert ws + ['-'] + u == ws + (['-'] + u);
    ParseIntSkipsSpace(ws, ['-'] + u);
  }

  /** Round trip: `parseInt` reads back a rendered number, with or without a
      minus sign, whatever white space comes before it and whatever non-digit
      text follows it. */
  lemma ParseIntOfDecimal(ws: string, n: nat, rest: string)
    requires AllSpace(ws)
    requires rest == [] || !IsDigit(rest[0])
    requires n > 0 || rest == [] || (rest[0] != 'x' && rest[0] != 'X')
    ensures ParseInt(ws + Decimal(n) + rest) == Some(n)
    ensures ParseInt(ws + ['-'] + Decimal(n) + rest) == Some(-(n as int))
  {
    var d := Decimal(n);
    var u := d + rest;
    ReadUnsignedOfDecimal(n, rest);
    ParseIntOfUnsigned(ws, u, n);
    AssocThree(ws, d, rest);
    AssocThree(ws + ['-'], d, rest);
  }

  lemma AssocThree(a: string, b: string, c: string)
    ensures a + b + c == a + (b + c)
  {
  }

  /** Text that does not start, after white space and a sign, with a digit
      reads as NaN. */
  lemma ParseIntNoDigit(ws: string, sign: string, rest: string)
    requires AllSpace(ws)
    requires sign == "" || sign == "-" || sign == "+"
    requires rest == [] || (!IsDigit(rest[0]) && !IsSpace(rest[0]) && rest[0] != '-' && rest[0] != '+')
    ensures ParseInt(ws + sign + rest) == None
  {
    var t := sign + rest;
    assert ws + sign + rest == ws + t;
    assert DigitRun(rest, false) == 0;
    assert ReadUnsigned(rest) == None;
    if t == [] {
      assert ws + t == ws;
      TrimStartOfPadded(ws, []);
      assert ws + [] == ws;
    } else {
      NoDigitSigned(sign, rest);
      ParseIntSkipsSpace(ws, t);
    }
  }

  lemma NoDigitSigned(sign: string, rest: string)
    requires sign == "" || sign == "-" || sign == "+"
    requires ReadUnsigned(rest) == None
    requires rest == [] || (rest[0] != '-' && rest[0] != '+')
    ensures ParseSigned(sign + rest) == None
  {
    if sign != "" {
      assert (sign + rest)[1..] == rest;
    } else {
      assert sign + rest == rest;
    }
  }

  /** The score of a rendered positive number is that number; a rendered zero
      and text without digits both give the default. */
  lemma ScoreOfDecimal(ws: string, n: nat, rest: string)
    requires AllSpace(ws)
    requires rest == [] || !IsDigit(rest[0])
    requires n > 0 || rest == [] || (rest[0] != 'x' && rest[0] != 'X')
    ensures ScoreOf(ws + Decimal(n) + rest) == if n == 0 then DefaultScore else n
  {
    ParseIntOfDecimal(ws, n, rest);
  }
}
