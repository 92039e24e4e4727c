/** Python's `int(text)` on a string, in base 10: the conversion the notebook applies to the
    range bounds typed by the user and to the page-size choice. It raises ValueError on
    anything else; here that is `None`. */
module PyInt {
  import opened Wrappers

  /** The ASCII characters `int()` strips around its argument: space, tab, line feed, vertical
      tab, form feed and carriage return. The separators U+001C to U+001F, for which
      `str.isspace()` also holds, are not stripped, so `int()` rejects text padded with them. */
  predicate IsSpace(c: char) {
    c == ' ' || (9 <= c as int <= 13)
  }

  predicate IsDigit(c: char) {
    '0' <= c <= '9'
  }

  function DigitValue(c: char): nat
    requires IsDigit(c)
  {
    (c as int) - ('0' as int)
  }

  function TrimStart(s: string): (r: string)
    ensures |r| <= |s| && r == s[|s| - |r|..]
    ensures |r| > 0 ==> !IsSpace(r[0])
  {
    if |s| > 0 && IsSpace(s[0]) then TrimStart(s[1..]) else s
  }

  function TrimEnd(s: string): (r: string)
    ensures |r| <= |s| && r == s[..|r|]
    ensures |r| > 0 ==> !IsSpace(r[|r| - 1])
  {
    if |s| > 0 && IsSpace(s[|s| - 1]) then TrimEnd(s[..|s| - 1]) else s
  }

  /** Python strips surrounding whitespace before converting. */
  function Strip(s: string): string {
    TrimEnd(TrimStart(s))
  }

  /** The value of decimal digits, optionally grouped by single underscores between digits
      ("1_990"), or `None` when `s` is not of that form. */
  function ParseDigits(s: string): (r: Option<nat>)
    ensures r.Some? ==> |s| > 0 && IsDigit(s[0]) && IsDigit(s[|s| - 1])
    decreases |s|
  {
    if |s| == 0 || !IsDigit(s[|s| - 1]) then None
    else if |s| == 1 then Some(DigitValue(s[0]))
    else
      var prefix := if s[|s| - 2] == '_' then s[..|s| - 2] else s[..|s| - 1];
      match ParseDigits(prefix)
      case None => None
      case Some(v) => Some(v * 10 + DigitValue(s[|s| - 1]))
  }

  /** `int(s)`: surrounding whitespace, an optional sign, then digit groups. */
  function ParseInt(s: string): Option<int> {
    ParseSigned(Strip(s))
  }

  /** `int()` succeeds only when the stripped text starts with a digit or a sign and ends with a
      digit, and gives a negative number only after a minus sign. */
  lemma ParseIntShape(s: string)
    ensures ParseInt(s).Some? ==> SignedShape(Strip(s))
    ensures ParseInt(s).Some? && ParseInt(s).value < 0 ==> Strip(s)[0] == '-'
  {
  }

  /** Non-empty, starting with a digit or a sign and ending with a digit. */
  predicate SignedShape(t: string) {
    |t| > 0 && (IsDigit(t[0]) || t[0] == '+' || t[0] == '-') && IsDigit(t[|t| - 1])
  }

  /** An optional sign followed by digit groups. */
  function ParseSigned(t: string): (r: Option<int>)
    ensures r.Some? ==> SignedShape(t)
    ensures r.Some? && r.value < 0 ==> t[0] == '-'
  {
    if |t| > 0 && (t[0] == '+' || t[0] == '-') then
      match ParseDigits(t[1..])
      case None => None
      case Some(v) => var magnitude: int := v; Some(if t[0] == '-' then -magnitude else magnitude)
    else
      match ParseDigits(t)
      case None => None
      case Some(v) => Some(v)
  }

  /** The canonical decimal text of a natural number (what `str(n)` gives). */
  function NatDigits(n: nat): (r: string)
    ensures |r| > 0
    ensures forall i :: 0 <= i < |r| ==> IsDigit(r[i])
  {
    if n < 10 then [('0' as int + n) as char]
    else NatDigits(n / 10) + [('0' as int + n % 10) as char]
  }

  /** The canonical decimal text of an integer. */
  function Decimal(n: int): string {
    if n < 0 then "-" + NatDigits(-n) else NatDigits(n)
  }

  predicate AllSpace(s: string) {
    forall i :: 0 <= i < |s| ==> IsSpace(s[i])
  }

  lemma {:induction false} NatDigitsValue(n: nat)
    ensures ParseDigits(NatDigits(n)) == Some(n)
  {
    var r := NatDigits(n);
    if n >= 10 {
      NatDigitsValue(n / 10);
      assert r[..|r| - 1] == NatDigits(n / 10);
    }
  }

  lemma {:induction false} TrimStartSpaces(lead: string, t: string)
    requires AllSpace(lead)
    requires |t| > 0 && !IsSpace(t[0])
    ensures TrimStart(lead + t) == t
  {
    if |lead| > 0 {
      assert (lead + t)[1..] == lead[1..] + t;
      TrimStartSpaces(lead[1..], t);
    } else {
      assert lead + t == t;
    }
  }

  lemma {:induction false} TrimEndSpaces(t: string, trail: string)
    requires AllSpace(trail)
    requires |t| > 0 && !IsSpace(t[|t| - 1])
    ensures TrimEnd(t + trail) == t
  {
    if |trail| > 0 {
      assert (t + trail)[..|t + trail| - 1] == t + trail[..|trail| - 1];
      TrimEndSpaces(t, trail[..|trail| - 1]);
    } else {
      assert t + trail == t;
    }
  }

  lemma StripPadded(lead: string, t: string, trail: string)
    requires AllSpace(lead) && AllSpace(trail)
    requires |t| > 0 && !IsSpace(t[0]) && !IsSpace(t[|t| - 1])
    ensures Strip(lead + t + trail) == t
  {
    TrimStartSpaces(lead, t + trail);
    assert lead + t + trail == lead + (t + trail);
    TrimEndSpaces(t, trail);
  }

  lemma {:induction false} ParseSignedDecimal(n: int)
    ensures ParseSigned(Decimal(n)) == Some(n)
  {
    var d := Decimal(n);
    var m: nat := if n < 0 then -n else n;
    NatDigitsValue(m);
    if n < 0 {
      assert d[0] == '-' && d[1..] == NatDigits(m);
    } else {
      assert d[0] != '+' && d[0] != '-';
    }
  }

  /** Round trip: the decimal text of any integer, with any surrounding whitespace, converts
      back to that integer. */
  lemma ParseDecimal(n: int, lead: string, trail: string)
    requires AllSpace(lead) && AllSpace(trail)
    ensures ParseInt(lead + Decimal(n) + trail) == Some(n)
  {
    var d := Decimal(n);
    var digits := NatDigits(if n < 0 then -n else n);
    assert d[|d| - 1] == digits[|digits| - 1];
    StripPadded(lead, d, trail);
    ParseSignedDecimal(n);
  }

  /** The canonical text of a natural number converts back to it. */
  lemma ParseNatDigits(n: nat)
    ensures ParseInt(NatDigits(n)) == Some(n)
  {
    ParseDecimal(n, "", "");
    assert "" + Decimal(n) + "" == NatDigits(n);
  }

  /** Trimming trailing whitespace keeps a leading character that is not whitespace. */
  lemma {:induction false} TrimEndKeepsHead(u: string)
    requires |u| > 0 && !IsSpace(u[0])
    ensures |TrimEnd(u)| > 0 && TrimEnd(u)[0] == u[0]
  {
    if |u| > 1 && IsSpace(u[|u| - 1]) {
      TrimEndKeepsHead(u[..|u| - 1]);
    }
  }

  /** Text that starts with a character that is neither stripped, a sign nor a digit never
      converts: in particular a bound led by one of the separators U+001C to U+001F. */
  lemma ParseRejectsLeading(c: char, rest: string)
    requires !IsSpace(c) && !IsDigit(c) && c != '+' && c != '-'
    ensures ParseInt([c] + rest) == None
  {
    var u := [c] + rest;
    assert TrimStart(u) == u;
    TrimEndKeepsHead(u);
  }

  /** Text with no decimal digit in it (a blank field, "All", "abc") never converts. */
  lemma ParseRejectsDigitless(s: string)
    requires forall i :: 0 <= i < |s| ==> !IsDigit(s[i])
    ensures ParseInt(s) == None
  {
    var t := Strip(s);
    var u := TrimStart(s);
    assert t == u[..|t|] && u == s[|s| - |u|..];
    if |t| > 0 {
      assert t[|t| - 1] == s[|s| - |u| + |t| - 1];
      if |t| > 1 {
        assert t[1..][|t| - 2] == t[|t| - 1];
      }
    }
  }
}
