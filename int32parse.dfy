/**
 * The parse core of LeerEntero: `int.Parse(texto.Trim())` under NumberStyles.Integer, with the
 * three outcomes the reader tells apart (a value, a FormatException, an OverflowException), and
 * the decimal rendering Int32.ToString that the listings use for identifiers.
 */
module Int32Parse {
  import opened Optional
  import opened Decimal
  import opened Text

  const MinValue: int := -0x8000_0000
  const MaxValue: int := 0x7FFF_FFFF

  predicate InRange(v: int)
  {
    MinValue <= v <= MaxValue
  }

  datatype IntResult = Parsed(value: int) | FormatError | Overflow

  /** The white space that NumberStyles.AllowLeadingWhite and AllowTrailingWhite skip. */
  predicate IsNumberWhite(c: char)
  {
    ('\t' <= c <= '\r') || c == ' '
  }

  predicate AllNul(s: string)
  {
    forall i :: 0 <= i < |s| ==> s[i] == '\0'
  }

  predicate AllNumberWhite(s: string)
  {
    forall x :: 0 <= x < |s| ==> IsNumberWhite(s[x])
  }

  /** Int32.Parse: leading white space, an optional '+' or '-', one or more ASCII digits, trailing
      white space and then nothing but NUL characters. A well-formed text whose value lies outside
      the 32-bit range is an overflow; anything else is a format error. */
  function ParseInt(s: string): (r: IntResult)
    ensures r.Parsed? ==> InRange(r.value)
  {
    ParseSigned(s[Span(s, IsNumberWhite)..])
  }

  /** The text after the leading white space: an optional sign, then the magnitude. */
  function ParseSigned(a: string): IntResult
  {
    if |a| > 0 && a[0] == '-' then ParseMagnitude(true, a[1..])
    else if |a| > 0 && a[0] == '+' then ParseMagnitude(false, a[1..])
    else ParseMagnitude(false, a)
  }

  /** The text after the sign: the digits, then trailing white space and NULs only. */
  function ParseMagnitude(negative: bool, b: string): IntResult
  {
    var n := Span(b, IsDigit);
    var tail := b[n..];
    if n == 0 || !AllNul(tail[Span(tail, IsNumberWhite)..]) then FormatError
    else
      var magnitude := DigitsValue(b[..n]);
      Ranged(if negative then -(magnitude as int) else magnitude)
  }

  /** What Int32.Parse makes of a well-formed text with value `v`. */
  function Ranged(v: int): (r: IntResult)
    ensures r != FormatError
    ensures r.Parsed? <==> InRange(v)
    ensures r.Parsed? ==> r.value == v
  {
    if InRange(v) then Parsed(v) else Overflow
  }

  /** One attempt of LeerEntero: an absent line is a format error, a present one is trimmed and parsed. */
  function ReadInt(line: Line): (r: IntResult)
    ensures line.None? ==> r == FormatError
    ensures line.Some? ==> r == ParseInt(Trim(line.value))
  {
    match line
    case None => FormatError
    case Some(t) => ParseInt(Trim(t))
  }

  /** Int32.ToString: an optional '-' and the digits of the magnitude without leading zeros. */
  function Show(v: int): (s: string)
    ensures |s| > 0
    ensures s[0] == '-' <==> v < 0
  {
    var digits := Pad(if v < 0 then -v else v, NumDigits(if v < 0 then -v else v));
    if v < 0 then "-" + digits else digits
  }

  function Signed(sign: string, magnitude: nat): int
  {
    if sign == "-" then -(magnitude as int) else magnitude
  }

  /** `s` split at `i <= j < k <= l` into the shape NumberStyles.Integer accepts: leading number
      white space, an optional sign, at least one digit, trailing number white space, NULs. */
  predicate Framed(s: string, i: nat, j: nat, k: nat, l: nat)
  {
    && i <= j < k <= l <= |s|
    && AllNumberWhite(s[..i])
    && (s[i..j] == "" || s[i..j] == "+" || s[i..j] == "-")
    && AllDigits(s[j..k])
    && AllNumberWhite(s[k..l])
    && AllNul(s[l..])
  }

  /** `s` is an integer text with value `v`, in or out of the 32-bit range. */
  ghost predicate Denotes(s: string, v: int)
  {
    exists i: nat, j: nat, k: nat, l: nat :: Framed(s, i, j, k, l) && Signed(s[i..j], DigitsValue(s[j..k])) == v
  }

  lemma DropDrop(s: string, a: nat, b: nat)
    requires a + b <= |s|
    ensures s[a..][b..] == s[a + b..]
  {
  }

  /** A span is determined by its two defining facts. */
  lemma {:induction false} SpanExact(s: string, p: char -> bool, n: nat)
    requires n <= |s|
    requires forall x :: 0 <= x < n ==> p(s[x])
    requires n < |s| ==> !p(s[n])
    ensures Span(s, p) == n
  {
    if n > 0 {
      SpanExact(s[1..], p, n - 1);
    }
  }

  /** The magnitude stage on digits `b[..n]`, then `m` characters of white space, then NULs. */
  lemma MagnitudeSplit(negative: bool, b: string, n: nat, m: nat)
    requires 0 < n && n + m <= |b|
    requires AllDigits(b[..n]) && AllNumberWhite(b[n..n + m]) && AllNul(b[n + m..])
    ensures ParseMagnitude(negative, b) ==
            Ranged(if negative then -(DigitsValue(b[..n]) as int) else DigitsValue(b[..n]))
  {
    forall x | 0 <= x < n ensures IsDigit(b[x]) {
      assert b[x] == b[..n][x];
    }
    if n < |b| {
      if m > 0 { assert b[n] == b[n..n + m][0]; } else { assert b[n] == b[n + m..][0]; }
    }
    SpanExact(b, IsDigit, n);
    var tail := b[n..];
    forall x | 0 <= x < m ensures IsNumberWhite(tail[x]) {
      assert tail[x] == b[n..n + m][x];
    }
    if n + m < |b| {
      assert tail[m] == b[n + m..][0];
    }
    SpanExact(tail, IsNumberWhite, m);
    assert tail[m..] == b[n + m..];
  }

  /** The magnitude stage on digits `s[j..k]`, white space `s[k..l]` and NULs `s[l..]`. */
  lemma MagnitudeFramed(negative: bool, s: string, j: nat, k: nat, l: nat)
    requires j < k <= l <= |s|
    requires AllDigits(s[j..k]) && AllNumberWhite(s[k..l]) && AllNul(s[l..])
    ensures ParseMagnitude(negative, s[j..]) ==
            Ranged(if negative then -(DigitsValue(s[j..k]) as int) else DigitsValue(s[j..k]))
  {
    var b := s[j..];
    assert b[..k - j] == s[j..k];
    assert b[k - j..l - j] == s[k..l];
    assert b[l - j..] == s[l..];
    MagnitudeSplit(negative, b, k - j, l - k);
    var d := DigitsValue(s[j..k]);
    assert DigitsValue(b[..k - j]) == d;
    assert ParseMagnitude(negative, b) == Ranged(if negative then -(d as int) else d);
  }

  /** The sign stage on a sign `s[i..j]` followed by the magnitude `s[j..]`, which starts with a
      digit. */
  lemma SignFramed(s: string, i: nat, j: nat)
    requires i <= j < |s| && IsDigit(s[j])
    requires s[i..j] == "" || s[i..j] == "+" || s[i..j] == "-"
    ensures ParseSigned(s[i..]) == ParseMagnitude(s[i..j] == "-", s[j..])
  {
    if i < j {
      assert s[i..][0] == s[i..j][0];
      DropDrop(s, i, 1);
    }
  }

  /** A text of the accepted shape parses to its value, or overflows. */
  lemma ParseFramed(s: string, i: nat, j: nat, k: nat, l: nat)
    requires Framed(s, i, j, k, l)
    ensures ParseInt(s) == Ranged(Signed(s[i..j], DigitsValue(s[j..k])))
  {
    forall x | 0 <= x < i ensures IsNumberWhite(s[x]) {
      assert s[x] == s[..i][x];
    }
    assert IsDigit(s[j]) by { assert s[j] == s[j..k][0]; }
    if i < j { assert s[i] == s[i..j][0]; }
    SpanExact(s, IsNumberWhite, i);
    SignFramed(s, i, j);
    MagnitudeFramed(s[i..j] == "-", s, j, k, l);
  }

  /** The magnitude stage accepts only digits followed by white space and NULs. */
  lemma MagnitudeAccepted(negative: bool, s: string, j: nat) returns (k: nat, l: nat)
    requires j <= |s| && ParseMagnitude(negative, s[j..]) != FormatError
    ensures j < k <= l <= |s|
    ensures AllDigits(s[j..k]) && AllNumberWhite(s[k..l]) && AllNul(s[l..])
    ensures ParseMagnitude(negative, s[j..]) ==
            Ranged(if negative then -(DigitsValue(s[j..k]) as int) else DigitsValue(s[j..k]))
  {
    var b := s[j..];
    var n := Span(b, IsDigit);
    k := j + n;
    var tail := b[n..];
    DropDrop(s, j, n);
    var m := Span(tail, IsNumberWhite);
    l := k + m;
    DropDrop(s, k, m);
    assert b[..n] == s[j..k];
    assert tail[..m] == s[k..l];
  }

  /** After the leading white space: a text that the sign stage does not refuse is an optional
      sign, digits, number white space and NULs, with the value of its sign and digits. */
  lemma SignedAccepted(s: string, i: nat) returns (j: nat, k: nat, l: nat)
    requires i <= |s| && ParseSigned(s[i..]) != FormatError
    ensures i <= j < k <= l <= |s|
    ensures (s[i..j] == "" || s[i..j] == "+" || s[i..j] == "-")
    ensures AllDigits(s[j..k]) && AllNumberWhite(s[k..l]) && AllNul(s[l..])
    ensures ParseSigned(s[i..]) == Ranged(Signed(s[i..j], DigitsValue(s[j..k])))
  {
    var a := s[i..];
    if |a| > 0 && a[0] == '-' {
      j := i + 1;
      DropDrop(s, i, 1);
      assert s[i..j] == "-";
      k, l := SignThenMagnitude(s, i, j, true);
    } else if |a| > 0 && a[0] == '+' {
      j := i + 1;
      DropDrop(s, i, 1);
      assert s[i..j] == "+";
      k, l := SignThenMagnitude(s, i, j, false);
    } else {
      j := i;
      k, l := SignThenMagnitude(s, i, j, false);
    }
  }

  /** The magnitude after a sign `s[i..j]` that the sign stage has consumed. */
  lemma SignThenMagnitude(s: string, i: nat, j: nat, negative: bool) returns (k: nat, l: nat)
    requires i <= j <= |s| && ParseSigned(s[i..]) == ParseMagnitude(negative, s[j..])
    requires ParseSigned(s[i..]) != FormatError
    requires s[i..j] == "" || s[i..j] == "+" || s[i..j] == "-"
    requires s[i..j] == "-" <==> negative
    ensures j < k <= l <= |s|
    ensures AllDigits(s[j..k]) && AllNumberWhite(s[k..l]) && AllNul(s[l..])
    ensures ParseSigned(s[i..]) == Ranged(Signed(s[i..j], DigitsValue(s[j..k])))
  {
    k, l := MagnitudeAccepted(negative, s, j);
  }

  /** A text that Int32.Parse does not refuse has the accepted shape, and the result is that of
      its sign and digits. */
  lemma ParseAccepted(s: string) returns (i: nat, j: nat, k: nat, l: nat)
    requires ParseInt(s) != FormatError
    ensures Framed(s, i, j, k, l)
    ensures ParseInt(s) == Ranged(Signed(s[i..j], DigitsValue(s[j..k])))
  {
    i := Span(s, IsNumberWhite);
    j, k, l := SignedAccepted(s, i);
    assert AllNumberWhite(s[..i]) by {
      forall x | 0 <= x < i ensures IsNumberWhite(s[..i][x]) { assert s[..i][x] == s[x]; }
    }
  }

  /** Int32.Parse in both directions: every integer text parses to its value (or overflows), and
      a text that is not refused as malformed is an integer text with the value of the result. So
      ParseInt(s) is a format error exactly when `s` denotes no integer at all. */
  lemma ParseIntMeans(s: string)
    ensures forall v :: Denotes(s, v) ==> ParseInt(s) == Ranged(v)
    ensures ParseInt(s) != FormatError ==> exists v :: Denotes(s, v) && ParseInt(s) == Ranged(v)
  {
    forall v | Denotes(s, v) ensures ParseInt(s) == Ranged(v) {
      var i: nat, j: nat, k: nat, l: nat :| Framed(s, i, j, k, l) && Signed(s[i..j], DigitsValue(s[j..k])) == v;
      ParseFramed(s, i, j, k, l);
    }
    if ParseInt(s) != FormatError {
      var i, j, k, l := ParseAccepted(s);
      assert Denotes(s, Signed(s[i..j], DigitsValue(s[j..k])));
    }
  }

  /** The well-formed case: an optional sign followed by digits (leading zeros allowed) parses to
      its value when that value fits in 32 bits, and is an overflow otherwise. */
  lemma ParseSignedDigits(sign: string, d: string)
    requires sign == "" || sign == "+" || sign == "-"
    requires d != [] && AllDigits(d)
    ensures var v := Signed(sign, DigitsValue(d));
            ParseInt(sign + d) == if InRange(v) then Parsed(v) else Overflow
  {
    var s := sign + d;
    assert s[..0] == [] && s[0..|sign|] == sign && s[|sign|..|s|] == d;
    assert s[|s|..|s|] == [] && s[|s|..] == [];
    ParseFramed(s, 0, |sign|, |s|, |s|);
  }

  /** Text without a single decimal digit is always a format error. */
  lemma ParseWithoutDigits(s: string)
    requires forall i :: 0 <= i < |s| ==> !IsDigit(s[i])
    ensures ParseInt(s) == FormatError
  {
    if ParseInt(s) != FormatError {
      var i, j, k, l := ParseAccepted(s);
    }
  }

  /** Digits followed by a character that is neither a digit, number white space nor NUL (as in
      "12a" or "1,5") are a format error, however long the digit run. */
  lemma ParseTrailingGarbage(sign: string, d: string, c: char, rest: string)
    requires sign == "" || sign == "+" || sign == "-"
    requires d != [] && AllDigits(d)
    requires !IsDigit(c) && !IsNumberWhite(c) && c != '\0'
    ensures ParseInt(sign + d + [c] + rest) == FormatError
  {
    var s := sign + d + [c] + rest;
    var j := |sign|;
    assert s[j..] == d + [c] + rest;
    assert IsDigit(s[j]) by { assert s[j] == d[0]; }
    assert !IsNumberWhite(s[0]) by { if j > 0 { assert s[0] == sign[0]; } }
    SpanExact(s, IsNumberWhite, 0);
    assert s[..j] == sign;
    SignFramed(s, 0, j);
    MagnitudeGarbage(sign == "-", d + [c] + rest, |d|);
  }

  /** The magnitude stage refuses digits followed by a character that may not follow them. */
  lemma MagnitudeGarbage(negative: bool, b: string, n: nat)
    requires 0 < n < |b| && AllDigits(b[..n])
    requires !IsDigit(b[n]) && !IsNumberWhite(b[n]) && b[n] != '\0'
    ensures ParseMagnitude(negative, b) == FormatError
  {
    forall x | 0 <= x < n ensures IsDigit(b[x]) {
      assert b[x] == b[..n][x];
    }
    SpanExact(b, IsDigit, n);
    var tail := b[n..];
    SpanExact(tail, IsNumberWhite, 0);
    assert tail[0..][0] == b[n];
  }

  /** One attempt of LeerEntero has three outcomes: the value of a trimmed line that is an integer
      text within the 32-bit range, an overflow for an integer text outside it, and a format
      error for everything else, an absent line included. */
  lemma ReadIntMeans(line: Line)
    ensures forall v :: ReadInt(line) == Parsed(v) <==> line.Some? && InRange(v) && Denotes(Trim(line.value), v)
    ensures ReadInt(line) == Overflow <==>
              line.Some? && exists v :: Denotes(Trim(line.value), v) && !InRange(v)
  {
    if line.Some? {
      ParseIntMeans(Trim(line.value));
    }
  }

  /** Rendering an integer and parsing it back gives the integer when it fits in 32 bits and an
      overflow otherwise. */
  lemma ParseShow(v: int)
    ensures ParseInt(Show(v)) == if InRange(v) then Parsed(v) else Overflow
  {
    var m := if v < 0 then -v else v;
    var digits := Pad(m, NumDigits(m));
    PadValue(m, NumDigits(m));
    if v < 0 {
      ParseSignedDigits("-", digits);
    } else {
      ParseSignedDigits("", digits);
      assert "" + digits == digits;
    }
  }

  /** The number LeerEntero's error message gives as its example: "10" yields 10. */
  lemma ReadIntTen()
    ensures ReadInt(Some("10")) == Parsed(10)
  {
    TrimTen();
    ParseTen();
  }

  lemma TrimTen()
    ensures Trim("10") == "10"
  {
    TrimPadded([], "10", []);
    assert [] + "10" + [] == "10";
  }

  lemma ParseTen()
    ensures ParseInt("10") == Parsed(10)
  {
    ParseSignedDigits("", "10");
    assert "" + "10" == "10";
    assert DigitsValue("10") == 10;
  }

  /** Example: "abc" is a format error, and so is an absent line. */
  lemma ReadIntNotANumber()
    ensures ReadInt(Some("abc")) == FormatError
    ensures ReadInt(None) == FormatError
  {
    TrimPadded([], "abc", []);
    assert [] + "abc" + [] == "abc";
    ParseWithoutDigits("abc");
  }

  /** A rendered identifier read back by the integer reader is the identifier itself when it fits
      in 32 bits (the limits -2^31 and 2^31 - 1 included) and an overflow otherwise. */
  lemma ReadIntShow(v: int)
    ensures ReadInt(Some(Show(v))) == if InRange(v) then Parsed(v) else Overflow
  {
    var s := Show(v);
    assert !IsWhiteSpace(s[0]) && !IsWhiteSpace(s[|s| - 1]);
    TrimPadded([], s, []);
    assert [] + s + [] == s;
    ParseShow(v);
  }
}
