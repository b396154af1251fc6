/**
 * Dates and times as LeerFecha reads them and the listings write them: the five fields the
 * program uses, Gregorian validity over the DateTime range, the seven exact patterns tried in
 * order by DateTime.TryParseExact, and the "yyyy-MM-dd HH:mm" rendering.
 */
module DateTimes {
  import opened Optional
  import opened Decimal
  import opened Text

  datatype DateTime = DateTime(year: int, month: int, day: int, hour: int, minute: int)

  predicate IsLeapYear(y: int)
  {
    y % 4 == 0 && (y % 100 != 0 || y % 400 == 0)
  }

  function DaysInMonth(y: int, m: int): (n: int)
    requires 1 <= m <= 12
    ensures 28 <= n <= 31
    ensures m == 2 ==> (n == 29 <==> IsLeapYear(y))
  {
    if m == 2 then (if IsLeapYear(y) then 29 else 28)
    else if m == 4 || m == 6 || m == 9 || m == 11 then 30
    else 31
  }

  /** What a DateTime can hold: years 1..9999 of the Gregorian calendar, to the minute. */
  predicate Valid(d: DateTime)
  {
    && 1 <= d.year <= 9999
    && 1 <= d.month <= 12
    && 1 <= d.day <= DaysInMonth(d.year, d.month)
    && 0 <= d.hour < 24
    && 0 <= d.minute < 60
  }

  datatype FieldKind = Year | Month | Day | Hour | Minute

  /** A format specifier: a numeric field ("yyyy", "MM", "dd", "HH" or "mm") or a literal character. */
  datatype Token = Field(kind: FieldKind) | Lit(c: char)

  /** A custom format string, specifier by specifier. */
  datatype Pattern = End | Then(head: Token, rest: Pattern)

  /** "yyyy" reads and writes exactly four digits; "MM", "dd", "HH" and "mm" exactly two. */
  function WidthOf(k: FieldKind): nat
  {
    if k == Year then 4 else 2
  }

  function Get(d: DateTime, k: FieldKind): int
  {
    match k
    case Year => d.year
    case Month => d.month
    case Day => d.day
    case Hour => d.hour
    case Minute => d.minute
  }

  function With(d: DateTime, k: FieldKind, v: int): (e: DateTime)
    ensures Get(e, k) == v
    ensures forall k' :: k' != k ==> Get(e, k') == Get(d, k')
  {
    match k
    case Year => d.(year := v)
    case Month => d.(month := v)
    case Day => d.(day := v)
    case Hour => d.(hour := v)
    case Minute => d.(minute := v)
  }

  /** "yyyy-MM-dd HH:mm": the first accepted pattern and the one the listings render with. */
  const YmdHmDash: Pattern :=
    Then(Field(Year), Then(Lit('-'), Then(Field(Month), Then(Lit('-'), Then(Field(Day),
    Then(Lit(' '), Then(Field(Hour), Then(Lit(':'), Then(Field(Minute), End)))))))))
  /** "yyyy/MM/dd HH:mm" */
  const YmdHmSlash: Pattern :=
    Then(Field(Year), Then(Lit('/'), Then(Field(Month), Then(Lit('/'), Then(Field(Day),
    Then(Lit(' '), Then(Field(Hour), Then(Lit(':'), Then(Field(Minute), End)))))))))
  /** "dd/MM/yyyy HH:mm" */
  const DmyHmSlash: Pattern :=
    Then(Field(Day), Then(Lit('/'), Then(Field(Month), Then(Lit('/'), Then(Field(Year),
    Then(Lit(' '), Then(Field(Hour), Then(Lit(':'), Then(Field(Minute), End)))))))))
  /** "dd-MM-yyyy HH:mm" */
  const DmyHmDash: Pattern :=
    Then(Field(Day), Then(Lit('-'), Then(Field(Month), Then(Lit('-'), Then(Field(Year),
    Then(Lit(' '), Then(Field(Hour), Then(Lit(':'), Then(Field(Minute), End)))))))))
  /** "yyyy-MM-dd" */
  const YmdDash: Pattern :=
    Then(Field(Year), Then(Lit('-'), Then(Field(Month), Then(Lit('-'), Then(Field(Day), End)))))
  /** "dd/MM/yyyy" */
  const DmySlash: Pattern :=
    Then(Field(Day), Then(Lit('/'), Then(Field(Month), Then(Lit('/'), Then(Field(Year), End)))))
  /** "dd-MM-yyyy" */
  const DmyDash: Pattern :=
    Then(Field(Day), Then(Lit('-'), Then(Field(Month), Then(Lit('-'), Then(Field(Year), End)))))

  /** The accepted patterns, in the order they are tried. */
  const Formats: seq<Pattern> := [YmdHmDash, YmdHmSlash, DmyHmSlash, DmyHmDash, YmdDash, DmySlash, DmyDash]

  /** DateTime.MinValue, 0001-01-01 00:00: a field that a pattern does not name keeps this value,
      so a date-only pattern yields midnight. */
  const Origin := DateTime(1, 1, 1, 0, 0)

  /** The fields that a pattern names. */
  function Names(p: Pattern): set<FieldKind>
  {
    match p
    case End => {}
    case Then(t, r) => (if t.Field? then {t.kind} else {}) + Names(r)
  }

  /** No field is named twice. */
  predicate DistinctKinds(p: Pattern)
  {
    match p
    case End => true
    case Then(t, r) => (t.Field? ==> t.kind !in Names(r)) && DistinctKinds(r)
  }

  /** No literal of the pattern is a digit. */
  predicate NoDigitLits(p: Pattern)
  {
    match p
    case End => true
    case Then(t, r) => (t.Lit? ==> !IsDigit(t.c)) && NoDigitLits(r)
  }

  /** Every field of `d` can be written in its width without losing digits. */
  predicate Fits(d: DateTime)
  {
    && 0 <= d.year < 10000
    && 0 <= d.month < 100
    && 0 <= d.day < 100
    && 0 <= d.hour < 100
    && 0 <= d.minute < 100
  }

  /** Matches the whole of `s` against `p`, setting each field from its digits. */
  function Scan(s: string, p: Pattern, acc: DateTime): Option<DateTime>
  {
    match p
    case End => if s == [] then Some(acc) else None
    case Then(Lit(c), r) =>
      if |s| > 0 && s[0] == c then Scan(s[1..], r, acc) else None
    case Then(Field(k), r) =>
      var w := WidthOf(k);
      if |s| >= w && AllDigits(s[..w]) then Scan(s[w..], r, With(acc, k, DigitsValue(s[..w])))
      else None
  }

  /** One pattern of DateTime.TryParseExact: the text has the pattern's shape and its fields form
      a date that exists. */
  function ParseExact(s: string, p: Pattern): (r: Option<DateTime>)
    ensures r.Some? ==> Valid(r.value)
  {
    var t := Scan(s, p, Origin);
    if t.Some? && Valid(t.value) then t else None
  }

  /** The first of `fs` that accepts `s` decides the result. */
  function FirstMatch(s: string, fs: seq<Pattern>): (r: Option<DateTime>)
    ensures r.Some? ==> Valid(r.value)
  {
    if fs == [] then None
    else
      match ParseExact(s, fs[0])
      case Some(d) => Some(d)
      case None => FirstMatch(s, fs[1..])
  }

  /** DateTime.TryParseExact with the program's pattern list (see ParseDateMeans). */
  function ParseDate(s: string): (r: Option<DateTime>)
    ensures r.Some? ==> Valid(r.value)
  {
    FirstMatch(s, Formats)
  }

  /** One attempt of LeerFecha: an absent line fails; otherwise the trimmed text goes through the
      exact patterns and, if none accepts it, through `fallback`, which stands for the
      culture-dependent DateTime.TryParse. */
  function ReadDate(line: Line, fallback: string -> Option<DateTime>): (r: Option<DateTime>)
    ensures line.None? ==> r.None?
    ensures ValidFallback(fallback) && r.Some? ==> Valid(r.value)
  {
    match line
    case None => None
    case Some(t) =>
      var u := Trim(t);
      match ParseDate(u)
      case Some(d) => Some(d)
      case None => fallback(u)
  }

  /** The date reader's fallback only produces dates that exist, as DateTime.TryParse does. */
  ghost predicate ValidFallback(fallback: string -> Option<DateTime>)
  {
    forall s :: fallback(s).Some? ==> Valid(fallback(s).value)
  }

  /** Formats `d` by `p`: each field as zero-padded digits, literals as themselves. */
  function Render(p: Pattern, d: DateTime): string
  {
    match p
    case End => []
    case Then(Lit(c), r) => [c] + Render(r, d)
    case Then(Field(k), r) => Pad(Get(d, k), WidthOf(k)) + Render(r, d)
  }

  /** DateTime.ToString("yyyy-MM-dd HH:mm"), the Fecha column of both appointment listings. */
  function FormatFecha(d: DateTime): string
  {
    Render(YmdHmDash, d)
  }

  /** Rendering then scanning with the same pattern recovers every field the pattern names. */
  lemma {:induction false} ScanRender(p: Pattern, g: DateTime, f: DateTime)
    requires Fits(g)
    requires forall k :: k !in Names(p) ==> Get(f, k) == Get(g, k)
    ensures Scan(Render(p, g), p, f) == Some(g)
  {
    match p
    case End =>
      assert Get(f, Year) == Get(g, Year) && Get(f, Month) == Get(g, Month);
      assert Get(f, Day) == Get(g, Day) && Get(f, Hour) == Get(g, Hour);
      assert Get(f, Minute) == Get(g, Minute);
    case Then(Lit(c), r) =>
      var s := Render(p, g);
      assert s[1..] == Render(r, g);
      ScanRender(r, g, f);
    case Then(Field(k), r) =>
      var w := WidthOf(k);
      var s := Render(p, g);
      var digits := Pad(Get(g, k), w);
      assert s[..w] == digits && s[w..] == Render(r, g);
      assert Pow10(2) == 100 && Pow10(4) == 10000;
      PadValue(Get(g, k), w);
      ScanRender(r, g, With(f, k, Get(g, k)));
  }

  /** A field that the pattern does not name keeps its starting value. */
  lemma {:induction false} ScanKeeps(s: string, p: Pattern, f: DateTime, k: FieldKind)
    requires Scan(s, p, f).Some?
    requires k !in Names(p)
    ensures Get(Scan(s, p, f).value, k) == Get(f, k)
  {
    match p
    case End =>
    case Then(Lit(c), r) =>
      ScanKeeps(s[1..], r, f, k);
    case Then(Field(k0), r) =>
      var w := WidthOf(k0);
      ScanKeeps(s[w..], r, With(f, k0, DigitsValue(s[..w])), k);
  }

  /** A text that a pattern with distinct fields accepts is exactly the rendering of its result. */
  lemma {:induction false} RenderScan(s: string, p: Pattern, f: DateTime)
    requires Scan(s, p, f).Some?
    requires DistinctKinds(p)
    ensures Render(p, Scan(s, p, f).value) == s
  {
    match p
    case End =>
    case Then(Lit(c), r) =>
      RenderScan(s[1..], r, f);
      assert s == [c] + s[1..];
    case Then(Field(k), r) =>
      var w := WidthOf(k);
      var head, tail := s[..w], s[w..];
      var f' := With(f, k, DigitsValue(head));
      assert Scan(s, p, f) == Scan(tail, r, f');
      var g := Scan(tail, r, f').value;
      RenderScan(tail, r, f');
      ScanKeeps(tail, r, f', k);
      PadOfValue(head);
      assert Pad(Get(g, k), w) == head;
      assert Render(p, g) == head + tail;
      assert head + tail == s;
  }

  /** What a pattern accepts at one position: any decimal digit, or one literal character. */
  datatype Class = Digit | Char(c: char)

  /** The length of every text that a pattern accepts. */
  function Len(p: Pattern): nat
  {
    match p
    case End => 0
    case Then(Lit(_), r) => 1 + Len(r)
    case Then(Field(k), r) => WidthOf(k) + Len(r)
  }

  function ClassAt(p: Pattern, n: nat): Class
    requires n < Len(p)
  {
    match p
    case End => Digit
    case Then(Lit(c), r) => if n == 0 then Char(c) else ClassAt(r, n - 1)
    case Then(Field(k), r) => if n < WidthOf(k) then Digit else ClassAt(r, n - WidthOf(k))
  }

  /** A text that a pattern accepts has the pattern's length and, position by position, the
      pattern's character classes. */
  lemma {:induction false} ScanClasses(s: string, p: Pattern, f: DateTime, n: nat)
    ensures Scan(s, p, f).Some? ==> |s| == Len(p)
    ensures Scan(s, p, f).Some? && n < |s| && ClassAt(p, n) == Digit ==> IsDigit(s[n])
    ensures Scan(s, p, f).Some? && n < |s| && ClassAt(p, n).Char? ==> s[n] == ClassAt(p, n).c
  {
    if Scan(s, p, f).Some? {
      match p
      case End =>
      case Then(Lit(c), r) =>
        if n == 0 {
          ScanClasses(s[1..], r, f, 0);
        } else {
          ScanClasses(s[1..], r, f, n - 1);
        }
      case Then(Field(k), r) =>
        var w := WidthOf(k);
        if n < w {
          ScanClasses(s[w..], r, With(f, k, DigitsValue(s[..w])), 0);
          assert s[..w][n] == s[n];
        } else {
          ScanClasses(s[w..], r, With(f, k, DigitsValue(s[..w])), n - w);
        }
    }
  }

  /** The lengths of the seven patterns and their classes at positions 2 and 4, which tell every
      two of them apart. */
  const Lengths: seq<nat> := [16, 16, 16, 16, 10, 10, 10]
  const ClassesAt2: seq<Class> := [Digit, Digit, Char('/'), Char('-'), Digit, Char('/'), Char('-')]
  const ClassesAt4: seq<Class> := [Char('-'), Char('/'), Digit, Digit, Char('-'), Digit, Digit]

  lemma FormatClasses(i: nat)
    requires i < |Formats|
    ensures Len(Formats[i]) == Lengths[i]
    ensures ClassAt(Formats[i], 2) == ClassesAt2[i]
    ensures ClassAt(Formats[i], 4) == ClassesAt4[i]
  {
    assert i == 0 || i == 1 || i == 2 || i == 3 || i == 4 || i == 5 || i == 6;
  }

  /** What every accepted pattern names and that none has a digit literal or a repeated field. */
  lemma FormatFacts(i: nat)
    requires i < |Formats|
    ensures NoDigitLits(Formats[i]) && DistinctKinds(Formats[i])
    ensures Year in Names(Formats[i]) && Month in Names(Formats[i]) && Day in Names(Formats[i])
    ensures Hour in Names(Formats[i]) <==> i < 4
    ensures Minute in Names(Formats[i]) <==> i < 4
  {
    assert i == 0 || i == 1 || i == 2 || i == 3 || i == 4 || i == 5 || i == 6;
  }

  /** No text is accepted by two of the patterns, so the order in which they are tried never
      changes the result. */
  lemma FormatsExclusive(s: string, i: nat, j: nat)
    requires i < |Formats| && j < |Formats| && i != j
    requires ParseExact(s, Formats[i]).Some?
    ensures ParseExact(s, Formats[j]).None?
  {
    ScanAgrees(s, i, j);
  }

  /** Two different patterns never both scan the same text. */
  lemma ScanAgrees(s: string, i: nat, j: nat)
    requires i < |Formats| && j < |Formats|
    ensures Scan(s, Formats[i], Origin).Some? && Scan(s, Formats[j], Origin).Some? ==> i == j
  {
    FormatClasses(i);
    FormatClasses(j);
    ScanClasses(s, Formats[i], Origin, 2);
    ScanClasses(s, Formats[i], Origin, 4);
    ScanClasses(s, Formats[j], Origin, 2);
    ScanClasses(s, Formats[j], Origin, 4);
    assert i == 0 || i == 1 || i == 2 || i == 3 || i == 4 || i == 5 || i == 6;
    assert j == 0 || j == 1 || j == 2 || j == 3 || j == 4 || j == 5 || j == 6;
  }

  /** The earliest pattern that accepts the text decides the result. */
  lemma {:induction false} FirstMatchAt(s: string, fs: seq<Pattern>, i: nat)
    requires i < |fs| && ParseExact(s, fs[i]).Some?
    requires forall j :: 0 <= j < i ==> ParseExact(s, fs[j]).None?
    ensures FirstMatch(s, fs) == ParseExact(s, fs[i])
  {
    if i > 0 {
      assert ParseExact(s, fs[0]).None?;
      forall j | 0 <= j < i - 1 ensures ParseExact(s, fs[1..][j]).None? {
        assert fs[1..][j] == fs[j + 1];
      }
      FirstMatchAt(s, fs[1..], i - 1);
    }
  }

  /** No result at all means that no pattern accepts the text. */
  lemma {:induction false} FirstMatchNone(s: string, fs: seq<Pattern>)
    ensures FirstMatch(s, fs).None? <==> forall j :: 0 <= j < |fs| ==> ParseExact(s, fs[j]).None?
  {
    if fs != [] {
      FirstMatchNone(s, fs[1..]);
      if FirstMatch(s, fs).None? {
        forall j | 0 <= j < |fs| ensures ParseExact(s, fs[j]).None? {
          if j > 0 { assert fs[j] == fs[1..][j - 1]; }
        }
      } else if ParseExact(s, fs[0]).None? {
        var j :| 0 <= j < |fs[1..]| && ParseExact(s, fs[1..][j]).Some?;
        assert fs[1..][j] == fs[j + 1];
      }
    }
  }

  /** A text that one of the patterns accepts is read by that pattern. */
  lemma ParseDateAccepted(s: string, i: nat)
    requires i < |Formats| && ParseExact(s, Formats[i]).Some?
    ensures ParseDate(s) == ParseExact(s, Formats[i])
  {
    forall j | 0 <= j < i ensures ParseExact(s, Formats[j]).None? {
      FormatsExclusive(s, i, j);
    }
    FirstMatchAt(s, Formats, i);
  }

  lemma RenderedFormat(i: nat, d: DateTime)
    requires i < |Formats| && Fits(d)
    requires i >= 4 ==> d.hour == 0 && d.minute == 0
    ensures Scan(Render(Formats[i], d), Formats[i], Origin) == Some(d)
  {
    FormatFacts(i);
    forall k | k !in Names(Formats[i]) ensures Get(Origin, k) == Get(d, k) {
      assert k == Hour || k == Minute;
    }
    ScanRender(Formats[i], d, Origin);
  }

  /** Each of the seven patterns accepts the rendering of any field values that fit its widths
      exactly when they form an existing date; a date-only pattern yields midnight. */
  lemma ParseRendered(i: nat, d: DateTime)
    requires i < |Formats| && Fits(d)
    requires i >= 4 ==> d.hour == 0 && d.minute == 0
    ensures ParseDate(Render(Formats[i], d)) == if Valid(d) then Some(d) else None
  {
    RenderedFormat(i, d);
    if Valid(d) {
      ParseDateAccepted(Render(Formats[i], d), i);
    } else {
      RejectedEverywhere(Render(Formats[i], d), i);
    }
  }

  /** A text that one pattern scans to an invalid date is read by none. */
  lemma RejectedEverywhere(s: string, i: nat)
    requires i < |Formats|
    requires Scan(s, Formats[i], Origin).Some? && !Valid(Scan(s, Formats[i], Origin).value)
    ensures ParseDate(s).None?
  {
    forall j | 0 <= j < |Formats| ensures ParseExact(s, Formats[j]).None? {
      ScanAgrees(s, i, j);
    }
    FirstMatchNone(s, Formats);
  }

  /** Round trip one way: every DateTime the program can hold, rendered as in the listings, is
      read back by the date reader as that same DateTime. */
  lemma FormatThenParse(d: DateTime)
    requires Valid(d)
    ensures ParseDate(FormatFecha(d)) == Some(d)
  {
    assert Formats[0] == YmdHmDash;
    ParseRendered(0, d);
  }

  /** The same round trip through one attempt of LeerFecha: a rendered date has digits at both
      ends, so Trim keeps it whole, and the first exact pattern accepts it before the fallback is
      ever consulted, whatever the fallback would say. */
  lemma FormatThenRead(d: DateTime, fallback: string -> Option<DateTime>)
    requires Valid(d)
    ensures ReadDate(Some(FormatFecha(d)), fallback) == Some(d)
  {
    var s := FormatFecha(d);
    FormatThenParse(d);
    RenderedFormat(0, d);
    assert Formats[0] == YmdHmDash;
    ScanClasses(s, YmdHmDash, Origin, 0);
    ScanClasses(s, YmdHmDash, Origin, 15);
    TrimPadded([], s, []);
    assert [] + s + [] == s;
  }

  /** Round trip the other way: a text in "yyyy-MM-dd HH:mm" form that names an existing date is
      accepted by the first pattern and is rendered back as the very same text. */
  lemma ParseThenFormat(s: string)
    requires ParseExact(s, YmdHmDash).Some?
    ensures ParseDate(s) == ParseExact(s, YmdHmDash)
    ensures FormatFecha(ParseDate(s).value) == s
  {
    FirstMatchAt(s, Formats, 0);
    assert DistinctKinds(YmdHmDash);
    RenderScan(s, YmdHmDash, Origin);
  }

  /** A date-only pattern yields midnight of the date it reads. */
  lemma DateOnlyIsMidnight(s: string, i: nat)
    requires 4 <= i < |Formats|
    requires ParseExact(s, Formats[i]).Some?
    ensures ParseDate(s) == ParseExact(s, Formats[i])
    ensures ParseDate(s).value.hour == 0 && ParseDate(s).value.minute == 0
  {
    var p := Formats[i];
    FormatFacts(i);
    ScanKeeps(s, p, Origin, Hour);
    ScanKeeps(s, p, Origin, Minute);
    ParseDateAccepted(s, i);
  }

  /** The date the booking prompt gives as its example, "2025-10-15 14:30", is read as that minute and listed as the
      same text. */
  lemma OctoberExample()
    ensures ParseDate("2025-10-15 14:30") == Some(DateTime(2025, 10, 15, 14, 30))
    ensures FormatFecha(DateTime(2025, 10, 15, 14, 30)) == "2025-10-15 14:30"
  {
    var d := DateTime(2025, 10, 15, 14, 30);
    assert Render(Formats[0], d) == "2025-10-15 14:30";
    ParseRendered(0, d);
  }

  /** Example: the date-only "15/10/2025" is midnight of 2025-10-15. */
  lemma MidnightExample()
    ensures ParseDate("15/10/2025") == Some(DateTime(2025, 10, 15, 0, 0))
  {
    var d := DateTime(2025, 10, 15, 0, 0);
    assert Render(Formats[5], d) == "15/10/2025";
    ParseRendered(5, d);
  }

  /** A day that does not exist is refused whatever the pattern: 2023 is not a leap year. */
  lemma NoSuchDayExample()
    ensures ParseDate("29/02/2023") == None
  {
    var d := DateTime(2023, 2, 29, 0, 0);
    assert Render(Formats[5], d) == "29/02/2023";
    ParseRendered(5, d);
  }

  /** A thirteenth month is refused even in the first pattern. */
  lemma MonthThirteenExample()
    ensures ParseDate("2025-13-01 10:00") == None
  {
    var d := DateTime(2025, 13, 1, 10, 0);
    assert Render(Formats[0], d) == "2025-13-01 10:00";
    ParseRendered(0, d);
  }

  /** The thirtieth of February is refused, leap year or not. */
  lemma FebruaryThirtyExample()
    ensures ParseDate("2024-02-30") == None
  {
    var d := DateTime(2024, 2, 30, 0, 0);
    assert Render(Formats[4], d) == "2024-02-30";
    ParseRendered(4, d);
  }

  /** TryParseExact with the seven patterns: it fails exactly when every pattern refuses the text,
      and otherwise any pattern that accepts the text gives the result, wherever it stands in the
      list. */
  lemma ParseDateMeans(s: string)
    ensures ParseDate(s).None? <==> forall i :: 0 <= i < |Formats| ==> ParseExact(s, Formats[i]).None?
    ensures forall i :: 0 <= i < |Formats| && ParseExact(s, Formats[i]).Some? ==>
              ParseDate(s) == ParseExact(s, Formats[i])
  {
    FirstMatchNone(s, Formats);
    forall i | 0 <= i < |Formats| && ParseExact(s, Formats[i]).Some?
      ensures ParseDate(s) == ParseExact(s, Formats[i])
    {
      ParseDateAccepted(s, i);
    }
  }

  /** One attempt of LeerFecha on a present line: any of the seven patterns that accepts the
      trimmed text decides the result, wherever it stands in the list, and the fallback decides
      only when every pattern refuses the text. */
  lemma ReadDateMeans(line: Line, fallback: string -> Option<DateTime>)
    ensures forall i :: line.Some? && 0 <= i < |Formats| && ParseExact(Trim(line.value), Formats[i]).Some? ==>
              ReadDate(line, fallback) == ParseExact(Trim(line.value), Formats[i])
    ensures line.Some? && (forall i :: 0 <= i < |Formats| ==> ParseExact(Trim(line.value), Formats[i]).None?) ==>
              ReadDate(line, fallback) == fallback(Trim(line.value))
  {
    if line.Some? {
      var t := Trim(line.value);
      forall i | 0 <= i < |Formats| && ParseExact(t, Formats[i]).Some?
        ensures ReadDate(line, fallback) == ParseExact(t, Formats[i])
      {
        ParseDateAccepted(t, i);
      }
      FirstMatchNone(t, Formats);
    }
  }
}
