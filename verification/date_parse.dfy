/** `parse_date`: the multi-format expiry-date parser.

    Each accepted format is a sequence of directives. `datetime.strptime`
    compiles a format to a case-insensitive regular expression that must match
    the whole string, then builds a `datetime`, raising `ValueError` on either
    failure. In all four formats every numeric field is followed by a non-digit
    literal or by the end of the string, so a field matches exactly when the
    maximal digit run at its position has a width and value its pattern admits;
    that is how `ReadField` states it. */
module DateParse {
  import opened Wrappers
  import opened Text
  import opened Dates

  /** The strptime directives the four formats use: `%m`, `%d`, `%Y`, `%y`,
      `%H`, `%M`, `%S`. */
  datatype Field = Month | Day | FullYear | ShortYear | Hour | Minute | Second

  datatype Directive = Lit(c: char) | Num(field: Field)

  type Format = seq<Directive>

  /** `%m/%d/%Y` */
  const MonthDayFullYear: Format :=
    [Num(Month), Lit('/'), Num(Day), Lit('/'), Num(FullYear)]

  /** `%m/%d/%y` */
  const MonthDayShortYear: Format :=
    [Num(Month), Lit('/'), Num(Day), Lit('/'), Num(ShortYear)]

  /** `%Y-%m-%dT%H:%M:%S` */
  const IsoDateTime: Format :=
    [Num(FullYear), Lit('-'), Num(Month), Lit('-'), Num(Day), Lit('T'),
     Num(Hour), Lit(':'), Num(Minute), Lit(':'), Num(Second)]

  /** `%Y-%m-%d` */
  const IsoDate: Format :=
    [Num(FullYear), Lit('-'), Num(Month), Lit('-'), Num(Day)]

  /** The formats `parse_date` tries, in the order it tries them. */
  const Formats: seq<Format> := [MonthDayFullYear, MonthDayShortYear, IsoDateTime, IsoDate]

  /** The values a match has collected so far; a field the format does not
      mention keeps strptime's default (1900-01-01 00:00:00). */
  datatype Fields = Fields(year: int, month: int, day: int, hour: int, minute: int, second: int)

  const Unset := Fields(1900, 1, 1, 0, 0, 0)

  /** A field value and the number of characters it consumed. */
  datatype Token = Token(value: int, width: nat)

  /** Smallest and largest value the one- or two-digit pattern of a field
      admits: `%m` 1-12, `%d` 1-31, `%H` 0-23, `%M` 0-59, `%S` 0-61. */
  function Low(f: Field): int {
    if f == Month || f == Day then 1 else 0
  }

  function High(f: Field): int {
    match f
    case Month => 12
    case Day => 31
    case Hour => 23
    case Minute => 59
    case Second => 61
    case _ => 9999
  }

  /** The year a two-digit `%y` denotes: 69-99 are 1969-1999, 00-68 are
      2000-2068. */
  function ExpandShortYear(v: nat): (y: int)
    requires v < 100
    ensures 1969 <= y <= 2068 && y % 100 == v
  {
    if v <= 68 then v + 2000 else v + 1900
  }

  /** Reads one numeric field at the start of `s`. `%Y` takes exactly four
      digits, `%y` exactly two, the others one or two within their range;
      `%d` also admits a space followed by a single non-zero digit. */
  function ReadField(f: Field, s: string): (r: Option<Token>)
    ensures r.Some? ==> 0 < r.value.width <= |s|
    ensures r.Some? ==> r.value.width == |s| || !IsDigit(s[r.value.width])
    ensures r.Some? && f == FullYear ==> 0 <= r.value.value <= 9999
    ensures r.Some? && f == ShortYear ==> 1969 <= r.value.value <= 2068
    ensures r.Some? && f != FullYear && f != ShortYear ==> Low(f) <= r.value.value <= High(f)
  {
    if f == Day && |s| >= 2 && s[0] == ' ' && '1' <= s[1] <= '9' && DigitRun(s[1..]) == 1 then
      Some(Token(DigitValue(s[1]), 2))
    else
      var n := DigitRun(s);
      match f
      case FullYear =>
        if n == 4 then
          ValueBound(s[..4]);
          assert Pow10(4) == 10000;
          Some(Token(Value(s[..4]), 4))
        else
          None
      case ShortYear =>
        if n == 2 then
          ValueBound(s[..2]);
          assert Pow10(2) == 100;
          Some(Token(ExpandShortYear(Value(s[..2])), 2))
        else
          None
      case _ =>
        if 1 <= n <= 2 && Low(f) <= Value(s[..n]) <= High(f) then Some(Token(Value(s[..n]), n))
        else None
  }

  /** What `ReadField` accepts and the value it reads: a year field needs a
      digit run of exactly its width and reads its value (`%y` through the
      pivot); the other fields read a run of one or two digits whose value is
      in range, or, for `%d` only, a space and a single digit 1-9. */
  lemma ReadFieldValue(f: Field, s: string)
    ensures var r := ReadField(f, s);
      && (f == FullYear || f == ShortYear ==> (r.Some? <==> DigitRun(s) == Width(f)))
      && (r.Some? && f == FullYear ==> r.value.width == 4 && r.value.value == Value(s[..4]))
      && (r.Some? && f == ShortYear ==>
            r.value.width == 2 && Value(s[..2]) < 100 && r.value.value == ExpandShortYear(Value(s[..2])))
      && (f != FullYear && f != ShortYear && (|s| == 0 || s[0] != ' ') ==>
            (r.Some? <==> 1 <= DigitRun(s) <= 2 && Low(f) <= Value(s[..DigitRun(s)]) <= High(f)))
      && (r.Some? && f != ShortYear && s[0] != ' ' ==>
            r.value.width == DigitRun(s) && r.value.value == Value(s[..r.value.width]))
      && (|s| > 0 && s[0] == ' ' ==>
            (r.Some? <==> f == Day && |s| >= 2 && '1' <= s[1] <= '9' && DigitRun(s[1..]) == 1))
      && (r.Some? && s[0] == ' ' ==> r.value.width == 2 && IsDigit(s[1]) && r.value.value == DigitValue(s[1]))
  {
    PowersOfTen();
  }

  function Store(acc: Fields, f: Field, v: int): Fields {
    match f
    case Month => acc.(month := v)
    case Day => acc.(day := v)
    case FullYear => acc.(year := v)
    case ShortYear => acc.(year := v)
    case Hour => acc.(hour := v)
    case Minute => acc.(minute := v)
    case Second => acc.(second := v)
  }

  /** The regular expression is compiled with `re.IGNORECASE`, so a letter
      literal matches either case. */
  predicate LiteralMatches(c: char, lit: char) {
    c == lit || ('A' <= lit <= 'Z' && c as int == lit as int + 32)
  }

  /** Matches the directives of `fmt` from index `i` against the whole of `s`. */
  function Match(fmt: Format, i: nat, s: string, acc: Fields): Option<Fields>
    requires i <= |fmt|
    decreases |fmt| - i
  {
    if i == |fmt| then
      if |s| == 0 then Some(acc) else None
    else
      match fmt[i]
      case Lit(c) =>
        if |s| > 0 && LiteralMatches(s[0], c) then Match(fmt, i + 1, s[1..], acc) else None
      case Num(f) =>
        match ReadField(f, s)
        case None => None
        case Some(t) => Match(fmt, i + 1, s[t.width..], Store(acc, f, t.value))
  }

  /** `datetime.strptime(s, fmt)`: `None` where it raises `ValueError`, either
      because the string does not match or because the matched fields do not
      form a real date-time (a 31st of April, a second of 60, year 0). */
  function Strptime(s: string, fmt: Format): (r: Option<ValidDateTime>)
    ensures r.Some? ==> r.value.micro == 0
  {
    match Match(fmt, 0, s, Unset)
    case None => None
    case Some(f) =>
      var d := DateTime(f.year, f.month, f.day, f.hour, f.minute, f.second, 0);
      if Valid(d) then Some(d) else None
  }

  /** The result of the first format in `fmts` that parses `s`, as the loop in
      `parse_date` returns from inside its `try`. */
  function FirstMatch(s: string, fmts: seq<Format>): (r: Option<ValidDateTime>)
    ensures r.None? <==> forall j :: 0 <= j < |fmts| ==> Strptime(s, fmts[j]).None?
    ensures r.Some? ==> exists i :: 0 <= i < |fmts| && Strptime(s, fmts[i]) == r
                                   && forall j :: 0 <= j < i ==> Strptime(s, fmts[j]).None?
  {
    if |fmts| == 0 then
      None
    else
      var first := Strptime(s, fmts[0]);
      if first.Some? then
        first
      else
        var r := FirstMatch(s, fmts[1..]);
        assert forall j :: 1 <= j < |fmts| ==> fmts[j] == fmts[1..][j - 1];
        if r.Some? then
          var i :| 0 <= i < |fmts[1..]| && Strptime(s, fmts[1..][i]) == r
                  && forall j :: 0 <= j < i ==> Strptime(s, fmts[1..][j]).None?;
          assert Strptime(s, fmts[i + 1]) == r;
          r
        else
          r
  }

  /** `parse_date`: an absent or empty string gives `None`; otherwise the first
      of the four formats that parses the string decides the result, and a
      string no format parses gives `None`. It never fails. */
  function ParseDate(s: Option<string>): (r: Option<ValidDateTime>)
    ensures s.None? || s == Some("") ==> r.None?
    ensures r.Some? ==> r.value.micro == 0
    ensures s.Some? && s.value != "" ==>
      (r.None? <==> forall j :: 0 <= j < |Formats| ==> Strptime(s.value, Formats[j]).None?)
    ensures r.Some? ==> exists i :: 0 <= i < |Formats| && Strptime(s.value, Formats[i]) == r
                                   && forall j :: 0 <= j < i ==> Strptime(s.value, Formats[j]).None?
  {
    if s.None? || s.value == "" then None else FirstMatch(s.value, Formats)
  }

  /** Width in which a field is rendered zero-padded: four digits for `%Y`,
      two for every other field. */
  function Width(f: Field): nat {
    if f == FullYear then 4 else 2
  }

  lemma PowersOfTen()
    ensures Pow10(2) == 100 && Pow10(4) == 10000
  {
    assert Pow10(1) == 10;
    assert Pow10(3) == 1000;
  }

  /** A zero-padded field followed by a non-digit reads back as its value. */
  lemma ReadPadded(f: Field, v: nat, rest: string)
    requires f != ShortYear
    requires if f == FullYear then v <= 9999 else Low(f) <= v <= High(f) && v < 100
    requires v < Pow10(Width(f))
    requires |rest| == 0 || !IsDigit(rest[0])
    ensures ReadField(f, Pad(v, Width(f)) + rest) == Some(Token(v, Width(f)))
  {
    PowersOfTen();
    DigitRunOfPrefix(Pad(v, Width(f)), rest);
  }

  /** A field rendered without padding, as `str(v)`, followed by a non-digit
      reads back as its value: `%m`, `%d`, `%H`, `%M` and `%S` admit one digit. */
  lemma ReadUnpadded(f: Field, v: nat, rest: string)
    requires f != FullYear && f != ShortYear
    requires Low(f) <= v <= High(f)
    requires |rest| == 0 || !IsDigit(rest[0])
    ensures ReadField(f, NatToString(v) + rest) == Some(Token(v, |NatToString(v)|))
  {
    PowersOfTen();
    NatToStringLength(v, 2);
    DigitRunOfPrefix(NatToString(v), rest);
  }

  /** A field of `digits` followed by a non-digit fails when the run has a
      width the field does not admit. */
  lemma ReadWrongWidth(f: Field, digits: string, rest: string)
    requires |digits| > 0 && AllDigits(digits)
    requires |rest| == 0 || !IsDigit(rest[0])
    requires if f == FullYear then |digits| != 4 else if f == ShortYear then |digits| != 2 else |digits| > 2
    ensures ReadField(f, digits + rest).None?
  {
    DigitRunOfPrefix(digits, rest);
  }

  lemma MatchLiteral(fmt: Format, i: nat, c: char, rest: string, acc: Fields)
    requires i < |fmt| && fmt[i] == Lit(c)
    ensures Match(fmt, i, [c] + rest, acc) == Match(fmt, i + 1, rest, acc)
  {
    assert ([c] + rest)[1..] == rest;
  }

  lemma MatchField(fmt: Format, i: nat, f: Field, digits: string, rest: string, acc: Fields, v: int)
    requires i < |fmt| && fmt[i] == Num(f)
    requires ReadField(f, digits + rest) == Some(Token(v, |digits|))
    ensures Match(fmt, i, digits + rest, acc) == Match(fmt, i + 1, rest, Store(acc, f, v))
  {
    assert (digits + rest)[|digits|..] == rest;
  }

  /** `%Y-%m-%d` rendered zero-padded, the prefix of both ISO formats. */
  function IsoDateText(d: ValidDateTime): string {
    PowersOfTen();
    Pad(d.year, 4) + ("-" + (Pad(d.month, 2) + ("-" + Pad(d.day, 2))))
  }

  /** `%m/%d/` rendered zero-padded, the prefix of both month-first formats. */
  function MonthDayText(d: ValidDateTime): string {
    PowersOfTen();
    Pad(d.month, 2) + "/" + Pad(d.day, 2) + "/"
  }

  /** `d` as `%m/%d/%Y`. */
  function MonthDayFullYearText(d: ValidDateTime): string {
    PowersOfTen();
    MonthDayText(d) + Pad(d.year, 4)
  }

  /** `d` as `%m/%d/%y`; only years 1969-2068 have such a rendering that reads back. */
  function MonthDayShortYearText(d: ValidDateTime): string {
    PowersOfTen();
    MonthDayText(d) + Pad(d.year % 100, 2)
  }

  /** `d` as `%Y-%m-%dT%H:%M:%S`. */
  function IsoDateTimeText(d: ValidDateTime): string {
    PowersOfTen();
    IsoDateText(d) + TimeText(d)
  }

  /** The date of `d` with the time of day set to midnight. */
  function Midnight(d: ValidDateTime): ValidDateTime {
    d.(hour := 0, minute := 0, second := 0, micro := 0)
  }

  lemma {:induction false} MatchIsoDatePrefix(fmt: Format, d: ValidDateTime, rest: string)
    requires |fmt| >= 5 && fmt[..5] == IsoDate
    requires |rest| == 0 || !IsDigit(rest[0])
    ensures Match(fmt, 0, IsoDateText(d) + rest, Unset)
         == Match(fmt, 5, rest, Unset.(year := d.year, month := d.month, day := d.day))
  {
    PowersOfTen();
    var yy, mm, dd := Pad(d.year, 4), Pad(d.month, 2), Pad(d.day, 2);
    assert fmt[0] == Num(FullYear) && fmt[1] == Lit('-') && fmt[2] == Num(Month)
        && fmt[3] == Lit('-') && fmt[4] == Num(Day) by {
      assert forall k :: 0 <= k < 5 ==> fmt[k] == fmt[..5][k];
    }
    var r4 := dd + rest;
    var r3 := "-" + r4;
    var r2 := mm + r3;
    var r1 := "-" + r2;
    assert IsoDateText(d) + rest == yy + r1;
    var f1 := Unset.(year := d.year);
    var f2 := f1.(month := d.month);
    assert ReadField(FullYear, yy + r1) == Some(Token(d.year, |yy|)) by {
      ReadPadded(FullYear, d.year, r1);
    }
    assert ReadField(Month, mm + r3) == Some(Token(d.month, |mm|)) by {
      ReadPadded(Month, d.month, r3);
    }
    assert ReadField(Day, dd + rest) == Some(Token(d.day, |dd|)) by {
      ReadPadded(Day, d.day, rest);
    }
    MatchField(fmt, 0, FullYear, yy, r1, Unset, d.year);
    MatchLiteral(fmt, 1, '-', r2, f1);
    MatchField(fmt, 2, Month, mm, r3, f1, d.month);
    MatchLiteral(fmt, 3, '-', r4, f2);
    MatchField(fmt, 4, Day, dd, rest, f2, d.day);
  }


  lemma {:induction false} MatchMonthDayPrefix(fmt: Format, d: ValidDateTime, rest: string)
    requires |fmt| >= 4 && fmt[..4] == MonthDayFullYear[..4]
    ensures Match(fmt, 0, MonthDayText(d) + rest, Unset)
         == Match(fmt, 4, rest, Unset.(month := d.month, day := d.day))
  {
    PowersOfTen();
    var mm, dd := Pad(d.month, 2), Pad(d.day, 2);
    assert fmt[0] == Num(Month) && fmt[1] == Lit('/') && fmt[2] == Num(Day)
        && fmt[3] == Lit('/') by {
      assert forall k :: 0 <= k < 4 ==> fmt[k] == fmt[..4][k];
    }
    var r3 := "/" + rest;
    var r2 := dd + r3;
    var r1 := "/" + r2;
    assert MonthDayText(d) + rest == mm + r1;
    var f1 := Unset.(month := d.month);
    ReadPadded(Month, d.month, r1);
    MatchField(fmt, 0, Month, mm, r1, Unset, d.month);
    MatchLiteral(fmt, 1, '/', r2, f1);
    ReadPadded(Day, d.day, r3);
    MatchField(fmt, 2, Day, dd, r3, f1, d.day);
    MatchLiteral(fmt, 3, '/', rest, f1.(day := d.day));
  }

  /** Reading back a date printed as `%Y-%m-%d` gives that date at midnight. */
  lemma {:induction false} IsoDateRoundTrip(d: ValidDateTime)
    ensures ParseDate(Some(IsoDateText(d))) == Some(Midnight(d))
  {
    var s := IsoDateText(d);
    assert s + "" == s;
    IsoPrefixRejectsMonthFirst(d, "");
    MatchIsoDatePrefix(IsoDateTime, d, "");
    assert Strptime(s, Formats[2]).None?;
    MatchIsoDatePrefix(IsoDate, d, "");
    assert Strptime(s, Formats[3]) == Some(Midnight(d));
  }

  /** Reading back a date printed as `%m/%d/%Y` gives that date at midnight:
      the first format accepts it. */
  lemma {:induction false} MonthDayFullYearRoundTrip(d: ValidDateTime)
    ensures ParseDate(Some(MonthDayFullYearText(d))) == Some(Midnight(d))
  {
    PowersOfTen();
    var s := MonthDayFullYearText(d);
    MatchMonthDayPrefix(MonthDayFullYear, d, Pad(d.year, 4));
    assert Pad(d.year, 4) + "" == Pad(d.year, 4);
    ReadPadded(FullYear, d.year, "");
    MatchField(MonthDayFullYear, 4, FullYear, Pad(d.year, 4), "",
               Unset.(month := d.month, day := d.day), d.year);
    assert Strptime(s, Formats[0]) == Some(Midnight(d));
  }

  /** The first format reads `mm/dd/yyyy` as a date at midnight when each
      piece reads back as its field of `d`. */
  lemma {:induction false} MatchMonthDayFullYear(mm: string, dd: string, yy: string, d: ValidDateTime)
    requires ReadField(Month, mm + ("/" + (dd + ("/" + yy)))) == Some(Token(d.month, |mm|))
    requires ReadField(Day, dd + ("/" + yy)) == Some(Token(d.day, |dd|))
    requires ReadField(FullYear, yy) == Some(Token(d.year, |yy|))
    ensures ParseDate(Some(mm + ("/" + (dd + ("/" + yy))))) == Some(Midnight(d))
  {
    var r3 := "/" + yy;
    var r2 := dd + r3;
    var r1 := "/" + r2;
    var f1 := Unset.(month := d.month);
    var f2 := f1.(day := d.day);
    var fmt := MonthDayFullYear;
    MatchField(fmt, 0, Month, mm, r1, Unset, d.month);
    MatchLiteral(fmt, 1, '/', r2, f1);
    MatchField(fmt, 2, Day, dd, r3, f1, d.day);
    MatchLiteral(fmt, 3, '/', yy, f2);
    assert yy + "" == yy;
    MatchField(fmt, 4, FullYear, yy, "", f2, d.year);
    assert Strptime(mm + r1, Formats[0]) == Some(Midnight(d));
  }

  /** `%m/%d/%Y` with month and day printed without zero padding, as in
      `1/5/2024`. */
  function UnpaddedMonthDayText(d: ValidDateTime): string {
    PowersOfTen();
    NatToString(d.month) + ("/" + (NatToString(d.day) + ("/" + Pad(d.year, 4))))
  }

  /** The one-digit alternatives of `%m` and `%d` let the first format read
      an unpadded month and day back to that date at midnight. */
  lemma {:induction false} UnpaddedMonthDayRoundTrip(d: ValidDateTime)
    ensures ParseDate(Some(UnpaddedMonthDayText(d))) == Some(Midnight(d))
  {
    PowersOfTen();
    var mm, dd, yy := NatToString(d.month), NatToString(d.day), Pad(d.year, 4);
    ReadUnpadded(Month, d.month, "/" + (dd + ("/" + yy)));
    ReadUnpadded(Day, d.day, "/" + yy);
    assert yy + "" == yy;
    ReadPadded(FullYear, d.year, "");
    MatchMonthDayFullYear(mm, dd, yy, d);
  }

  /** `%d`'s space alternative: a space and one digit 1-9, followed by a
      non-digit, reads back as that day. */
  lemma ReadSpaceDay(v: nat, rest: string)
    requires 1 <= v <= 9
    requires |rest| == 0 || !IsDigit(rest[0])
    ensures ReadField(Day, [' ', DigitChar(v)] + rest) == Some(Token(v, 2))
  {
    var s := [' ', DigitChar(v)] + rest;
    assert s[1..] == [DigitChar(v)] + rest;
    DigitRunOfPrefix([DigitChar(v)], rest);
    ReadFieldValue(Day, s);
  }

  /** `%m/%d/%Y` with the day written as a space and one digit, as the C
      library's `%e` renders days 1-9. */
  function SpacePaddedDayText(d: ValidDateTime): string
    requires d.day <= 9
  {
    PowersOfTen();
    Pad(d.month, 2) + ("/" + ([' ', DigitChar(d.day)] + ("/" + Pad(d.year, 4))))
  }

  /** A space-padded day reads back through the first format: "01/ 5/2024" is
      the fifth of January 2024 at midnight. */
  lemma {:induction false} SpacePaddedDayRoundTrip(d: ValidDateTime)
    requires d.day <= 9
    ensures ParseDate(Some(SpacePaddedDayText(d))) == Some(Midnight(d))
  {
    PowersOfTen();
    var mm, dd, yy := Pad(d.month, 2), [' ', DigitChar(d.day)], Pad(d.year, 4);
    ReadPadded(Month, d.month, "/" + (dd + ("/" + yy)));
    ReadSpaceDay(d.day, "/" + yy);
    assert yy + "" == yy;
    ReadPadded(FullYear, d.year, "");
    MatchMonthDayFullYear(mm, dd, yy, d);
  }

  lemma ReadShortYear(v: nat, rest: string)
    requires v < 100 == Pow10(2)
    requires |rest| == 0 || !IsDigit(rest[0])
    ensures ReadField(ShortYear, Pad(v, 2) + rest) == Some(Token(ExpandShortYear(v), 2))
  {
    PowersOfTen();
    DigitRunOfPrefix(Pad(v, 2), rest);
  }

  /** Reading back a date printed as `%m/%d/%y` gives that date at midnight,
      for the years 1969-2068 the two-digit pivot maps back to; the first
      format rejects the two-digit year and the second accepts it. */
  lemma {:induction false} MonthDayShortYearRoundTrip(d: ValidDateTime)
    requires 1969 <= d.year <= 2068
    ensures ParseDate(Some(MonthDayShortYearText(d))) == Some(Midnight(d))
  {
    var s := MonthDayShortYearText(d);
    ShortYearRejectedByFullYear(d);
    ShortYearReadByShortYear(d);
    assert FirstMatch(s, Formats[1..]) == Some(Midnight(d));
  }

  /** `%m/%d/%Y` needs four year digits, so a two-digit year fails the first format. */
  lemma {:induction false} ShortYearRejectedByFullYear(d: ValidDateTime)
    ensures Strptime(MonthDayShortYearText(d), Formats[0]).None?
  {
    PowersOfTen();
    var yy := Pad(d.year % 100, 2);
    assert yy + "" == yy;
    MatchMonthDayPrefix(MonthDayFullYear, d, yy);
    ReadWrongWidth(FullYear, yy, "");
  }

  /** `%m/%d/%y` reads the two-digit year back through the pivot. */
  lemma {:induction false} ShortYearReadByShortYear(d: ValidDateTime)
    requires 1969 <= d.year <= 2068
    ensures Strptime(MonthDayShortYearText(d), Formats[1]) == Some(Midnight(d))
  {
    PowersOfTen();
    var s := MonthDayShortYearText(d);
    var yy := Pad(d.year % 100, 2);
    assert yy + "" == yy;
    assert ExpandShortYear(d.year % 100) == d.year;
    var f := Unset.(month := d.month, day := d.day);
    MatchMonthDayPrefix(MonthDayShortYear, d, yy);
    ReadShortYear(d.year % 100, "");
    MatchField(MonthDayShortYear, 4, ShortYear, yy, "", f, d.year);
    assert Match(MonthDayShortYear, 0, s, Unset) == Some(f.(year := d.year));
  }

  /** `T%H:%M:%S` rendered zero-padded. */
  function TimeText(d: ValidDateTime): string {
    PowersOfTen();
    "T" + (Pad(d.hour, 2) + (":" + (Pad(d.minute, 2) + (":" + Pad(d.second, 2)))))
  }

  lemma {:induction false} MatchTimeSuffix(d: ValidDateTime, acc: Fields)
    ensures Match(IsoDateTime, 5, TimeText(d), acc)
         == Some(acc.(hour := d.hour, minute := d.minute, second := d.second))
  {
    PowersOfTen();
    var hh, mi, ss := Pad(d.hour, 2), Pad(d.minute, 2), Pad(d.second, 2);
    assert ReadField(Hour, hh + (":" + (mi + (":" + ss)))) == Some(Token(d.hour, |hh|)) by {
      ReadPadded(Hour, d.hour, ":" + (mi + (":" + ss)));
    }
    assert ReadField(Minute, mi + (":" + ss)) == Some(Token(d.minute, |mi|)) by {
      ReadPadded(Minute, d.minute, ":" + ss);
    }
    assert ReadField(Second, ss + "") == Some(Token(d.second, |ss|)) by {
      ReadPadded(Second, d.second, "");
    }
    MatchClock(IsoDateTime, 5, hh, mi, ss, acc, d.hour, d.minute, d.second);
  }


  /** Steps through `T%H:%M:%S` at index `i` of a format, given that each
      field reads back its value. */
  lemma {:induction false} MatchClock(fmt: Format, i: nat, hh: string, mi: string, ss: string,
                                      acc: Fields, h: int, m: int, sec: int)
    requires i + 6 == |fmt|
    requires fmt[i] == Lit('T') && fmt[i + 1] == Num(Hour) && fmt[i + 2] == Lit(':')
    requires fmt[i + 3] == Num(Minute) && fmt[i + 4] == Lit(':') && fmt[i + 5] == Num(Second)
    requires ReadField(Hour, hh + (":" + (mi + (":" + ss)))) == Some(Token(h, |hh|))
    requires ReadField(Minute, mi + (":" + ss)) == Some(Token(m, |mi|))
    requires ReadField(Second, ss + "") == Some(Token(sec, |ss|))
    ensures Match(fmt, i, "T" + (hh + (":" + (mi + (":" + ss)))), acc)
         == Some(acc.(hour := h, minute := m, second := sec))
  {
    var f6 := acc.(hour := h);
    var f7 := f6.(minute := m);
    MatchLiteral(fmt, i, 'T', hh + (":" + (mi + (":" + ss))), acc);
    MatchField(fmt, i + 1, Hour, hh, ":" + (mi + (":" + ss)), acc, h);
    MatchLiteral(fmt, i + 2, ':', mi + (":" + ss), f6);
    MatchField(fmt, i + 3, Minute, mi, ":" + ss, f6, m);
    MatchLiteral(fmt, i + 4, ':', ss, f7);
    MatchField(fmt, i + 5, Second, ss, "", f7, sec);
    assert ss + "" == ss;
  }

  /** A string that starts with a four-digit year and a dash is rejected by
      both month-first formats: their leading `%m` admits at most two digits. */
  lemma {:induction false} IsoPrefixRejectsMonthFirst(d: ValidDateTime, rest: string)
    ensures Strptime(IsoDateText(d) + rest, MonthDayFullYear).None?
    ensures Strptime(IsoDateText(d) + rest, MonthDayShortYear).None?
  {
    PowersOfTen();
    var yy := Pad(d.year, 4);
    var tail := "-" + (Pad(d.month, 2) + ("-" + Pad(d.day, 2))) + rest;
    assert IsoDateText(d) + rest == yy + tail;
    ReadWrongWidth(Month, yy, tail);
  }

  /** Reading back a date-time printed as `%Y-%m-%dT%H:%M:%S` gives that
      date-time to the second. */
  lemma {:induction false} IsoDateTimeRoundTrip(d: ValidDateTime)
    ensures ParseDate(Some(IsoDateTimeText(d))) == Some(d.(micro := 0))
  {
    var s := IsoDateTimeText(d);
    IsoPrefixRejectsMonthFirst(d, TimeText(d));
    MatchIsoDatePrefix(IsoDateTime, d, TimeText(d));
    MatchTimeSuffix(d, Unset.(year := d.year, month := d.month, day := d.day));
    assert Strptime(s, Formats[2]) == Some(d.(micro := 0));
  }

  /** Every accepted format begins with a numeric field that needs a digit in
      first position, so a string that does not start with a digit parses to
      `None`. */
  lemma NonDigitStartUnparseable(s: string)
    requires |s| > 0 && !IsDigit(s[0])
    ensures ParseDate(Some(s)).None?
  {
    assert DigitRun(s) == 0;
    assert forall j :: 0 <= j < |Formats| ==> Formats[j][0] == Num(Month) || Formats[j][0] == Num(FullYear);
    forall j | 0 <= j < |Formats|
      ensures Strptime(s, Formats[j]).None?
    {
      assert ReadField(Formats[j][0].field, s).None?;
    }
  }
}
