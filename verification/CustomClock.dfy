/** The clock and date widget (src/components/base/customClock.jsx): the
    `DD-MM-YYYY` branch that builds its text by hand, and the mapping from a
    format name to the options handed to `Intl.DateTimeFormat` for every
    other format. The date is given as its calendar fields; what `Intl`
    prints is not modelled. */
module CustomClock {
  import opened Wrappers
  import opened Strings

  /** `getDate()`, `getMonth()` (0-based) and `getFullYear()` of the time shown. */
  datatype DateParts = DateParts(day: int, month0: int, year: int)

  /** A calendar date in the range the round trip holds for. */
  predicate ValidDate(t: DateParts) {
    1 <= t.day <= 31 && 0 <= t.month0 <= 11 && t.year >= 0
  }

  const HandFormat: string := "DD-MM-YYYY"

  /** `n.toString().padStart(2, '0')` */
  function Pad2(n: int): (r: string)
    ensures 0 <= n < 100 ==> |r| == 2 && AllDigits(r) && DecimalValue(r) == n
    ensures 0 <= n ==> '-' !in r
  {
    Pad2Digits(n);
    PadStart(IntToString(n), 2, '0')
  }

  lemma Pad2Digits(n: int)
    ensures var r := PadStart(IntToString(n), 2, '0');
      0 <= n ==> AllDigits(r) && DecimalValue(r) == n && (n < 100 ==> |r| == 2)
  {
    if 0 <= n {
      var digits := IntToString(n);
      var r := PadStart(digits, 2, '0');
      var zeros := r[..|r| - |digits|];
      assert r == zeros + digits;
      DecimalValueZeroPrefix(zeros, digits);
    }
  }

  /** The template `${d}-${m}-${y}`. */
  function Hyphenate(d: string, m: string, y: string): (r: string)
    ensures |d| == 2 && |m| == 2 && |y| >= 1 ==> |r| >= 7 && r[2] == '-' && r[5] == '-'
  {
    d + "-" + m + "-" + y
  }

  /** Splitting three hyphen-free pieces, hyphenated, gives them back. */
  lemma HyphenateSplit(d: string, m: string, y: string)
    requires '-' !in d && '-' !in m && '-' !in y
    ensures Split(Hyphenate(d, m, y), '-') == [d, m, y]
  {
    var parts := [d, m, y];
    assert forall k :: 0 <= k < |parts| ==> '-' !in parts[k];
    JoinThree(d, m, y, '-');
    SplitJoin(parts, '-');
  }

  /** The `DD-MM-YYYY` text: the day and the 1-based month padded to two
      digits, then the year. */
  function FormatDayMonthYear(t: DateParts): (r: string)
    ensures ValidDate(t) ==> |r| >= 7 && r[2] == '-' && r[5] == '-'
  {
    Hyphenate(Pad2(t.day), Pad2(t.month0 + 1), IntToString(t.year))
  }

  lemma JoinThree(a: string, b: string, c: string, sep: char)
    ensures Join([a, b, c], sep) == a + [sep] + b + [sep] + c
  {
    assert [a, b, c][1..] == [b, c];
    assert [b, c][1..] == [c];
    assert Join([c], sep) == c;
    assert Join([b, c], sep) == b + [sep] + c;
  }

  /** Splitting the hand-built text on `-` gives back the day, the 1-based
      month and the year, the first two as exactly two digits. */
  lemma FormatRoundTrip(t: DateParts)
    requires ValidDate(t)
    ensures var parts := Split(FormatDayMonthYear(t), '-');
      && |parts| == 3
      && |parts[0]| == 2 && |parts[1]| == 2
      && AllDigits(parts[0]) && AllDigits(parts[1]) && AllDigits(parts[2])
      && DecimalValue(parts[0]) == t.day
      && DecimalValue(parts[1]) == t.month0 + 1
      && DecimalValue(parts[2]) == t.year
  {
    var d, m, y := Pad2(t.day), Pad2(t.month0 + 1), IntToString(t.year);
    assert '-' !in y by {
      assert forall i :: 0 <= i < |y| ==> IsDigit(y[i]);
    }
    HyphenateSplit(d, m, y);
  }

  /** Two dates print the same text only if they are the same date. */
  lemma FormatInjective(t: DateParts, u: DateParts)
    requires ValidDate(t) && ValidDate(u)
    requires FormatDayMonthYear(t) == FormatDayMonthYear(u)
    ensures t == u
  {
    FormatRoundTrip(t);
    FormatRoundTrip(u);
  }

  // ---------------------------------------------------------------------------
  // Intl options
  // ---------------------------------------------------------------------------

  /** An `Intl.DateTimeFormat` options object; `None` is an absent key. */
  datatype IntlOptions = IntlOptions(
    weekday: Option<string>,
    day: Option<string>,
    month: Option<string>,
    year: Option<string>,
    hour: Option<string>,
    minute: Option<string>,
    second: Option<string>,
    hour12: Option<bool>)

  const NoOptions: IntlOptions := IntlOptions(None, None, None, None, None, None, None, None)

  /** The five format names with options of their own. */
  const KnownFormats: seq<string> := ["h:mm A", HandFormat, "dddd,DD MMMM", "HH:mm:ss", "DD MMMM YYYY"]

  /** The fallback: 24-hour hour and minute. */
  const FallbackOptions: IntlOptions :=
    NoOptions.(hour := Some("2-digit"), minute := Some("2-digit"), hour12 := Some(false))

  /** `formatOptions(fmt)`; `None` is an undefined format. */
  function FormatOptions(fmt: Option<string>): (o: IntlOptions)
    ensures !(fmt.Some? && fmt.value in KnownFormats) ==> o == FallbackOptions
    ensures fmt.Some? && fmt.value in KnownFormats ==> o != FallbackOptions
    ensures o.hour.Some? || o.day.Some?
  {
    match fmt
    case Some("h:mm A") =>
      NoOptions.(hour := Some("numeric"), minute := Some("2-digit"), hour12 := Some(true))
    case Some("DD-MM-YYYY") =>
      NoOptions.(day := Some("2-digit"), month := Some("2-digit"), year := Some("numeric"))
    case Some("dddd,DD MMMM") =>
      NoOptions.(weekday := Some("long"), day := Some("2-digit"), month := Some("long"))
    case Some("HH:mm:ss") =>
      NoOptions.(hour := Some("2-digit"), minute := Some("2-digit"), second := Some("2-digit"), hour12 := Some(false))
    case Some("DD MMMM YYYY") =>
      NoOptions.(day := Some("2-digit"), month := Some("long"), year := Some("numeric"))
    case _ => FallbackOptions
  }

  /** The five known names get five different option sets. */
  lemma KnownFormatsDistinct()
    ensures forall i, j :: 0 <= i < j < |KnownFormats| ==>
      FormatOptions(Some(KnownFormats[i])) != FormatOptions(Some(KnownFormats[j]))
  {
  }

  /** What the widget renders: the hand-built text, or `Intl` output with
      the given options. */
  datatype Rendering = Literal(text: string) | IntlFormatted(options: IntlOptions)

  function Render(fmt: Option<string>, t: DateParts): (r: Rendering)
    ensures r.Literal? <==> fmt == Some(HandFormat)
    ensures r.Literal? ==> r.text == FormatDayMonthYear(t)
    ensures r.IntlFormatted? ==> r.options == FormatOptions(fmt)
  {
    if fmt == Some(HandFormat) then Literal(FormatDayMonthYear(t))
    else IntlFormatted(FormatOptions(fmt))
  }

  /** `DD-MM-YYYY` never reaches `Intl`, so its entry in `formatOptions` is
      never used: no format renders through those options. */
  lemma HandFormatOptionsUnused(fmt: Option<string>, t: DateParts)
    ensures Render(fmt, t) != IntlFormatted(FormatOptions(Some(HandFormat)))
  {
    if fmt.Some? && fmt.value in KnownFormats && fmt != Some(HandFormat) {
      KnownFormatsDistinct();
      var i :| 0 <= i < |KnownFormats| && KnownFormats[i] == fmt.value;
      assert KnownFormats[1] == HandFormat;
    }
  }
}
