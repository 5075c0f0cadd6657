/** The time and number formatters of the dashboard (frontend/app.py,
    `_fmt_time`, `_fmt_full`, and the local helpers `_fmt_currency` and
    `_fmt_hours`). Results that `strftime` or a float format spells out are
    kept as the value they render, not as text: what is modelled is which
    branch is taken, the number shown and the suffix. */
module Formatting {
  import opened Wrappers
  import opened Text
  import opened Tickets
  import Grouping

  /** The outcome of `_fmt_time`. */
  datatype Relative =
    | Blank                   // "" for a missing stamp
    | JustNow                 // "Just now"
    | MinutesAgo(mins: int)   // f"{mins}m ago"
    | ClockTime(wall: int)    // strftime("%I:%M %p") of the stamp
    | YesterdayLabel          // "Yesterday"
    | DaysAgo(days: int)      // f"{days}d ago"
    | MonthDay(wall: int)     // strftime("%b %d") of the stamp
    | RawPrefix(text: string) // str(ts)[:10] when parsing fails

  /** `int(diff.total_seconds() / 60)`: whole minutes, truncated toward zero. */
  function Minutes(clock: Clock, m: Moment): int {
    TruncDiv(NowIn(clock, m) - m.wall, MicrosPerMinute)
  }

  /** `_fmt_time`. */
  function FmtTime(clock: Clock, s: Stamp): (r: Relative)
    ensures s.raw == "" <==> r == Blank
    ensures r.MinutesAgo? ==> 1 <= r.mins < 60
    ensures r.DaysAgo? ==> r.days < 7
    ensures r.MinutesAgo? || r.DaysAgo? || r.ClockTime? || r.MonthDay? ==> s.parsed.Some?
    ensures r.MinutesAgo? ==> var age := NowIn(clock, s.parsed.value) - s.parsed.value.wall;
      r.mins * MicrosPerMinute <= age < (r.mins + 1) * MicrosPerMinute
    ensures r.DaysAgo? ==> var age := NowIn(clock, s.parsed.value) - s.parsed.value.wall;
      r.days * MicrosPerDay <= age < (r.days + 1) * MicrosPerDay
    ensures r.ClockTime? || r.MonthDay? ==> r.wall == s.parsed.value.wall
    ensures r.RawPrefix? ==> |r.text| <= 10 && StartsWith(s.raw, r.text) && r.text != ""
  {
    if s.raw == "" then Blank
    else match s.parsed
      case None => RawPrefix(Take(s.raw, 10))
      case Some(m) =>
        var now := NowIn(clock, m);
        if Day(m.wall) == Day(now) then
          var mins := Minutes(clock, m);
          if mins < 1 then JustNow
          else if mins < 60 then MinutesAgo(mins)
          else ClockTime(m.wall)
        else if Day(m.wall) == Day(now - MicrosPerDay) then YesterdayLabel
        else if Grouping.AgeDays(clock, m) < 7 then DaysAgo(Grouping.AgeDays(clock, m))
        else MonthDay(m.wall)
  }

  /** The text of the outcomes that do not go through `strftime`. */
  function Literal(r: Relative): (o: Option<string>)
    ensures o.None? <==> r.ClockTime? || r.MonthDay?
  {
    match r
    case Blank => Some("")
    case JustNow => Some("Just now")
    case MinutesAgo(n) => Some(IntToString(n) + "m ago")
    case ClockTime(_) => None
    case YesterdayLabel => Some("Yesterday")
    case DaysAgo(d) => Some(IntToString(d) + "d ago")
    case MonthDay(_) => None
    case RawPrefix(text) => Some(text)
  }

  /** The list time and the list heading never disagree: each group of
      `_date_group` corresponds to its own set of `_fmt_time` outcomes. */
  lemma FmtTimeMatchesGroup(clock: Clock, s: Stamp)
    ensures var g := Grouping.DateGroup(clock, s);
      var r := FmtTime(clock, s);
      && (g == Grouping.Unknown <==> r.Blank?)
      && (g == Grouping.Today <==> r.JustNow? || r.MinutesAgo? || r.ClockTime?)
      && (g == Grouping.Yesterday <==> r.YesterdayLabel?)
      && (g == Grouping.ThisWeek <==> r.DaysAgo?)
      && (g == Grouping.Earlier <==> r.MonthDay? || r.RawPrefix?)
  {
    if s.parsed.Some? {
      Grouping.YesterdayIsPreviousDay(NowIn(clock, s.parsed.value));
    }
  }

  /** Within today, a ticket up to a minute old, or dated later today, reads
      "Just now"; one up to an hour old shows its age in minutes. */
  lemma SameDayMinutes(clock: Clock, s: Stamp)
    requires s.raw != "" && s.parsed.Some?
    requires Day(s.parsed.value.wall) == Day(NowIn(clock, s.parsed.value))
    ensures var age := NowIn(clock, s.parsed.value) - s.parsed.value.wall;
      && (age < MicrosPerMinute ==> FmtTime(clock, s) == JustNow)
      && (MicrosPerMinute <= age < 60 * MicrosPerMinute ==> FmtTime(clock, s) == MinutesAgo(age / MicrosPerMinute))
      && (60 * MicrosPerMinute <= age ==> FmtTime(clock, s).ClockTime?)
  {
  }

  /** A ticket dated in the future on another day shows a negative day count. */
  lemma FutureDaysAgo(clock: Clock, s: Stamp)
    requires s.raw != "" && s.parsed.Some?
    requires s.parsed.value.wall > NowIn(clock, s.parsed.value)
    requires Day(s.parsed.value.wall) != Day(NowIn(clock, s.parsed.value))
    ensures FmtTime(clock, s).DaysAgo? && FmtTime(clock, s).days < 0
  {
  }

  /** The outcome of `_fmt_full`. */
  datatype Full =
    | NotAvailable        // "N/A"
    | Verbatim(text: string)
    | Formatted(m: Moment) // strftime("%H:%M, %A, %b %d")

  /** `_fmt_full`: "N/A" for a missing stamp, the stamp itself when it does
      not parse, otherwise the formatted moment. */
  function FmtFull(s: Stamp): (r: Full)
    ensures r == NotAvailable <==> s.raw == ""
    ensures r.Verbatim? ==> r.text == s.raw && s.parsed.None?
    ensures r.Formatted? ==> s.parsed == Some(r.m)
  {
    if s.raw == "" then NotAvailable
    else match s.parsed
      case None => Verbatim(s.raw)
      case Some(m) => Formatted(m)
  }

  /** The short and the full formatter fail on the same stamps, and the full
      one keeps what the short one cuts to ten characters. */
  lemma FmtFullAgreesOnFailure(clock: Clock, s: Stamp)
    ensures FmtFull(s).Verbatim? <==> FmtTime(clock, s).RawPrefix?
    ensures FmtFull(s).Verbatim? ==> FmtTime(clock, s).text == Take(FmtFull(s).text, 10)
  {
  }

  // ---------------------------------------------------------------------
  // Analytics numbers
  // ---------------------------------------------------------------------

  /** The branch `_fmt_currency` takes, with the number it prints. */
  datatype Currency =
    | Millions(shown: real) // f"${val/1_000_000:,.1f}M"
    | Whole(shown: real)    // f"${val:,.0f}"
    | Cents(shown: real)    // f"${val:,.2f}"

  function FmtCurrency(val: real): (c: Currency)
    ensures val >= 1_000_000.0 <==> c.Millions?
    ensures c.Millions? ==> c.shown * 1_000_000.0 == val
    ensures c.Whole? ==> c.shown == val && 1_000.0 <= val
    ensures c.Cents? ==> c.shown == val && val < 1_000.0
  {
    if val >= 1_000_000.0 then Millions(val / 1_000_000.0)
    else if val >= 1_000.0 then Whole(val)
    else Cents(val)
  }

  /** The suffix after the number. */
  function CurrencySuffix(c: Currency): string {
    if c.Millions? then "M" else ""
  }

  /** Which branch, in increasing order of magnitude. */
  function CurrencyScale(c: Currency): nat {
    match c
    case Cents(_) => 0
    case Whole(_) => 1
    case Millions(_) => 2
  }

  /** A larger amount never uses a smaller-magnitude branch, and a value in
      millions never shows below 1.0 nor any other value with the "M" suffix. */
  lemma CurrencyMonotone(a: real, b: real)
    requires a <= b
    ensures CurrencyScale(FmtCurrency(a)) <= CurrencyScale(FmtCurrency(b))
    ensures CurrencySuffix(FmtCurrency(b)) == "M" ==> FmtCurrency(b).shown >= 1.0
  {
  }

  /** The branch `_fmt_hours` takes, with the number it prints. */
  datatype Duration =
    | InMinutes(shown: real) // f"{h*60:.0f}m"
    | InHours(shown: real)   // f"{h:.1f}h"
    | InDays(shown: real)    // f"{h/24:.1f}d"

  function FmtHours(h: real): (d: Duration)
    ensures d.InMinutes? <==> h < 1.0
    ensures d.InDays? <==> h >= 24.0
    ensures d.InMinutes? ==> d.shown == h * 60.0
    ensures d.InHours? ==> d.shown == h
    ensures d.InDays? ==> d.shown * 24.0 == h
  {
    if h < 1.0 then InMinutes(h * 60.0)
    else if h < 24.0 then InHours(h)
    else InDays(h / 24.0)
  }

  function DurationSuffix(d: Duration): string {
    match d
    case InMinutes(_) => "m"
    case InHours(_) => "h"
    case InDays(_) => "d"
  }

  /** Every non-negative duration is shown in a unit where it reads below
      the next unit's size: under 60 minutes, 1 to under 24 hours, or at
      least one day. */
  lemma HoursShownInRange(h: real)
    requires h >= 0.0
    ensures var d := FmtHours(h);
      && (d.InMinutes? ==> 0.0 <= d.shown < 60.0)
      && (d.InHours? ==> 1.0 <= d.shown < 24.0)
      && (d.InDays? ==> d.shown >= 1.0)
  {
  }
}
