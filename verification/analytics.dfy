/** The analytics page's numbers when the backend's metrics endpoint gives
    nothing (frontend/app.py, the fallback block with `_parse_amt`, and the
    resolution rate). Amounts are summed as exact reals; float rounding is
    not modelled. */
module Analytics {
  import opened Wrappers
  import opened Text
  import opened Tickets
  import Seqs

  // ---------------------------------------------------------------------
  // Amounts
  // ---------------------------------------------------------------------

  /** The characters `re.sub(r'[^\d.]', '', s)` keeps. */
  predicate Kept(c: char) {
    IsDigit(c) || c == '.'
  }

  /** `re.sub(r'[^\d.]', '', s)`. */
  function Clean(s: string): (r: string)
    ensures |r| <= |s|
  {
    Seqs.Filter(s, Kept)
  }

  function Pow10(n: nat): (p: nat)
    ensures p >= 1
  {
    if n == 0 then 1 else 10 * Pow10(n - 1)
  }

  predicate IsDot(c: char) {
    c == '.'
  }

  /** The number of `.` characters. */
  function Dots(s: string): nat {
    Seqs.Count(s, IsDot)
  }

  /** A text has no dot exactly when it counts none. */
  lemma DotsZero(s: string)
    ensures Dots(s) == 0 <==> '.' !in s
  {
    Seqs.FilterSpec(s, IsDot);
    if '.' in s {
      var i :| 0 <= i < |s| && s[i] == '.';
      assert s[i] in Seqs.Filter(s, IsDot);
    }
    if Dots(s) > 0 {
      assert Seqs.Filter(s, IsDot)[0] in s;
    }
  }

  /** The dots on both sides of a dot, plus that one. */
  lemma DotsAround(whole: string, frac: string)
    ensures Dots(whole + ['.'] + frac) == Dots(whole) + 1 + Dots(frac)
  {
    Seqs.FilterAppend(whole + ['.'], frac, IsDot);
    Seqs.FilterAppend(whole, ['.'], IsDot);
  }

  /** Without a dot, a cleaned text is all digits. */
  lemma KeptWithoutDot(s: string)
    requires forall k :: 0 <= k < |s| ==> Kept(s[k])
    requires '.' !in s
    ensures AllDigits(s)
  {
    forall k | 0 <= k < |s|
      ensures IsDigit(s[k])
    {
      assert s[k] in s;
    }
  }

  /** `float(cleaned)` for a text of digits and dots: it succeeds exactly
      when there is at most one dot and at least one digit, and reads
      `int.frac`. */
  function DecimalValue(s: string): (r: Option<real>)
    requires forall k :: 0 <= k < |s| ==> Kept(s[k])
    ensures r.Some? <==> Dots(s) <= 1 && Dots(s) < |s|
    ensures r.Some? ==> r.value >= 0.0
  {
    match IndexOf(s, '.')
    case None =>
      KeptWithoutDot(s);
      DotsZero(s);
      if s == [] then None else Some(DigitsValue(s) as real)
    case Some(k) =>
      var whole := s[..k];
      var frac := s[k + 1..];
      assert s == whole + ['.'] + frac;
      DotsAround(whole, frac);
      DotsZero(whole);
      DotsZero(frac);
      if '.' in frac || (whole == [] && frac == []) then None
      else
        KeptWithoutDot(whole);
        KeptWithoutDot(frac);
        Some(DigitsValue(whole) as real + DigitsValue(frac) as real / Pow10(|frac|) as real)
  }

  /** `_parse_amt`: 0 for a missing or empty amount and for a cleaned text
      that `float` rejects. */
  function ParseAmount(amount: Option<string>): (r: real)
    ensures r >= 0.0
    ensures amount.None? || amount == Some("") ==> r == 0.0
    ensures amount.Some? && (Dots(Clean(amount.value)) >= 2 || Dots(Clean(amount.value)) == |Clean(amount.value)|)
      ==> r == 0.0
  {
    var s := amount.GetOr("");
    if s == "" then 0.0
    else
      var cleaned := Clean(s);
      Seqs.FilterSpec(s, Kept);
      match DecimalValue(cleaned)
      case None => 0.0
      case Some(v) => v
  }

  /** A text without any digit parses to 0: every character left after
      cleaning is a dot, and `float` rejects a bare run of dots. */
  lemma NoDigitsIsZero(s: string)
    requires forall k :: 0 <= k < |s| ==> !IsDigit(s[k])
    ensures ParseAmount(Some(s)) == 0.0
  {
    if s != "" {
      var cleaned := Clean(s);
      Seqs.FilterSpec(s, Kept);
      assert forall k :: 0 <= k < |cleaned| ==> cleaned[k] == '.' by {
        forall k | 0 <= k < |cleaned|
          ensures cleaned[k] == '.'
        {
          assert cleaned[k] in s;
        }
      }
      if cleaned != [] {
        assert cleaned[0] == '.';
        assert IndexOf(cleaned, '.') == Some(0);
        if |cleaned| > 1 {
          assert cleaned[1..][0] == '.';
        }
      }
    }
  }

  /** A dollar amount written as `$` and a whole number parses back to that
      number. */
  lemma DollarsRoundTrip(n: nat)
    ensures ParseAmount(Some("$" + NatToString(n))) == n as real
  {
    var digits := NatToString(n);
    var s := "$" + digits;
    assert s[1..] == digits;
    assert !Kept(s[0]);
    Seqs.FilterAll(digits, Kept);
    assert Clean(s) == digits;
    NoDotInDigits(digits);
    NatToStringRoundTrip(n);
  }

  /** A dollar amount written as `$`, a whole number, a dot and any digits
      parses to the whole number plus the digits read as a fraction:
      `float` reads `int.frac`. */
  lemma DecimalRoundTrip(n: nat, frac: string)
    requires AllDigits(frac)
    ensures ParseAmount(Some("$" + NatToString(n) + "." + frac))
      == n as real + DigitsValue(frac) as real / Pow10(|frac|) as real
  {
    var digits := NatToString(n);
    var s := "$" + digits + "." + frac;
    var c := digits + ['.'] + frac;
    CleanDollars(digits, frac);
    assert Clean(s) == c;
    NoDotInDigits(digits);
    IndexOfPrefixed(digits, '.', frac);
    assert c[..|digits|] == digits && c[|digits| + 1..] == frac;
    NoDotInDigits(frac);
    NatToStringRoundTrip(n);
  }

  /** Cleaning `$`, digits, a dot and digits keeps all but the `$`. */
  lemma CleanDollars(digits: string, frac: string)
    requires AllDigits(digits) && AllDigits(frac)
    ensures Clean("$" + digits + "." + frac) == digits + ['.'] + frac
  {
    Seqs.FilterAll(digits, Kept);
    Seqs.FilterAll(frac, Kept);
    Seqs.FilterAppend("$", digits, Kept);
    Seqs.FilterAppend("$" + digits, ".", Kept);
    Seqs.FilterAppend("$" + digits + ".", frac, Kept);
    assert Seqs.Filter("$", Kept) == [];
    assert Seqs.Filter(".", Kept) == ".";
  }

  /** Two decimal digits read back as the number they spell. */
  lemma TwoDigits(cents: nat)
    requires cents < 100
    ensures AllDigits([DigitChar(cents / 10), DigitChar(cents % 10)])
    ensures DigitsValue([DigitChar(cents / 10), DigitChar(cents % 10)]) == cents
  {
    var f := [DigitChar(cents / 10), DigitChar(cents % 10)];
    assert f[..1] == [DigitChar(cents / 10)];
    assert f[..1][..0] == [];
    assert DigitValue(DigitChar(cents / 10)) == cents / 10;
    assert DigitValue(DigitChar(cents % 10)) == cents % 10;
    assert DigitsValue(f[..1]) == cents / 10;
    assert DigitsValue(f) == 10 * (cents / 10) + cents % 10;
  }

  /** Dollars and two-digit cents parse back to the amount. */
  lemma CentsRoundTrip(n: nat, cents: nat)
    requires cents < 100
    ensures ParseAmount(Some("$" + NatToString(n) + "." + [DigitChar(cents / 10), DigitChar(cents % 10)]))
      == n as real + cents as real / 100.0
  {
    var f := [DigitChar(cents / 10), DigitChar(cents % 10)];
    TwoDigits(cents);
    DecimalRoundTrip(n, f);
    assert Pow10(|f|) == 100;
  }

  /** Cleaning drops the currency sign and the thousands separator. */
  lemma CleanCurrencyText()
    ensures Clean("$1,234.56") == "1234.56"
  {
    var d := "234.56";
    Seqs.FilterAll(d, Kept);
    var s2 := [','] + d;
    assert s2[1..] == d;
    var s1 := ['1'] + s2;
    assert s1[1..] == s2;
    var s0 := ['$'] + s1;
    assert s0[1..] == s1;
    assert s0 == "$1,234.56";
  }

  /** A dollar amount with a thousands separator and cents: the separator
      is dropped, and the rest reads as dollars and cents. */
  lemma CurrencyTextParses()
    ensures ParseAmount(Some("$1,234.56")) == 1234.56
  {
    var f := [DigitChar(56 / 10), DigitChar(56 % 10)];
    var plain := "$" + NatToString(1234) + "." + f;
    CentsRoundTrip(1234, 56);
    assert Clean(plain) == "1234.56" by {
      assert NatToString(1) == "1";
      assert NatToString(12) == "12";
      assert NatToString(123) == "123";
      assert NatToString(1234) == "1234";
      assert f == "56";
      CleanDollars("1234", "56");
    }
    CleanCurrencyText();
    SameCleanSameAmount("$1,234.56", plain);
  }

  /** The amount depends only on what cleaning leaves. */
  lemma SameCleanSameAmount(a: string, b: string)
    requires a != "" && b != "" && Clean(a) == Clean(b)
    ensures ParseAmount(Some(a)) == ParseAmount(Some(b))
  {
  }

  lemma NoDotInDigits(s: string)
    requires AllDigits(s)
    ensures IndexOf(s, '.') == None
  {
    assert forall k :: 0 <= k < |s| ==> s[k] != '.';
  }

  /** The sum of the parsed amounts, in list order. */
  function SumAmounts(ts: seq<Ticket>): (r: real)
    ensures r >= 0.0
  {
    if ts == [] then 0.0 else ParseAmount(ts[0].amount) + SumAmounts(ts[1..])
  }

  /** Leaving tickets out never raises a sum of non-negative amounts. */
  lemma {:induction false} SumFilterLe(ts: seq<Ticket>, p: Ticket -> bool)
    ensures SumAmounts(Seqs.Filter(ts, p)) <= SumAmounts(ts)
    decreases |ts|
  {
    if ts != [] {
      SumFilterLe(ts[1..], p);
      if p(ts[0]) {
        assert ([ts[0]] + Seqs.Filter(ts[1..], p))[1..] == Seqs.Filter(ts[1..], p);
      }
    }
  }

  /** A stronger condition selects a smaller total. */
  lemma {:induction false} SumFilterStronger(ts: seq<Ticket>, p: Ticket -> bool, q: Ticket -> bool)
    requires forall t :: p(t) ==> q(t)
    ensures SumAmounts(Seqs.Filter(ts, p)) <= SumAmounts(Seqs.Filter(ts, q))
    decreases |ts|
  {
    if ts != [] {
      SumFilterStronger(ts[1..], p, q);
      var fp := Seqs.Filter(ts[1..], p);
      var fq := Seqs.Filter(ts[1..], q);
      assert ([ts[0]] + fp)[1..] == fp;
      assert ([ts[0]] + fq)[1..] == fq;
    }
  }

  // ---------------------------------------------------------------------
  // Metrics
  // ---------------------------------------------------------------------

  /** The metrics dictionary. Its list-valued entries are represented by
      their number of entries. */
  datatype Metrics = Metrics(
    totalTickets: int,
    openTickets: int,
    closedTickets: int,
    totalDisputedVolume: real,
    slaBreaches: int,
    slaBreachDetail: nat,
    fraudAlertsOpen: int,
    fraudExposureTotal: real,
    fraudExposureOpen: real,
    aiSuccessRate: real,
    aiDraftsUsed: int,
    avgResolutionH: real,
    volumeByHour: nat,
    topMerchants: nat,
    categoryPerformance: nat)

  /** What the metrics request gave: nothing (a failed request), an empty
      object, or a metrics object. */
  datatype Fetched = NoResponse | EmptyObject | Received(m: Metrics)

  function FraudTicket(t: Ticket): bool {
    IsFraud(t)
  }

  function OpenFraud(t: Ticket): bool {
    IsUnresolved(t) && FraudTicket(t)
  }

  /** `sum(_parse_amt(t.get("amount")) for t in ts if p(t))`, ticket by
      ticket. */
  function SumWhere(ts: seq<Ticket>, p: Ticket -> bool): real {
    if ts == [] then 0.0
    else (if p(ts[0]) then ParseAmount(ts[0].amount) else 0.0) + SumWhere(ts[1..], p)
  }

  /** Summing a filtered list is summing the selected tickets. */
  lemma {:induction false} SumFilterWhere(ts: seq<Ticket>, p: Ticket -> bool)
    ensures SumAmounts(Seqs.Filter(ts, p)) == SumWhere(ts, p)
    decreases |ts|
  {
    if ts != [] {
      SumFilterWhere(ts[1..], p);
      var rest := Seqs.Filter(ts[1..], p);
      assert ([ts[0]] + rest)[1..] == rest;
    }
  }

  /** Open fraud exposure is part of both the fraud exposure and the
      disputed volume. */
  lemma OpenExposureBounds(ts: seq<Ticket>)
    ensures var openFraud := Seqs.Filter(Seqs.Filter(ts, IsUnresolved), FraudTicket);
      && SumAmounts(openFraud) <= SumAmounts(Seqs.Filter(ts, FraudTicket))
      && SumAmounts(openFraud) <= SumAmounts(Seqs.Filter(ts, IsUnresolved))
  {
    Seqs.FilterFilter(ts, IsUnresolved, FraudTicket);
    SumFilterStronger(ts, (t: Ticket) => IsUnresolved(t) && FraudTicket(t), FraudTicket);
    SumFilterLe(Seqs.Filter(ts, IsUnresolved), FraudTicket);
  }

  /** The locally computed stand-in. */
  function Fallback(ts: seq<Ticket>): (m: Metrics)
    ensures m.totalTickets == |ts|
    ensures m.openTickets == |Seqs.Positions(ts, IsUnresolved)|
    ensures m.closedTickets == |Seqs.Positions(ts, IsResolved)|
    ensures m.fraudAlertsOpen == |Seqs.Positions(ts, OpenFraud)|
    ensures m.totalDisputedVolume == SumWhere(ts, IsUnresolved)
    ensures m.fraudExposureTotal == SumWhere(ts, FraudTicket)
    ensures m.fraudExposureOpen == SumWhere(ts, OpenFraud)
    ensures 0 <= m.openTickets && 0 <= m.closedTickets && m.openTickets + m.closedTickets <= m.totalTickets
    ensures 0 <= m.fraudAlertsOpen <= m.openTickets
    ensures 0.0 <= m.fraudExposureOpen <= m.fraudExposureTotal
    ensures m.fraudExposureOpen <= m.totalDisputedVolume
    ensures m.slaBreaches == 0 && m.slaBreachDetail == 0 && m.aiSuccessRate == 0.0 && m.aiDraftsUsed == 0
    ensures m.avgResolutionH == 0.0 && m.volumeByHour == 0 && m.topMerchants == 0 && m.categoryPerformance == 0
  {
    var unresolved := Seqs.Filter(ts, IsUnresolved);
    var resolved := Seqs.Filter(ts, IsResolved);
    Seqs.FilterDisjoint(ts, IsUnresolved, IsResolved);
    var openFraud := Seqs.Filter(unresolved, FraudTicket);
    Seqs.FilterStronger(unresolved, FraudTicket, (t: Ticket) => true);
    Seqs.FilterAll(unresolved, (t: Ticket) => true);
    OpenExposureBounds(ts);
    Seqs.CountPositions(ts, IsUnresolved);
    Seqs.CountPositions(ts, IsResolved);
    Seqs.FilterThenFilter(ts, IsUnresolved, FraudTicket, OpenFraud);
    Seqs.CountPositions(ts, OpenFraud);
    SumFilterWhere(ts, IsUnresolved);
    SumFilterWhere(ts, FraudTicket);
    SumFilterWhere(ts, OpenFraud);
    Metrics(
      |ts|, |unresolved|, |resolved|,
      SumAmounts(unresolved),
      0, 0,
      |openFraud|,
      SumAmounts(Seqs.Filter(ts, FraudTicket)),
      SumAmounts(openFraud),
      0.0, 0, 0.0, 0, 0, 0)
  }

  /** The metrics the page shows, and whether it warns that they are the
      local stand-in: `if not metrics` treats a failed request and an empty
      object alike. */
  function Shown(fetched: Fetched, ts: seq<Ticket>): (r: (Metrics, bool))
    ensures r.1 <==> !fetched.Received?
    ensures fetched.Received? ==> r.0 == fetched.m
  {
    match fetched
    case Received(m) => (m, false)
    case _ => (Fallback(ts), true)
  }

  /** The resolution rate in percent: `closed / total * 100`, or 0 when the
      total is 0. */
  function ResolvePct(m: Metrics): (pct: real)
    ensures m.totalTickets == 0 ==> pct == 0.0
    ensures 0 <= m.closedTickets <= m.totalTickets && m.totalTickets != 0 ==> 0.0 <= pct <= 100.0
  {
    if m.totalTickets == 0 then 0.0
    else
      var r := m.closedTickets as real / m.totalTickets as real;
      assert 0 <= m.closedTickets <= m.totalTickets && m.totalTickets != 0 ==> r <= 1.0;
      r * 100.0
  }

  /** The stand-in's resolution rate is a percentage. */
  lemma FallbackPctInRange(ts: seq<Ticket>)
    ensures 0.0 <= ResolvePct(Fallback(ts)) <= 100.0
  {
  }
}
