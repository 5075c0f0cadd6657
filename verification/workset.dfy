/** The ticket lists the dashboard derives from what it loaded
    (frontend/app.py): the sidebar badge counts, the status and priority
    filters, the search filter, the inbox tabs, and the de-duplicated alert
    list with the reasons shown on each alert card. */
module WorkingSet {
  import opened Wrappers
  import opened Text
  import opened Tickets
  import Seqs
  import ReadState
  import Search

  // ---------------------------------------------------------------------
  // Sidebar counts
  // ---------------------------------------------------------------------

  /** The four badge counts of the sidebar. */
  datatype Counts = Counts(newCount: nat, highCount: nat, fraudCount: nat, resolvedCount: nat)

  function UnreadUnresolved(readIds: set<string>): Ticket -> bool {
    (t: Ticket) => IsUnresolved(t) && !ReadState.IsRead(readIds, t)
  }

  function HighUnresolved(t: Ticket): bool {
    IsHighPriority(t) && IsUnresolved(t)
  }

  /** Each badge counts the positions of the list whose ticket qualifies:
      open and unread, open and high priority, fraud, and closed. */
  function SidebarCounts(readIds: set<string>, ts: seq<Ticket>): (c: Counts)
    ensures c.newCount == |Seqs.Positions(ts, UnreadUnresolved(readIds))|
    ensures c.highCount == |Seqs.Positions(ts, HighUnresolved)|
    ensures c.fraudCount == |Seqs.Positions(ts, IsFraud)|
    ensures c.resolvedCount == |Seqs.Positions(ts, IsResolved)|
    ensures c.newCount + c.resolvedCount <= |ts|
    ensures c.highCount + c.resolvedCount <= |ts|
    ensures c.fraudCount <= |ts|
  {
    Seqs.CountPositions(ts, UnreadUnresolved(readIds));
    Seqs.CountPositions(ts, HighUnresolved);
    Seqs.CountPositions(ts, IsFraud);
    Seqs.CountPositions(ts, IsResolved);
    var c := Counts(
      Seqs.Count(ts, UnreadUnresolved(readIds)),
      Seqs.Count(ts, HighUnresolved),
      Seqs.Count(ts, IsFraud),
      Seqs.Count(ts, IsResolved));
    Seqs.FilterDisjoint(ts, UnreadUnresolved(readIds), IsResolved);
    Seqs.FilterDisjoint(ts, HighUnresolved, IsResolved);
    c
  }

  /** Reading more tickets can only lower the "new" badge; the other badges
      do not depend on the read state. */
  lemma NewCountShrinks(r1: set<string>, r2: set<string>, ts: seq<Ticket>)
    requires r1 <= r2
    ensures SidebarCounts(r2, ts).newCount <= SidebarCounts(r1, ts).newCount
    ensures SidebarCounts(r2, ts).highCount == SidebarCounts(r1, ts).highCount
    ensures SidebarCounts(r2, ts).fraudCount == SidebarCounts(r1, ts).fraudCount
  {
    Seqs.FilterStronger(ts, UnreadUnresolved(r2), UnreadUnresolved(r1));
  }

  /** `f" ({count})" if count else ""`. */
  function Badge(n: nat): (s: string)
    ensures s == "" <==> n == 0
    ensures n > 0 ==> s == " (" + NatToString(n) + ")"
  {
    if n == 0 then "" else " (" + NatToString(n) + ")"
  }

  // ---------------------------------------------------------------------
  // Sidebar filters and search
  // ---------------------------------------------------------------------

  /** The "All" choice of a filter, which applies no filter. */
  const All: string := "All"

  function HasStatus(s: string): Ticket -> bool {
    (t: Ticket) => t.status == Some(s)
  }

  function HasPriority(p: string): Ticket -> bool {
    (t: Ticket) => t.priority == Some(p)
  }

  /** The status filter, then the priority filter, each skipped on "All". */
  function ApplyFilters(ts: seq<Ticket>, status: string, priority: string): (r: seq<Ticket>)
    ensures |r| <= |ts|
  {
    var byStatus := if status != All then Seqs.Filter(ts, HasStatus(status)) else ts;
    if priority != All then Seqs.Filter(byStatus, HasPriority(priority)) else byStatus
  }

  /** Whether a ticket passes both filters. */
  function Selected(status: string, priority: string): Ticket -> bool {
    (t: Ticket) => (status == All || t.status == Some(status)) && (priority == All || t.priority == Some(priority))
  }

  /** The two filters in sequence are one pass keeping exactly the tickets
      that satisfy both choices, in their original order. */
  lemma ApplyFiltersOnePass(ts: seq<Ticket>, status: string, priority: string)
    ensures ApplyFilters(ts, status, priority) == Seqs.Filter(ts, Selected(status, priority))
  {
    var sel := Selected(status, priority);
    if status != All && priority != All {
      Seqs.FilterFilter(ts, HasStatus(status), HasPriority(priority));
      FilterSame(ts, (t: Ticket) => HasStatus(status)(t) && HasPriority(priority)(t), sel);
    } else if status != All {
      FilterSame(ts, HasStatus(status), sel);
    } else if priority != All {
      FilterSame(ts, HasPriority(priority), sel);
    } else {
      Seqs.FilterAll(ts, sel);
    }
  }

  /** Filtering by two conditions that agree on every element gives the same list. */
  lemma {:induction false} FilterSame(ts: seq<Ticket>, p: Ticket -> bool, q: Ticket -> bool)
    requires forall t :: p(t) == q(t)
    ensures Seqs.Filter(ts, p) == Seqs.Filter(ts, q)
    decreases |ts|
  {
    if ts != [] {
      FilterSame(ts[1..], p, q);
    }
  }

  /** The ticket matches the search box's query. */
  function MatchesQuery(query: string): Ticket -> bool {
    (t: Ticket) => Search.Matches(t, query)
  }

  /** `display_tickets = [t for t in tickets if _search_match(t, search_query)]`:
      one result per matching position of the list. */
  function SearchResults(ts: seq<Ticket>, query: string): (r: seq<Ticket>)
    ensures |r| == |Seqs.Positions(ts, MatchesQuery(query))|
    ensures |r| <= |ts|
  {
    Seqs.CountPositions(ts, MatchesQuery(query));
    Seqs.Filter(ts, MatchesQuery(query))
  }

  /** The search keeps the matching tickets, only those, each as often as
      the list holds it; with a blank query it keeps the whole list. */
  lemma SearchResultsSpec(ts: seq<Ticket>, query: string)
    ensures forall k :: 0 <= k < |SearchResults(ts, query)| ==>
      Search.Matches(SearchResults(ts, query)[k], query) && SearchResults(ts, query)[k] in ts
    ensures forall i :: 0 <= i < |ts| && Search.Matches(ts[i], query) ==> ts[i] in SearchResults(ts, query)
    ensures forall t :: multiset(SearchResults(ts, query))[t] == if Search.Matches(t, query) then multiset(ts)[t] else 0
    ensures AllSpace(query) ==> SearchResults(ts, query) == ts
  {
    Seqs.FilterSpec(ts, MatchesQuery(query));
    Seqs.FilterMultiset(ts, MatchesQuery(query));
    if AllSpace(query) {
      forall i | 0 <= i < |ts|
        ensures Search.Matches(ts[i], query)
      {
        Search.BlankQueryMatches(ts[i], query);
      }
      Seqs.FilterAll(ts, MatchesQuery(query));
    }
  }

  // ---------------------------------------------------------------------
  // Inbox tabs
  // ---------------------------------------------------------------------

  function InCategory(c: string): Ticket -> bool {
    (t: Ticket) => t.category == Some(c)
  }

  /** Open and filed under category `c`: what the tab for `c` shows. */
  function OpenIn(c: string): Ticket -> bool {
    (t: Ticket) => IsUnresolved(t) && t.category == Some(c)
  }

  /** The five tab lists and the unread count of the inbox. */
  datatype Tabs = Tabs(
    unresolved: seq<Ticket>,
    resolved: seq<Ticket>,
    fraud: seq<Ticket>,
    payment: seq<Ticket>,
    general: seq<Ticket>,
    unread: nat)

  /** Not yet opened by this browser session. */
  function Unread(readIds: set<string>): Ticket -> bool {
    (t: Ticket) => !ReadState.IsRead(readIds, t)
  }

  /** Each tab shows one entry per qualifying position of the list, so the
      tab labels count the open, closed and per-category open tickets. */
  function Partition(readIds: set<string>, ts: seq<Ticket>): (r: Tabs)
    ensures |r.unresolved| == |Seqs.Positions(ts, IsUnresolved)|
    ensures |r.resolved| == |Seqs.Positions(ts, IsResolved)|
    ensures |r.fraud| == |Seqs.Positions(ts, OpenIn("Fraud"))|
    ensures |r.payment| == |Seqs.Positions(ts, OpenIn("Payment Issue"))|
    ensures |r.general| == |Seqs.Positions(ts, OpenIn("General"))|
    ensures |r.unresolved| + |r.resolved| <= |ts|
    ensures r.unread == |Seqs.Positions(r.unresolved, Unread(readIds))|
    ensures r.unread <= |r.unresolved|
    ensures |r.fraud| + |r.payment| + |r.general| <= |r.unresolved|
  {
    var unresolved := Seqs.Filter(ts, IsUnresolved);
    var resolved := Seqs.Filter(ts, IsResolved);
    Seqs.FilterDisjoint(ts, IsUnresolved, IsResolved);
    var fraud := Seqs.Filter(unresolved, InCategory("Fraud"));
    var payment := Seqs.Filter(unresolved, InCategory("Payment Issue"));
    var general := Seqs.Filter(unresolved, InCategory("General"));
    ThreeWay(unresolved, "Fraud", "Payment Issue", "General");
    Seqs.CountPositions(ts, IsUnresolved);
    Seqs.CountPositions(ts, IsResolved);
    TabSize(ts, "Fraud");
    TabSize(ts, "Payment Issue");
    TabSize(ts, "General");
    var unread := Seqs.Count(unresolved, Unread(readIds));
    Seqs.CountPositions(unresolved, Unread(readIds));
    Tabs(unresolved, resolved, fraud, payment, general, unread)
  }

  /** Three distinct categories pick disjoint parts of a list. */
  lemma {:induction false} ThreeWay(s: seq<Ticket>, a: string, b: string, c: string)
    requires a != b && b != c && a != c
    ensures |Seqs.Filter(s, InCategory(a))| + |Seqs.Filter(s, InCategory(b))| + |Seqs.Filter(s, InCategory(c))| <= |s|
    decreases |s|
  {
    if s != [] {
      ThreeWay(s[1..], a, b, c);
    }
  }

  /** `tab` holds exactly the open tickets of `ts` in category `c`, each
      as often as `ts` holds it. */
  ghost predicate TabOf(tab: seq<Ticket>, ts: seq<Ticket>, c: string) {
    && (forall k :: 0 <= k < |tab| ==> IsUnresolved(tab[k]) && tab[k].category == Some(c) && tab[k] in ts)
    && (forall i :: 0 <= i < |ts| && IsUnresolved(ts[i]) && ts[i].category == Some(c) ==> ts[i] in tab)
    && (forall t :: multiset(tab)[t] == if IsUnresolved(t) && t.category == Some(c) then multiset(ts)[t] else 0)
  }

  /** Picking the open tickets and then a category is picking the open
      tickets of that category in one pass. */
  lemma TabIsOneFilter(ts: seq<Ticket>, c: string)
    ensures Seqs.Filter(Seqs.Filter(ts, IsUnresolved), InCategory(c)) == Seqs.Filter(ts, OpenIn(c))
  {
    Seqs.FilterThenFilter(ts, IsUnresolved, InCategory(c), OpenIn(c));
  }

  lemma TabSize(ts: seq<Ticket>, c: string)
    ensures |Seqs.Filter(Seqs.Filter(ts, IsUnresolved), InCategory(c))| == |Seqs.Positions(ts, OpenIn(c))|
  {
    TabIsOneFilter(ts, c);
    Seqs.CountPositions(ts, OpenIn(c));
  }

  lemma CategoryTab(ts: seq<Ticket>, c: string)
    ensures TabOf(Seqs.Filter(Seqs.Filter(ts, IsUnresolved), InCategory(c)), ts, c)
  {
    var unresolved := Seqs.Filter(ts, IsUnresolved);
    Seqs.FilterSpec(ts, IsUnresolved);
    Seqs.FilterSpec(unresolved, InCategory(c));
    TabIsOneFilter(ts, c);
    Seqs.FilterMultiset(ts, OpenIn(c));
  }

  /** `list` holds exactly the tickets of `ts` satisfying `p`, each as
      often as `ts` holds it. */
  ghost predicate Picks(list: seq<Ticket>, ts: seq<Ticket>, p: Ticket -> bool) {
    && (forall k :: 0 <= k < |list| ==> p(list[k]) && list[k] in ts)
    && (forall i :: 0 <= i < |ts| && p(ts[i]) ==> ts[i] in list)
    && (forall t :: multiset(list)[t] == if p(t) then multiset(ts)[t] else 0)
  }

  lemma FilterPicks(ts: seq<Ticket>, p: Ticket -> bool)
    ensures Picks(Seqs.Filter(ts, p), ts, p)
  {
    Seqs.FilterSpec(ts, p);
    Seqs.FilterMultiset(ts, p);
  }

  /** What each tab holds: the inbox tab exactly the open tickets and the
      resolved tab exactly the closed ones; each category tab exactly the
      open tickets of its category, so a resolved fraud ticket appears in
      neither the fraud tab nor the inbox. */
  lemma PartitionSpec(readIds: set<string>, ts: seq<Ticket>)
    ensures var r := Partition(readIds, ts);
      && Picks(r.unresolved, ts, IsUnresolved)
      && Picks(r.resolved, ts, IsResolved)
      && TabOf(r.fraud, ts, "Fraud")
      && TabOf(r.payment, ts, "Payment Issue")
      && TabOf(r.general, ts, "General")
  {
    FilterPicks(ts, IsUnresolved);
    FilterPicks(ts, IsResolved);
    CategoryTab(ts, "Fraud");
    CategoryTab(ts, "Payment Issue");
    CategoryTab(ts, "General");
  }

  /** The inbox's unread note and the sidebar's "new" badge count the same
      tickets. */
  lemma InboxUnreadIsNewCount(readIds: set<string>, ts: seq<Ticket>)
    ensures Partition(readIds, ts).unread == SidebarCounts(readIds, ts).newCount
  {
    Seqs.FilterThenFilter(ts, IsUnresolved, Unread(readIds), UnreadUnresolved(readIds));
    assert Partition(readIds, ts).unread == |Seqs.Filter(Seqs.Filter(ts, IsUnresolved), Unread(readIds))|;
  }

  /** The inbox tab's label: `f"Inbox ({n})"` plus `f" · {k} unread"` when
      something is unread. */
  function InboxLabel(tabs: Tabs): (s: string)
    ensures StartsWith(s, "Inbox (" + NatToString(|tabs.unresolved|) + ")")
    ensures tabs.unread == 0 <==> s == "Inbox (" + NatToString(|tabs.unresolved|) + ")"
  {
    var head := "Inbox (" + NatToString(|tabs.unresolved|) + ")";
    var s := head + (if tabs.unread > 0 then " \U{00B7} " + NatToString(tabs.unread) + " unread" else "");
    assert s[..|head|] == head;
    s
  }

  /** Both counts can be read back from the label: the inbox size between
      the parentheses and, when something is unread, the unread count
      before the closing " unread". */
  lemma InboxLabelCounts(tabs: Tabs)
    ensures var s := InboxLabel(tabs);
      var n := |NatToString(|tabs.unresolved|)|;
      && 8 + n <= |s|
      && AllDigits(s[7..7 + n]) && DigitsValue(s[7..7 + n]) == |tabs.unresolved|
      && (tabs.unread > 0 ==>
            var m := |NatToString(tabs.unread)|;
            && |s| == 8 + n + 3 + m + 7
            && s[|s| - 7..] == " unread"
            && AllDigits(s[11 + n..11 + n + m]) && DigitsValue(s[11 + n..11 + n + m]) == tabs.unread)
  {
    var s := InboxLabel(tabs);
    var a := NatToString(|tabs.unresolved|);
    var n := |a|;
    assert s[7..7 + n] == a;
    NatToStringRoundTrip(|tabs.unresolved|);
    if tabs.unread > 0 {
      var b := NatToString(tabs.unread);
      assert s == "Inbox (" + a + ")" + " \U{00B7} " + b + " unread";
      assert s[11 + n..11 + n + |b|] == b;
      NatToStringRoundTrip(tabs.unread);
    }
  }

  // ---------------------------------------------------------------------
  // Alerts
  // ---------------------------------------------------------------------

  /** A ticket the alerts page shows: fraud, high priority, or an urgent or
      negative sentiment. */
  predicate AlertWorthy(t: Ticket) {
    IsFraud(t) || IsHighPriority(t) || SentimentAlert(t)
  }

  /** An urgent or negative sentiment, which the card lists as a reason. */
  predicate SentimentAlert(t: Ticket) {
    t.sentiment == Some("Urgent") || t.sentiment == Some("Negative")
  }

  /** The alert loop from position `i` on, with the ids already taken. Only
      the ids of tickets that became alerts are remembered, so a
      non-alerting ticket never hides a later one with the same id. */
  function AlertsFrom(ts: seq<Ticket>, seen: set<string>): (r: seq<Ticket>)
    ensures |r| <= |ts|
    ensures forall k :: 0 <= k < |r| ==> AlertWorthy(r[k]) && r[k].id !in seen && r[k] in ts
    decreases |ts|
  {
    if ts == [] then []
    else
      var t := ts[0];
      var rest := if t.id !in seen && AlertWorthy(t) then AlertsFrom(ts[1..], seen + {t.id}) else AlertsFrom(ts[1..], seen);
      assert forall k :: 0 <= k < |rest| ==> rest[k] in ts[1..];
      if t.id !in seen && AlertWorthy(t) then [t] + rest else rest
  }

  /** The alert list of the alerts page. */
  function Alerts(ts: seq<Ticket>): (r: seq<Ticket>)
    ensures forall k :: 0 <= k < |r| ==> AlertWorthy(r[k]) && r[k] in ts
  {
    AlertsFrom(ts, {})
  }

  /** No two alerts share an id. */
  lemma {:induction false} AlertsFromDistinct(ts: seq<Ticket>, seen: set<string>)
    ensures forall j, k :: 0 <= j < k < |AlertsFrom(ts, seen)| ==> AlertsFrom(ts, seen)[j].id != AlertsFrom(ts, seen)[k].id
    decreases |ts|
  {
    if ts != [] {
      var t := ts[0];
      if t.id !in seen && AlertWorthy(t) {
        AlertsFromDistinct(ts[1..], seen + {t.id});
        var rest := AlertsFrom(ts[1..], seen + {t.id});
        assert AlertsFrom(ts, seen) == [t] + rest;
      } else {
        AlertsFromDistinct(ts[1..], seen);
      }
    }
  }

  /** Every alert-worthy ticket is represented: an alert with its id is shown
      (or its id was already taken before the loop started). */
  lemma {:induction false} AlertsFromComplete(ts: seq<Ticket>, seen: set<string>, i: nat)
    requires i < |ts| && AlertWorthy(ts[i])
    ensures ts[i].id in seen || exists k :: 0 <= k < |AlertsFrom(ts, seen)| && AlertsFrom(ts, seen)[k].id == ts[i].id
    decreases |ts|
  {
    var t := ts[0];
    if t.id !in seen && AlertWorthy(t) {
      var rest := AlertsFrom(ts[1..], seen + {t.id});
      assert AlertsFrom(ts, seen) == [t] + rest;
      if ts[i].id == t.id {
        assert AlertsFrom(ts, seen)[0].id == ts[i].id;
      } else {
        AlertsFromComplete(ts[1..], seen + {t.id}, i - 1);
        assert ts[1..][i - 1] == ts[i];
        if ts[i].id !in seen {
          var k :| 0 <= k < |rest| && rest[k].id == ts[i].id;
          assert AlertsFrom(ts, seen)[k + 1] == rest[k];
        }
      }
    } else if i > 0 {
      AlertsFromComplete(ts[1..], seen, i - 1);
      assert ts[1..][i - 1] == ts[i];
      assert AlertsFrom(ts, seen) == AlertsFrom(ts[1..], seen);
    }
  }

  /** Position `i` holds the first alert-worthy ticket of its id, and that
      id was not taken before the loop started. */
  predicate FirstAlertAt(ts: seq<Ticket>, seen: set<string>, i: nat)
    requires i < |ts|
  {
    && AlertWorthy(ts[i]) && ts[i].id !in seen
    && forall j :: 0 <= j < i ==> !(AlertWorthy(ts[j]) && ts[j].id == ts[i].id)
  }

  /** `x` is the ticket at some position where `FirstAlertAt` holds. */
  predicate IsFirstAlert(ts: seq<Ticket>, seen: set<string>, x: Ticket) {
    exists i: nat :: i < |ts| && ts[i] == x && FirstAlertAt(ts, seen, i)
  }

  /** A first alert of the tail, after the head has been looked at, is a
      first alert of the whole list. */
  lemma FirstAlertShift(ts: seq<Ticket>, seen: set<string>, i: nat)
    requires i + 1 < |ts|
    requires FirstAlertAt(ts[1..], if ts[0].id !in seen && AlertWorthy(ts[0]) then seen + {ts[0].id} else seen, i)
    ensures FirstAlertAt(ts, seen, i + 1)
  {
    assert ts[i + 1] == ts[1..][i];
    forall j | 0 <= j < i + 1
      ensures !(AlertWorthy(ts[j]) && ts[j].id == ts[i + 1].id)
    {
      if j > 0 {
        assert ts[j] == ts[1..][j - 1];
      }
    }
  }

  /** The `k`-th alert is the first alert-worthy ticket with its id. */
  lemma {:induction false} AlertFirstAt(ts: seq<Ticket>, seen: set<string>, k: nat)
    requires k < |AlertsFrom(ts, seen)|
    ensures IsFirstAlert(ts, seen, AlertsFrom(ts, seen)[k])
    decreases |ts|
  {
    var t := ts[0];
    var taken := t.id !in seen && AlertWorthy(t);
    var seen' := if taken then seen + {t.id} else seen;
    var rest := AlertsFrom(ts[1..], seen');
    var out := AlertsFrom(ts, seen);
    assert out == if taken then [t] + rest else rest;
    if taken && k == 0 {
      assert FirstAlertAt(ts, seen, 0) && ts[0] == out[k];
    } else {
      var k' := if taken then k - 1 else k;
      assert out[k] == rest[k'];
      AlertFirstAt(ts[1..], seen', k');
      var i': nat :| i' < |ts[1..]| && ts[1..][i'] == rest[k'] && FirstAlertAt(ts[1..], seen', i');
      FirstAlertShift(ts, seen, i');
      assert ts[i' + 1] == out[k];
    }
  }

  /** The alert shown for an id is the first alert-worthy ticket with it. */
  lemma AlertsFromFirst(ts: seq<Ticket>, seen: set<string>)
    ensures forall k :: 0 <= k < |AlertsFrom(ts, seen)| ==> IsFirstAlert(ts, seen, AlertsFrom(ts, seen)[k])
  {
    forall k | 0 <= k < |AlertsFrom(ts, seen)|
      ensures IsFirstAlert(ts, seen, AlertsFrom(ts, seen)[k])
    {
      AlertFirstAt(ts, seen, k);
    }
  }

  /** The alerts page lists, in list order, the first alert-worthy ticket
      of each id and nothing else. */
  lemma AlertsAreFirsts(ts: seq<Ticket>)
    ensures forall k :: 0 <= k < |Alerts(ts)| ==> IsFirstAlert(ts, {}, Alerts(ts)[k])
    ensures forall j, k :: 0 <= j < k < |Alerts(ts)| ==> Alerts(ts)[j].id != Alerts(ts)[k].id
  {
    var none: set<string> := {};
    AlertsFromDistinct(ts, none);
    AlertsFromFirst(ts, none);
    assert Alerts(ts) == AlertsFrom(ts, none);
  }

  /** Every alert-worthy ticket's id is on the alerts page. */
  lemma AlertsCover(ts: seq<Ticket>, i: nat)
    requires i < |ts| && AlertWorthy(ts[i])
    ensures exists k :: 0 <= k < |Alerts(ts)| && Alerts(ts)[k].id == ts[i].id
  {
    var none: set<string> := {};
    AlertsFromComplete(ts, none, i);
    assert ts[i].id !in none;
    var k :| 0 <= k < |AlertsFrom(ts, none)| && AlertsFrom(ts, none)[k].id == ts[i].id;
    assert Alerts(ts)[k].id == ts[i].id;
  }

  /** The reasons listed on an alert card. The card reads the fields with
      defaults (`"Medium"`, `"General"`, `"Neutral"`), none of which is a
      reason, so an absent field gives no reason. */
  function Reasons(t: Ticket): (r: seq<string>)
    ensures |r| == (if IsFraud(t) then 1 else 0) + (if IsHighPriority(t) then 1 else 0)
                   + (if SentimentAlert(t) then 1 else 0)
    ensures "Fraud" in r <==> IsFraud(t)
    ensures "High Priority" in r <==> IsHighPriority(t)
    ensures "Urgent" in r <==> t.sentiment == Some("Urgent")
    ensures "Negative" in r <==> t.sentiment == Some("Negative")
    ensures IsFraud(t) ==> r[0] == "Fraud"
    ensures IsHighPriority(t) ==> r[if IsFraud(t) then 1 else 0] == "High Priority"
    ensures SentimentAlert(t) ==> r[|r| - 1] == t.sentiment.value
  {
    (if IsFraud(t) then ["Fraud"] else [])
    + (if IsHighPriority(t) then ["High Priority"] else [])
    + (if SentimentAlert(t) then [t.sentiment.value] else [])
  }

  /** A card has a reason exactly when its ticket belongs on the alerts page. */
  lemma ReasonsIffAlert(t: Ticket)
    ensures Reasons(t) != [] <==> AlertWorthy(t)
  {
  }
}
