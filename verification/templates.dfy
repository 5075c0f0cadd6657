/** The decisions inside the HTML builders of frontend/templates.py: the
    avatar initials and which CSS class or colour a badge, tag, list row or
    table cell gets. The markup around them is not modelled. */
module Templates {
  import opened Wrappers
  import opened Text
  import opened Tickets
  import Ordering
  import ReadState

  // ---------------------------------------------------------------------
  // Avatar initials
  // ---------------------------------------------------------------------

  /** `_initials`: the first letters of the first and last word when the
      name has two words or more, otherwise the first two characters of the
      name as given, and "?" for an empty name; upper-cased either way. */
  function Initials(name: string): (r: string)
    ensures 1 <= |r| <= 2
    ensures forall k :: 0 <= k < |r| ==> !('a' <= r[k] <= 'z')
    ensures name == "" ==> r == "?"
    ensures name != "" ==> r == UpperStr(Take(name, 2)) || |Words(Strip(name))| >= 2
  {
    var parts := Words(Strip(name));
    if |parts| >= 2 then
      UpperStr([parts[0][0], parts[|parts| - 1][0]])
    else if name != "" then
      UpperStr(Take(name, 2))
    else
      "?"
  }

  /** A single word splits into itself. */
  lemma WordsOfWord(w: string)
    requires w != [] && NoSpace(w)
    ensures Words(w) == [w]
  {
    WordsStep(w);
    assert WordEnd(w, 0) == |w|;
    assert w[..|w|] == w;
    assert w[|w|..] == [];
  }

  /** Words with no blank in them, joined by single spaces, split back into
      those words. */
  lemma {:induction false} WordsOfJoin(ws: seq<string>)
    requires |ws| >= 1
    requires forall k :: 0 <= k < |ws| ==> ws[k] != [] && NoSpace(ws[k])
    ensures Words(Join(ws, ' ')) == ws
    decreases |ws|
  {
    WordsOfWord(ws[0]);
    if |ws| > 1 {
      WordsOfJoin(ws[1..]);
      WordsSpaceJoin(ws[0], ' ', Join(ws[1..], ' '));
      assert ws == [ws[0]] + ws[1..];
    }
  }

  /** Words joined by single spaces begin with the first word's first
      letter and end with the last word's last letter. */
  lemma {:induction false} JoinEnds(ws: seq<string>)
    requires |ws| >= 1
    requires forall k :: 0 <= k < |ws| ==> ws[k] != []
    ensures var j := Join(ws, ' ');
      |j| > 0 && j[0] == ws[0][0] && j[|j| - 1] == ws[|ws| - 1][|ws[|ws| - 1]| - 1]
    decreases |ws|
  {
    if |ws| > 1 {
      JoinEnds(ws[1..]);
    }
  }

  /** A name of two words or more, single-spaced, gives the upper-cased
      first letters of its first and last word; the middle words do not
      count. */
  lemma {:induction false} InitialsOfWords(ws: seq<string>)
    requires |ws| >= 2
    requires forall k :: 0 <= k < |ws| ==> ws[k] != [] && NoSpace(ws[k])
    ensures Initials(Join(ws, ' ')) == [Upper(ws[0][0]), Upper(ws[|ws| - 1][0])]
  {
    var name := Join(ws, ' ');
    JoinStripped(ws);
    WordsOfJoin(ws);
    InitialsOfManyWords(name);
  }

  /** With two words or more, the initials are those of the first and the
      last word. */
  lemma InitialsOfManyWords(name: string)
    requires |Words(Strip(name))| >= 2
    ensures var ws := Words(Strip(name));
      Initials(name) == [Upper(ws[0][0]), Upper(ws[|ws| - 1][0])]
  {
  }

  /** Words joined by single spaces have no blank at either end. */
  lemma {:induction false} JoinStripped(ws: seq<string>)
    requires |ws| >= 1
    requires forall k :: 0 <= k < |ws| ==> ws[k] != [] && NoSpace(ws[k])
    ensures Strip(Join(ws, ' ')) == Join(ws, ' ')
  {
    JoinEnds(ws);
    var last := ws[|ws| - 1];
    assert !IsSpace(ws[0][0]);
    assert !IsSpace(last[|last| - 1]);
    StripOfStripped(Join(ws, ' '));
  }

  /** A first and a last name separated by one space give the initials of
      both. */
  lemma InitialsOfTwoWords(first: string, last: string)
    requires first != [] && NoSpace(first)
    requires last != [] && NoSpace(last)
    ensures Initials(first + " " + last) == [Upper(first[0]), Upper(last[0])]
  {
    var name := first + " " + last;
    assert name == first + [' '] + last;
    StripOfStripped(name);
    WordsSpaceJoin(first, ' ', last);
    WordsOfWord(first);
    WordsOfWord(last);
    assert Words(Strip(name)) == [first, last];
  }

  /** A one-word name gives its first two characters. */
  lemma InitialsOfOneWord(w: string)
    requires w != [] && NoSpace(w)
    ensures Initials(w) == UpperStr(Take(w, 2))
  {
    StripOfStripped(w);
    WordsOfWord(w);
  }

  /** The two-character fallback reads the name before stripping: a
      one-word name with a leading blank shows that blank. */
  lemma InitialsKeepLeadingBlank(w: string)
    requires w != [] && NoSpace(w)
    ensures Initials(" " + w) == [' ', Upper(w[0])]
  {
    var name := " " + w;
    assert name == [] + [' '] + w;
    WordsSpaceJoin([], ' ', w);
    WordsOfWord(w);
    assert Words([]) == [];
    var _, _ := StripBounds(name);
    WordsEmptyIff(Strip(name));
    StripWordCount(name);
  }

  /** Stripping does not change the words. */
  lemma StripWordCount(s: string)
    ensures Words(Strip(s)) == Words(s)
  {
    var t := TrimLeft(s);
    WordsAfterTrim(s);
    TrimRightSpec(t);
    assert t == TrimRight(t) + t[|TrimRight(t)|..];
    WordsTrailingBlanks(TrimRight(t), t[|TrimRight(t)|..]);
  }

  /** Whitespace at the end adds no word. */
  lemma {:induction false} WordsTrailingBlanks(a: string, b: string)
    requires AllSpace(b)
    ensures Words(a + b) == Words(a)
    decreases |b|
  {
    if b == [] {
      assert a + b == a;
    } else {
      assert a + b == a + [b[0]] + b[1..];
      WordsSpaceJoin(a, b[0], b[1..]);
      WordsEmptyIff(b[1..]);
      assert Words(a) + [] == Words(a);
    }
  }

  // ---------------------------------------------------------------------
  // Priority
  // ---------------------------------------------------------------------

  /** The priority the list row and the detail badge display: the field, or
      "Medium" when the ticket has none. */
  function ShownPriority(t: Ticket): (p: string)
    ensures t.priority.Some? ==> p == t.priority.value
  {
    t.priority.GetOr("Medium")
  }

  /** `pri_badge`'s class. */
  function PriorityClass(p: string): (c: string)
    ensures c == "b-high" <==> p == "High"
    ensures c == "b-medium" <==> p == "Medium"
    ensures c == "b-high" || c == "b-medium" || c == "b-low"
  {
    if p == "High" then "b-high"
    else if p == "Medium" then "b-medium"
    else "b-low"
  }

  /** `email_row`'s priority-dot class. */
  function PriorityDot(p: string): (c: string)
    ensures c == "pd-high" <==> p == "High"
    ensures c == "pd-medium" <==> p == "Medium"
    ensures c == "pd-high" || c == "pd-medium" || c == "pd-low"
  {
    if p == "High" then "pd-high"
    else if p == "Medium" then "pd-medium"
    else "pd-low"
  }

  /** The badge and the dot name the same level, and for a ticket that has
      a priority that level is its place in the list's sort order. */
  lemma PriorityClassesAgree(t: Ticket)
    ensures PriorityClass(ShownPriority(t))[2..] == PriorityDot(ShownPriority(t))[3..]
    ensures t.priority.Some? ==>
      && (PriorityClass(ShownPriority(t)) == "b-high" <==> Ordering.Rank(t.priority) == 0)
      && (PriorityClass(ShownPriority(t)) == "b-medium" <==> Ordering.Rank(t.priority) == 1)
      && (PriorityClass(ShownPriority(t)) == "b-low" <==> Ordering.Rank(t.priority) == 2)
  {
  }

  /** A ticket without a priority is displayed as Medium but sorted with
      the Low ones. */
  lemma AbsentPriorityShownAsMedium(t: Ticket)
    requires t.priority.None?
    ensures PriorityDot(ShownPriority(t)) == "pd-medium"
    ensures Ordering.Rank(t.priority) == 2
  {
  }

  // ---------------------------------------------------------------------
  // Category
  // ---------------------------------------------------------------------

  /** The category the row, tag and badge display. */
  function ShownCategory(t: Ticket): (c: string)
    ensures t.category.Some? ==> c == t.category.value
  {
    t.category.GetOr("General")
  }

  /** `cat_badge`'s class. */
  function CategoryClass(c: string): (r: string)
    ensures r == "b-fraud" <==> c == "Fraud"
    ensures r == "b-payment" <==> c == "Payment Issue"
    ensures r == "b-fraud" || r == "b-payment" || r == "b-general"
  {
    if c == "Fraud" then "b-fraud"
    else if c == "Payment Issue" then "b-payment"
    else "b-general"
  }

  /** `tag_html`'s class. */
  function TagClass(c: string): (r: string)
    ensures r == "tag-fraud" <==> c == "Fraud"
    ensures r == "tag-payment" <==> c == "Payment Issue"
    ensures r == "tag-fraud" || r == "tag-payment" || r == "tag-general"
  {
    if c == "Fraud" then "tag-fraud"
    else if c == "Payment Issue" then "tag-payment"
    else "tag-general"
  }

  /** Badge and tag agree, and the fraud colour marks exactly the tickets
      the rest of the dashboard counts as fraud. */
  lemma CategoryClassesAgree(t: Ticket)
    ensures CategoryClass(ShownCategory(t))[2..] == TagClass(ShownCategory(t))[4..]
    ensures CategoryClass(ShownCategory(t)) == "b-fraud" <==> IsFraud(t)
  {
  }

  // ---------------------------------------------------------------------
  // Sentiment
  // ---------------------------------------------------------------------

  /** `sent_badge`'s class; `s` is "" for a missing or null sentiment. */
  function SentimentClass(s: string): (c: string)
    ensures c == "b-neg" <==> s == "Negative" || s == "Urgent"
    ensures c == "b-pos" <==> s == "Positive"
    ensures c == "b-neg" || c == "b-pos" || c == "b-neu"
  {
    if s == "Negative" || s == "Urgent" then "b-neg"
    else if s == "Positive" then "b-pos"
    else "b-neu"
  }

  /** `s or "Neutral"`: the badge's text. */
  function SentimentLabel(s: string): (r: string)
    ensures r != ""
    ensures s != "" ==> r == s
  {
    if s == "" then "Neutral" else s
  }

  /** A badge labelled "Neutral" is always neutral-coloured, and the
      negative colour marks exactly the sentiments that raise an alert. */
  lemma SentimentBadgeAgrees(t: Ticket)
    ensures SentimentLabel(t.sentiment.GetOr("")) == "Neutral" ==>
      SentimentClass(t.sentiment.GetOr("")) == "b-neu"
    ensures SentimentClass(t.sentiment.GetOr("")) == "b-neg" <==>
      t.sentiment == Some("Urgent") || t.sentiment == Some("Negative")
  {
  }

  // ---------------------------------------------------------------------
  // E-mail row
  // ---------------------------------------------------------------------

  /** `email_row`'s row class. */
  function RowClass(isRead: bool, selected: bool): (c: string)
    ensures c == "selected" <==> selected
    ensures c == "is-read" <==> !selected && isRead
    ensures c == "" <==> !selected && !isRead
  {
    if selected then "selected" else if isRead then "is-read" else ""
  }

  /** `email_row`'s read marker. */
  function ReadDot(isRead: bool): (c: string)
    ensures c == "unread-dot" <==> !isRead
    ensures c == "read-dot" <==> isRead
  {
    if isRead then "read-dot" else "unread-dot"
  }

  /** The row class never contradicts the dot, and a selected row still
      shows its read state through the dot. */
  lemma RowAndDotAgree(isRead: bool, selected: bool)
    ensures RowClass(isRead, selected) == "is-read" ==> ReadDot(isRead) == "read-dot"
    ensures RowClass(isRead, selected) == "" ==> ReadDot(isRead) == "unread-dot"
    ensures ReadDot(isRead) == "unread-dot" && !selected ==> RowClass(isRead, selected) == ""
  {
  }

  /** Once a ticket has been opened and another one is selected, its row is
      drawn as read. */
  lemma RowAfterVisit(readIds: set<string>, t: Ticket)
    requires t.id != ""
    ensures var after := ReadState.MarkOnSelect(readIds, Some(t.id)).readIds;
      && RowClass(ReadState.IsRead(after, t), false) == "is-read"
      && ReadDot(ReadState.IsRead(after, t)) == "read-dot"
  {
  }

  // ---------------------------------------------------------------------
  // Category performance table
  // ---------------------------------------------------------------------

  const Red := "#dc2626"
  const Amber := "#d97706"
  const Green := "#22c55e"

  /** `category_table`'s colour for a reopen rate in percent. */
  function ReopenColor(rate: real): (c: string)
    ensures c == Red <==> rate > 10.0
    ensures c == Amber <==> 5.0 < rate <= 10.0
    ensures c == Green <==> rate <= 5.0
  {
    if rate > 10.0 then Red else if rate > 5.0 then Amber else Green
  }

  /** How alarming a colour is. */
  function Severity(c: string): nat {
    if c == Red then 2 else if c == Amber then 1 else 0
  }

  /** A higher reopen rate is never shown in a calmer colour, and both
      thresholds are strict. */
  lemma ReopenColorMonotone(a: real, b: real)
    requires a <= b
    ensures Severity(ReopenColor(a)) <= Severity(ReopenColor(b))
    ensures ReopenColor(10.0) == Amber && ReopenColor(5.0) == Green
  {
  }
}
