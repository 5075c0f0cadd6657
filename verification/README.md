# Finance support triage dashboard: a Dafny model of its ticket logic

The dashboard is a Streamlit front end over a ticket backend. It shows the
support e-mails an AI pipeline has turned into tickets. This project models
the part of it that decides what is shown:

- **E-mail body helpers.** These pull a subject, a sender name, a sender
  address, a one-line preview and a clean body out of the raw e-mail text
  (`Normalize`, `Address`).
- **Search box.** It matches every query word against eleven ticket fields
  (`Search`).
- **E-mail list.** The list is sorted by priority and then by recency
  (`Ordering`). It is bucketed under date headings (`Grouping`) and shows
  relative times (`Formatting`).
- **Session read state.** The session's set of read ids is seeded from the
  backend's flags and grows when a ticket is opened (`ReadState`).
- **Derived ticket lists.** These are the sidebar counts, the status and
  priority filters, the inbox tabs, and the alert list. The alert list keeps
  one alert per id, with its reasons (`WorkingSet`).
- **Analytics fallback.** When the backend sends no metrics, the analytics
  page computes stand-in metrics locally. It parses amounts such as
  `"$1,234.56"`, then formats currency, durations and the resolution rate
  (`Analytics`, `Formatting`).
- **Template decisions.** These are the avatar initials and the CSS class or
  colour of each badge, tag, list row and table cell (`Templates`).
- **Database URL.** The backend checks its `DATABASE_URL` and renames an
  old-style `postgres://` scheme (`Database`).

`Wrappers`, `Text` and `Seqs` hold the shared vocabulary:
- `Option` and `Result`.
- Python's `strip`, `split`, `lower`, `startswith`, `in` and
  `replace(..., 1)` on strings.
- List comprehensions as `Filter`.

`Tickets` holds the ticket record and the time model.

The ticket is the JSON object as the front end reads it:
- A field read with `t.get(key)` is an `Option`.
- The e-mail body is a plain string, because every reader treats a missing
  body like the empty one.
- A timestamp is its raw text together with the outcome of
  `datetime.fromisoformat`: a wall-clock instant in its own frame and an
  optional UTC offset, or `None` where parsing raises.
- The current time and the machine's local offset are a `Clock` parameter.

Behaviours of the code that are easy to misread, and that the model keeps
as written:
- Date buckets appear in the order in which their first ticket is met, not
  in a fixed Today/Yesterday/This Week/Earlier order. The buckets are a dict
  filled while walking the sorted list.
- A ticket without a timestamp goes to its own "Unknown" bucket. A
  timestamp that does not parse goes to "Earlier".
- The full time shows the raw timestamp when it does not parse. Only a
  missing one shows "N/A".
- A non-empty body made only of whitespace has the empty subject, not
  "No Subject".
- A ticket dated in the future on another day is "This Week" and shows a
  negative "d ago" count.
- A ticket without a priority is listed with a Medium dot but sorted with
  the Low ones.

## Model

| member | source | states |
|---|---|---|
| Normalize.ExtractSubject | frontend/app.py:127-133 | "No Subject" for an empty body. Otherwise the value of the first `subject:` header line (after its first colon, stripped, at most 80 characters). With no such line, the first 55 characters of the stripped body plus an ellipsis when it is longer. |
| Normalize.BlankBodySubject | frontend/app.py:127-133 | A non-empty whitespace-only body gets the empty subject, because the emptiness test comes before stripping |
| Normalize.ExtractSender | frontend/app.py:136-145 | A usable customer name wins. Otherwise the sender comes from the first `From:` line. "Unknown Sender" when there is no such line. |
| Normalize.SenderFromLine | frontend/app.py:142-144 | A prefix of the tag-free stripped name, exactly 30 characters long or the whole name when shorter. When removing tags leaves nothing, the same cut of the raw stripped value. |
| Normalize.StripTagsTagFree | frontend/app.py:143 | What `re.sub("<[^>]+>", "", s)` returns contains no tag |
| Normalize.StripTagsOfTagFree | frontend/app.py:143 | The tag removal leaves a tag-free text unchanged |
| Normalize.StripTagsIdempotent | frontend/app.py:143 | Removing tags twice is removing them once |
| Address.Search | frontend/app.py:154 | The regex search finds an address-shaped substring, and finds none exactly when the line holds no address |
| Address.SearchLeftmostLongest | frontend/app.py:154 | The match found is the leftmost one, and the longest of those starting there |
| Address.MatchedTextIsAddress | frontend/app.py:154-156 | The matched text, cut out of the line, is itself address-shaped |
| Normalize.ExtractEmail | frontend/app.py:148-157 | The leftmost address on the first `From:` line that holds one; later `From:` lines are ignored. `""` exactly when no `From:` line holds an address. |
| Address.Matched | frontend/app.py:154-156 | The text of the match found is itself an address |
| Normalize.LocateEmailSkips | frontend/app.py:152-156 | The loop passes only over `From:` lines that hold no address |
| Normalize.GetPreview | frontend/app.py:160-169 | At most 100 characters, no newline. It is the first 100 characters (all when fewer) of the raw body's non-header, non-blank lines, each stripped, joined by single spaces. |
| Normalize.PartsStrip | frontend/app.py:164-168 | Stripping the body before splitting it changes no preview piece |
| Normalize.PreviewSkipsHeader | frontend/app.py:164-168 | Inserting a header line anywhere among a body's lines leaves the preview unchanged |
| Normalize.GetBody | frontend/app.py:172-180 | "" for an empty body. No line of the result is a from/to/subject/date header, and the result is its own strip. |
| Normalize.GetBodyByLines | frontend/app.py:172-180 | The clean body is the raw body's non-header lines, verbatim and in order, joined by newlines and stripped. Stripping before splitting changes nothing. |
| Normalize.BodySkipsHeader | frontend/app.py:176-179 | Inserting a header line anywhere among a body's lines leaves the clean body unchanged |
| Normalize.BodyWithoutHeaders | frontend/app.py:172-180 | A body with no header line is shown as its own strip |
| Normalize.GetBodyIdempotent | frontend/app.py:172-180 | Cleaning a clean body changes nothing |
| Search.MatchesEveryTerm | frontend/app.py:188-206 | The `not query` shortcut agrees with the term test: a match means every lower-cased query word occurs in the searchable text |
| Search.BlankQueryMatches | frontend/app.py:190-206 | A whitespace-only query matches every ticket |
| Search.TermInSomeField | frontend/app.py:193-206 | A query word occurs in the joined text exactly when it occurs in one lower-cased field, since a word cannot straddle the joining space |
| Search.MatchesByField | frontend/app.py:193-206 | A ticket matches exactly when each query word occurs in one of its eleven fields |
| Search.MatchesConjunction | frontend/app.py:206 | Two queries joined by a space match exactly the tickets both match |
| Search.MatchesIgnoresCase | frontend/app.py:192-205 | Upper-casing the query changes no result |
| Search.Fields | frontend/app.py:193-205 | Eleven fields: the raw body first and the derived subject tenth |
| Ordering.Rank | frontend/app.py:900 | High ranks 0, Medium 1, and anything else, a missing priority included, 2 |
| Ordering.KeyOf | frontend/app.py:899-902 | The key is None exactly when a present timestamp does not parse. A missing timestamp counts as 0. Otherwise the key holds minus the epoch instant. |
| Ordering.SortTickets | frontend/app.py:897-903 | The list is produced exactly when every key can be computed, and it has the input's length |
| Ordering.SortTicketsSpec | frontend/app.py:897-903 | The sorted list holds the same tickets (a permutation at the ticket level) and is ordered by key. Tickets with equal keys keep their input order. |
| Ordering.SortedTicketsOrder | frontend/app.py:897-903 | Any earlier ticket has a smaller rank, or the same rank and a timestamp no older |
| Ordering.KeyLeTotal | frontend/app.py:899-902 | Key tuples compare totally and antisymmetrically |
| Grouping.DateGroup | frontend/app.py:110-124 | Unknown exactly for a missing stamp, Earlier for an unparsable one. Otherwise Today, Yesterday and This Week are the same calendar day, the previous day, and under seven days old. |
| Grouping.FutureIsThisWeek | frontend/app.py:116-121 | A future ticket on another calendar day is This Week |
| Grouping.DateGroupMonotone | frontend/app.py:110-124 | Of two past moments in one time zone, the older never falls in a more recent group |
| Grouping.LabelInjective | frontend/app.py:112-124 | Distinct groups have distinct headings |
| Grouping.BucketsSpec | frontend/app.py:915-921 | Buckets come in the order of each group's first ticket. Each bucket holds exactly its group's tickets, in list order. |
| Grouping.BucketsCover | frontend/app.py:915-918 | Every ticket's group has a bucket |
| Grouping.Dedup | frontend/app.py:918-921 | Reference for the bucket order: the distinct groups, each once, in order of first occurrence |
| Formatting.FmtTime | frontend/app.py:78-98 | "" exactly for a missing stamp. Minutes ago are 1 to 59 and days ago fewer than 7, each the age floored to whole minutes or days. The clock-time and month-day labels show the stamp's own moment. An unparsable stamp shows a non-empty prefix of its text, at most ten characters long. |
| Formatting.FmtTimeMatchesGroup | frontend/app.py:78-124 | Each date group corresponds to its own set of time labels, so the row label and its heading never disagree |
| Formatting.SameDayMinutes | frontend/app.py:85-91 | Within the same day: under a minute (or later today) is "Just now", under an hour is whole minutes, otherwise the clock time |
| Formatting.FutureDaysAgo | frontend/app.py:92-95 | A future ticket on another day shows a negative day count |
| Formatting.FmtFull | frontend/app.py:101-107 | "N/A" exactly for a missing stamp. The raw text when it does not parse. Otherwise the formatted moment. |
| Formatting.FmtFullAgreesOnFailure | frontend/app.py:97-107 | The short and the full formatter fail on the same stamps, and the short one shows the first ten characters of what the full one shows |
| Formatting.FmtCurrency | frontend/app.py:558-563 | Millions exactly from 1,000,000 up, as the value divided by a million. Whole dollars from 1,000. Cents below that. |
| Formatting.CurrencyMonotone | frontend/app.py:558-563 | A larger amount never uses a smaller-magnitude branch, and an "M" value is at least 1.0 |
| Formatting.FmtHours | frontend/app.py:566-569 | Minutes exactly below one hour and days exactly from 24 hours, each scaled to its unit |
| Formatting.HoursShownInRange | frontend/app.py:566-569 | A non-negative duration shows under 60 minutes, 1 to under 24 hours, or at least one day |
| ReadState.FlaggedIds | frontend/app.py:301-303 | The ids of exactly the tickets the backend flags as read |
| ReadState.SeedAddsFlagged | frontend/app.py:301-303 | Seeding adds exactly the flagged ids to the session set |
| ReadState.SeedKeepsReadness | frontend/app.py:301-303 | When tickets sharing an id agree on the backend flag, seeding never changes whether a listed ticket counts as read |
| ReadState.SeedIdempotent | frontend/app.py:301-303 | Seeding twice with the same tickets is seeding once |
| ReadState.MarkOnSelect | frontend/app.py:860-863 | The backend is called exactly for a non-empty selected id not yet in the set. A non-empty selected id always ends up in the set. Nothing else changes. |
| ReadState.MarkOnSelectOnce | frontend/app.py:860-863 | A re-run with the same selection makes no second backend call |
| ReadState.ReadStaysRead | frontend/app.py:183-185 | A ticket that counts as read stays read whatever loads and selections follow |
| ReadState.SelectedIsRead | frontend/app.py:860-863 | Selecting a ticket makes it count as read from then on |
| WorkingSet.SidebarCounts | frontend/app.py:305-309 | Each badge is the number of list positions whose ticket qualifies: open and unread, open and High, Fraud, Resolved or Closed. The "new" and "high" counts each plus the resolved count never exceed the list length. |
| WorkingSet.NewCountShrinks | frontend/app.py:306-308 | Reading more tickets can only lower the "new" count; the high and fraud counts do not depend on read state |
| WorkingSet.Badge | frontend/app.py:313-320 | No suffix exactly for a zero count, otherwise the count in parentheses |
| WorkingSet.ApplyFiltersOnePass | frontend/app.py:344-348 | The two filters in sequence keep exactly the tickets satisfying both choices ("All" imposes nothing), in order |
| WorkingSet.SearchResults | frontend/app.py:866 | The number of results is the number of list positions whose ticket matches the query |
| WorkingSet.SearchResultsSpec | frontend/app.py:188-206 | Every result is a listed ticket that matches, every matching ticket is among the results, each ticket appears exactly as often as in the list when it matches and never otherwise, and a blank query keeps the whole list |
| WorkingSet.Partition | frontend/app.py:939-953 | Each number a tab label shows is a position count of the list: the inbox counts the open tickets, the resolved tab the closed ones, and each category tab the open tickets of its category. The unread count is the number of inbox positions whose ticket is not read. Inbox plus resolved is at most the list, and the three category tabs together are at most the inbox. |
| WorkingSet.InboxUnreadIsNewCount | frontend/app.py:947 | The inbox's unread note counts the same tickets as the sidebar's "new" badge |
| WorkingSet.PartitionSpec | frontend/app.py:939-943 | The inbox holds exactly the open statuses and the resolved tab exactly the closed ones. Each category tab holds exactly the open tickets of its category, so a resolved fraud ticket is in neither the fraud tab nor the inbox. Every tab holds each of its tickets exactly as often as the list does. |
| WorkingSet.InboxLabel | frontend/app.py:949 | Starts with "Inbox (n)" and adds an unread note exactly when something is unread |
| WorkingSet.InboxLabelCounts | frontend/app.py:947-949 | Both counts read back from the label: the inbox size between the parentheses and, when something is unread, the unread count just before " unread" |
| WorkingSet.AlertsFromDistinct | frontend/app.py:1059-1070 | No two alerts share an id |
| WorkingSet.AlertsFromComplete | frontend/app.py:1059-1070 | Every alert-worthy ticket's id is taken already or has an alert |
| WorkingSet.AlertsAreFirsts | frontend/app.py:1059-1070 | Each alert is the first alert-worthy ticket with its id; ids are distinct |
| WorkingSet.AlertsCover | frontend/app.py:1059-1070 | Every alert-worthy ticket's id is on the alerts page |
| WorkingSet.Reasons | frontend/app.py:1088-1097 | One reason per condition met, in the order Fraud, High Priority, sentiment. "Urgent" or "Negative" is listed exactly when it is the ticket's sentiment. |
| WorkingSet.ReasonsIffAlert | frontend/app.py:1064-1097 | An alert card has a reason exactly when its ticket is alert-worthy |
| Analytics.ParseAmount | frontend/app.py:533-537 | Never negative. 0 for a missing or empty amount, and 0 when the cleaned text has two or more dots or no digit, as for "1.2.3" or "N/A". |
| Analytics.DecimalValue | frontend/app.py:535-537 | `float` of a text of digits and dots succeeds exactly when it has at most one dot and at least one digit. The value is then non-negative. |
| Analytics.NoDigitsIsZero | frontend/app.py:533-537 | A text without digits, such as "N/A", parses to 0 |
| Analytics.DollarsRoundTrip | frontend/app.py:533-537 | "$" followed by a whole number parses back to that number |
| Analytics.DecimalRoundTrip | frontend/app.py:533-537 | "$", a whole number, a dot and any digits parse to the number plus the digits read as a fraction, as `float` reads `int.frac` |
| Analytics.CentsRoundTrip | frontend/app.py:533-537 | Dollars and two-digit cents parse back to the amount |
| Analytics.CurrencyTextParses | frontend/app.py:533-537 | "$1,234.56" parses to 1234.56: the thousands separator is dropped, and the rest is read as dollars and cents |
| Analytics.SumFilterLe | frontend/app.py:543-548 | Leaving tickets out never raises an amount total |
| Analytics.OpenExposureBounds | frontend/app.py:543-548 | Open fraud exposure is at most the fraud exposure and at most the disputed volume |
| Analytics.Fallback | frontend/app.py:525-555 | Open and closed counts are the numbers of open and closed positions, and open fraud alerts the number of open fraud positions. Disputed volume, fraud exposure and open fraud exposure are the amount sums over open, fraud and open fraud tickets. The SLA, AI, resolution and list entries are zero or empty. |
| Analytics.Shown | frontend/app.py:523-531 | The local stand-in, with its warning, is used exactly when the request gave nothing or an empty object |
| Analytics.ResolvePct | frontend/app.py:744 | 0 for a zero total, otherwise a percentage between 0 and 100 |
| Analytics.FallbackPctInRange | frontend/app.py:744 | The stand-in's resolution rate is a percentage |
| Templates.Initials | frontend/templates.py:99-103 | One or two characters without lower-case letters, and "?" for an empty name |
| Templates.InitialsOfTwoWords | frontend/templates.py:99-102 | "First Last" gives the upper-cased first letters of both words |
| Templates.InitialsOfWords | frontend/templates.py:99-102 | Any name of two or more single-spaced words gives the upper-cased first letters of its first and last word; middle words do not count |
| Templates.InitialsOfOneWord | frontend/templates.py:99-103 | A one-word name gives its first two characters, upper-cased |
| Templates.InitialsKeepLeadingBlank | frontend/templates.py:103 | The two-character fallback reads the unstripped name, so a leading blank is kept |
| Templates.PriorityClass | frontend/templates.py:118 | b-high exactly for High, b-medium exactly for Medium, b-low otherwise |
| Templates.PriorityDot | frontend/templates.py:246 | pd-high exactly for High, pd-medium exactly for Medium, pd-low otherwise |
| Templates.PriorityClassesAgree | frontend/templates.py:118 | Badge and dot name the same level. For a ticket with a priority, that level is its sort rank. |
| Templates.AbsentPriorityShownAsMedium | frontend/app.py:881-900 | A ticket without priority is drawn with the Medium dot but sorted with the Low ones |
| Templates.CategoryClass | frontend/templates.py:128 | b-fraud exactly for Fraud, b-payment exactly for Payment Issue, b-general otherwise |
| Templates.TagClass | frontend/templates.py:149 | tag-fraud exactly for Fraud, tag-payment exactly for Payment Issue, tag-general otherwise |
| Templates.CategoryClassesAgree | frontend/templates.py:128-149 | Badge and tag agree, and the fraud colour marks exactly the fraud tickets |
| Templates.SentimentClass | frontend/templates.py:138 | b-neg exactly for Negative and Urgent, b-pos exactly for Positive, b-neu otherwise |
| Templates.SentimentLabel | frontend/templates.py:145 | Never empty: the sentiment itself, or "Neutral" for an empty one |
| Templates.SentimentBadgeAgrees | frontend/templates.py:138-145 | A "Neutral" label is always neutral-coloured. The negative colour marks exactly the sentiments that raise an alert. |
| Templates.RowClass | frontend/templates.py:245 | "selected" exactly when selected, whatever the read state; otherwise "is-read" exactly when read |
| Templates.ReadDot | frontend/templates.py:249 | The unread dot exactly when not read |
| Templates.RowAndDotAgree | frontend/templates.py:245-249 | The row class never contradicts the dot |
| Templates.RowAfterVisit | frontend/templates.py:245-249 | After a ticket has been opened, its unselected row is drawn as read |
| Templates.ReopenColor | frontend/templates.py:341 | Red exactly above 10, amber above 5 up to 10, green up to 5 |
| Templates.ReopenColorMonotone | frontend/templates.py:341 | A higher reopen rate is never calmer in colour, and both thresholds are strict |
| Database.ResolveUrl | backend/database.py:9-16 | Fails with the "not set" message exactly for a missing or empty URL. A result is non-empty and never starts with `postgres://`. |
| Database.OldSchemeRewritten | backend/database.py:15-16 | A `postgres://` URL becomes `postgresql://` plus the same remainder, two characters longer |
| Database.OtherUrlsUnchanged | backend/database.py:15 | Any other non-empty URL passes through unchanged |
| Database.ResolveIdempotent | backend/database.py:15-16 | Resolving an already resolved URL changes nothing |
| Text.SplitJoin | frontend/app.py:164-169 | Joining pieces free of the separator and splitting again gives the pieces back |
| Text.JoinSplit | frontend/app.py:176-180 | Splitting and joining on one character gives the text back |
| Text.WordsSpaceJoin | frontend/app.py:206 | `split()` of two texts glued by whitespace is the words of each, in order |
| Text.StripIdempotent | frontend/app.py:180 | `strip` is idempotent |
| Text.NatToStringRoundTrip | frontend/app.py:949 | The decimal text of a count reads back as that count |

## Left out

- Streamlit widgets, page routing, session bootstrapping and Plotly charts
  are rendering, not decisions. Only the counts, filters, lists and labels
  they display are modelled.
- The HTTP client functions are network I/O. Their results are inputs: the
  ticket list, and the `Fetched` value that stands for the metrics request.
- The clock is the `Clock` parameter. `datetime.fromisoformat` is not
  modelled: its outcome is part of the timestamp input.
- The text that `strftime` and the float formats produce (clock time, month
  and day, rounding to 0, 1 or 2 decimals, thousands separators) is left
  out. The model keeps which branch is taken, the number shown and the
  suffix.
- Float arithmetic is replaced by exact reals, so amount sums have no
  rounding error.
- `\w`, `\d`, `isspace`, `lower` and `upper` are modelled on ASCII only.
  Python's Unicode behaviour for them is not modelled.
- `_av_color` depends on Python's per-process randomised string hash.
- The HTML and SVG assembly in the templates (icons, inline styles, layout
  builders) and frontend/static/script.js are not part of this model.
- The SQLAlchemy engine, session factory and `get_db` are not modelled.
  Only the URL check before them is.
- A JSON `null` field and a missing one are the same `None`. The code's
  `t.get(key, default)` gives the default only for a missing key, so a
  `null` priority sorts with the Low ones either way. For display the two
  differ: the code draws a `null` priority with the Low dot and badge,
  while the model draws it with the Medium dot like a missing one.
- The ticket id is a required string, as the code's `t["id"]` in the alert
  loop requires.
- Analytics.Fallback: the list-valued metrics entries are modelled by their
  number of entries. This suffices because the fallback always leaves them
  empty.
- Tickets.Epoch: a naive timestamp is converted with the single local
  offset of the `Clock`. Python uses the offset in force on that date, so
  daylight-saving changes are not modelled. Across such a change, naive and
  aware timestamps may compare up to an hour differently than in the model.
- Ordering.SortTickets: a timestamp that raises in the sort key aborts the
  whole list (`None`). The page's handling of that exception is not
  modelled.
