/** The ticket record as the dashboard reads it from the backend's JSON, and
    the time model shared by sorting, grouping and formatting.

    Fields the code reads with `t.get(key)` are `Option`s: `None` is an absent
    key. The e-mail body is a plain string because every reader treats an
    absent or null body exactly like the empty string. */
module Tickets {
  import opened Wrappers

  // ---------------------------------------------------------------------
  // Time
  // ---------------------------------------------------------------------

  const MicrosPerMinute: int := 60_000_000
  const MicrosPerDay: int := 86_400_000_000

  /** A `datetime` returned by `fromisoformat`: wall-clock microseconds since
      a fixed midnight in its own frame, and its UTC offset in microseconds
      when it is timezone-aware (`None` for a naive value). */
  datatype Moment = Moment(wall: int, offset: Option<int>)

  /** The `created_at` field: its raw text (`""` when the key is absent or
      empty; the code treats both with `not ts`) and the outcome of
      `datetime.fromisoformat` on it (`None` when parsing raises). */
  datatype Stamp = Stamp(raw: string, parsed: Option<Moment>)

  /** The process clock: the current UTC instant in microseconds, and the
      offset of the machine's local zone used for naive values. */
  datatype Clock = Clock(utcNow: int, localOffset: int)

  /** `dt.date()` as a day number: floor division of the wall clock
      (Dafny's `/` is Euclidean, which is floor division for a positive divisor). */
  function Day(wall: int): int {
    wall / MicrosPerDay
  }

  /** `datetime.now(dt.tzinfo) if dt.tzinfo else datetime.now()`, on the wall
      clock of `m`'s frame. */
  function NowIn(clock: Clock, m: Moment): int {
    clock.utcNow + m.offset.GetOr(clock.localOffset)
  }

  /** `dt.timestamp()` in microseconds: aware values use their own offset,
      naive values the machine's local one. */
  function Epoch(clock: Clock, m: Moment): int {
    m.wall - m.offset.GetOr(clock.localOffset)
  }

  /** `int(x)` of a quotient: division truncating toward zero. */
  function TruncDiv(a: int, b: int): (q: int)
    requires b > 0
    ensures a >= 0 ==> q == a / b
    ensures a < 0 ==> q == -((-a) / b)
  {
    if a >= 0 then a / b else -((-a) / b)
  }

  // ---------------------------------------------------------------------
  // Tickets
  // ---------------------------------------------------------------------

  datatype Ticket = Ticket(
    id: string,
    status: Option<string>,
    priority: Option<string>,
    category: Option<string>,
    sentiment: Option<string>,
    createdAt: Stamp,
    emailBody: string,
    customerName: Option<string>,
    summary: Option<string>,
    intent: Option<string>,
    transactionId: Option<string>,
    amount: Option<string>,
    isRead: bool)

  /** `t.get("status") in {"Open", "New", "In Progress"}`. */
  predicate IsUnresolved(t: Ticket) {
    t.status == Some("Open") || t.status == Some("New") || t.status == Some("In Progress")
  }

  /** `t.get("status") in ("Resolved", "Closed")`. */
  predicate IsResolved(t: Ticket) {
    t.status == Some("Resolved") || t.status == Some("Closed")
  }

  predicate IsFraud(t: Ticket) {
    t.category == Some("Fraud")
  }

  predicate IsHighPriority(t: Ticket) {
    t.priority == Some("High")
  }

  /** No status is both unresolved and resolved. */
  lemma StatusSetsDisjoint(t: Ticket)
    ensures !(IsUnresolved(t) && IsResolved(t))
  {
  }
}
