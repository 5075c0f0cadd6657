/** Which tickets count as read (frontend/app.py, `_is_ticket_read`, the
    seeding of `st.session_state.read_ids` from the backend flags, and the
    marking of the selected ticket). The session's id set only ever grows. */
module ReadState {
  import opened Wrappers
  import opened Tickets

  /** `_is_ticket_read`: the backend flag, or the id remembered this session. */
  predicate IsRead(readIds: set<string>, t: Ticket) {
    t.isRead || t.id in readIds
  }

  /** The ids of the tickets the backend reports as read. */
  function FlaggedIds(ts: seq<Ticket>): (ids: set<string>)
    ensures forall x :: x in ids <==> exists i :: 0 <= i < |ts| && ts[i].isRead && ts[i].id == x
  {
    set i | 0 <= i < |ts| && ts[i].isRead :: ts[i].id
  }

  /** The loop `for _t in all_tickets: if _t.get("is_read"): read_ids.add(...)`. */
  function Seed(readIds: set<string>, ts: seq<Ticket>): (r: set<string>)
    ensures readIds <= r
    decreases |ts|
  {
    if ts == [] then readIds
    else Seed(if ts[0].isRead then readIds + {ts[0].id} else readIds, ts[1..])
  }

  /** Seeding adds exactly the ids of the flagged tickets. */
  lemma {:induction false} SeedAddsFlagged(readIds: set<string>, ts: seq<Ticket>)
    ensures Seed(readIds, ts) == readIds + FlaggedIds(ts)
    decreases |ts|
  {
    if ts != [] {
      var next := if ts[0].isRead then readIds + {ts[0].id} else readIds;
      SeedAddsFlagged(next, ts[1..]);
      assert FlaggedIds(ts) == (if ts[0].isRead then {ts[0].id} else {}) + FlaggedIds(ts[1..]) by {
        forall x | x in FlaggedIds(ts)
          ensures x in (if ts[0].isRead then {ts[0].id} else {}) + FlaggedIds(ts[1..])
        {
          var i :| 0 <= i < |ts| && ts[i].isRead && ts[i].id == x;
          if i > 0 {
            assert ts[1..][i - 1] == ts[i];
          }
        }
        forall x | x in FlaggedIds(ts[1..])
          ensures x in FlaggedIds(ts)
        {
          var i :| 0 <= i < |ts[1..]| && ts[1..][i].isRead && ts[1..][i].id == x;
          assert ts[i + 1] == ts[1..][i];
        }
      }
    }
  }

  /** Seeding never changes whether a listed ticket counts as read: a flagged
      ticket is read anyway, and its id only makes same-id tickets read. */
  lemma SeedKeepsReadness(readIds: set<string>, ts: seq<Ticket>, i: nat)
    requires i < |ts|
    requires forall j :: 0 <= j < |ts| && ts[j].id == ts[i].id ==> ts[j].isRead == ts[i].isRead
    ensures IsRead(Seed(readIds, ts), ts[i]) <==> IsRead(readIds, ts[i])
  {
    SeedAddsFlagged(readIds, ts);
  }

  /** Seeding twice with the same tickets is seeding once. */
  lemma SeedIdempotent(readIds: set<string>, ts: seq<Ticket>)
    ensures Seed(Seed(readIds, ts), ts) == Seed(readIds, ts)
  {
    SeedAddsFlagged(readIds, ts);
    SeedAddsFlagged(Seed(readIds, ts), ts);
  }

  /** The outcome of one pass over "auto-mark selected ticket as read": the
      new id set, and the id sent to the backend's mark-read endpoint, if
      any. The endpoint's answer is not looked at. */
  datatype Marked = Marked(readIds: set<string>, apiCall: Option<string>)

  /** `if sel_id and sel_id not in read_ids: _api_mark_read(sel_id); read_ids.add(sel_id)`. */
  function MarkOnSelect(readIds: set<string>, sel: Option<string>): (r: Marked)
    ensures r.apiCall.Some? <==> sel.Some? && sel.value != "" && sel.value !in readIds
    ensures r.apiCall.Some? ==> r.apiCall == sel
    ensures sel.Some? && sel.value != "" ==> r.readIds == readIds + {sel.value}
    ensures sel.None? || sel.value == "" ==> r.readIds == readIds
  {
    match sel
    case Some(id) =>
      if id != "" && id !in readIds then Marked(readIds + {id}, Some(id))
      else Marked(readIds, None)
    case None => Marked(readIds, None)
  }

  /** Re-running the page with the same selection does not call the backend
      again, and leaves the id set as it was. */
  lemma MarkOnSelectOnce(readIds: set<string>, sel: Option<string>)
    ensures var first := MarkOnSelect(readIds, sel);
      var second := MarkOnSelect(first.readIds, sel);
      second.apiCall.None? && second.readIds == first.readIds
  {
  }

  /** What changes the id set during a session. */
  datatype Event = Loaded(ts: seq<Ticket>) | Selected(sel: Option<string>)

  function Step(readIds: set<string>, e: Event): (r: set<string>)
    ensures readIds <= r
  {
    match e
    case Loaded(ts) => Seed(readIds, ts)
    case Selected(sel) => MarkOnSelect(readIds, sel).readIds
  }

  /** The id set after a run of events. */
  function Run(readIds: set<string>, es: seq<Event>): (r: set<string>)
    decreases |es|
  {
    if es == [] then readIds else Run(Step(readIds, es[0]), es[1..])
  }

  /** Once a ticket counts as read it stays read, whatever happens next. */
  lemma {:induction false} ReadStaysRead(readIds: set<string>, es: seq<Event>, t: Ticket)
    requires IsRead(readIds, t)
    ensures IsRead(Run(readIds, es), t)
    decreases |es|
  {
    if es != [] {
      ReadStaysRead(Step(readIds, es[0]), es[1..], t);
    }
  }

  /** Selecting a ticket makes every ticket with its id count as read. */
  lemma SelectedIsRead(readIds: set<string>, t: Ticket, rest: seq<Event>)
    requires t.id != ""
    ensures IsRead(Run(readIds, [Selected(Some(t.id))] + rest), t)
  {
    var after := Step(readIds, Selected(Some(t.id)));
    assert ([Selected(Some(t.id))] + rest)[1..] == rest;
    ReadStaysRead(after, rest, t);
  }
}
