/** The date groups of the e-mail list (frontend/app.py, `_date_group` and
    the bucketing loop of `_render_email_list`). A ticket's group depends on
    its calendar day and its age, both read on the wall clock of the
    ticket's own time zone; the buckets are a Python dict, so they come out
    in the order in which their first ticket is met. */
module Grouping {
  import opened Wrappers
  import opened Tickets
  import Seqs

  datatype Group = Today | Yesterday | ThisWeek | Earlier | Unknown

  /** The heading shown above a bucket. */
  function Label(g: Group): (s: string)
    ensures s != ""
  {
    match g
    case Today => "Today"
    case Yesterday => "Yesterday"
    case ThisWeek => "This Week"
    case Earlier => "Earlier"
    case Unknown => "Unknown"
  }

  lemma LabelInjective(g: Group, h: Group)
    ensures Label(g) == Label(h) <==> g == h
  {
  }

  /** `(now - dt).days`: the age in whole days, rounded toward minus infinity
      like `timedelta.days`. */
  function AgeDays(clock: Clock, m: Moment): int {
    (NowIn(clock, m) - m.wall) / MicrosPerDay
  }

  /** `_date_group`: a missing or empty stamp is Unknown, one that does not
      parse is Earlier; otherwise today's and yesterday's calendar days come
      first, then anything less than seven days old (a future ticket
      included), then the rest. */
  function DateGroup(clock: Clock, s: Stamp): (g: Group)
    ensures g == Unknown <==> s.raw == ""
    ensures s.raw != "" && s.parsed.None? ==> g == Earlier
    ensures s.raw != "" && s.parsed.Some? ==>
      var m := s.parsed.value;
      var now := NowIn(clock, m);
      && (g == Today <==> Day(m.wall) == Day(now))
      && (g == Yesterday <==> Day(m.wall) == Day(now) - 1)
      && (g == ThisWeek <==> Day(m.wall) != Day(now) && Day(m.wall) != Day(now) - 1 && AgeDays(clock, m) < 7)
  {
    if s.raw == "" then Unknown
    else match s.parsed
      case None => Earlier
      case Some(m) =>
        var now := NowIn(clock, m);
        YesterdayIsPreviousDay(now);
        if Day(m.wall) == Day(now) then Today
        else if Day(m.wall) == Day(now - MicrosPerDay) then Yesterday
        else if AgeDays(clock, m) < 7 then ThisWeek
        else Earlier
  }

  /** `(now - timedelta(days=1)).date()` is the calendar day before today. */
  lemma YesterdayIsPreviousDay(now: int)
    ensures Day(now - MicrosPerDay) == Day(now) - 1
  {
  }

  /** A ticket dated in the future on another calendar day falls under
      "This Week", however far ahead it is. */
  lemma FutureIsThisWeek(clock: Clock, s: Stamp)
    requires s.raw != "" && s.parsed.Some?
    requires s.parsed.value.wall > NowIn(clock, s.parsed.value)
    requires Day(s.parsed.value.wall) != Day(NowIn(clock, s.parsed.value))
    ensures DateGroup(clock, s) == ThisWeek
  {
  }

  /** The order in which groups are nearer to now. */
  function Recency(g: Group): nat {
    match g
    case Today => 0
    case Yesterday => 1
    case ThisWeek => 2
    case Earlier => 3
    case Unknown => 4
  }

  /** Of two past moments read in the same time zone, the older one is never
      in a more recent group. */
  lemma DateGroupMonotone(clock: Clock, older: Stamp, newer: Stamp)
    requires older.raw != "" && older.parsed.Some?
    requires newer.raw != "" && newer.parsed.Some?
    requires older.parsed.value.offset == newer.parsed.value.offset
    requires older.parsed.value.wall <= newer.parsed.value.wall <= NowIn(clock, newer.parsed.value)
    ensures Recency(DateGroup(clock, newer)) <= Recency(DateGroup(clock, older))
  {
    var o := older.parsed.value;
    var n := newer.parsed.value;
    assert NowIn(clock, o) == NowIn(clock, n);
    DayMonotone(o.wall, n.wall);
    DayMonotone(NowIn(clock, n) - n.wall, NowIn(clock, o) - o.wall);
  }

  lemma DayMonotone(a: int, b: int)
    requires a <= b
    ensures Day(a) <= Day(b)
  {
  }

  // ---------------------------------------------------------------------
  // Buckets
  // ---------------------------------------------------------------------

  function GroupOf(clock: Clock, t: Ticket): Group {
    DateGroup(clock, t.createdAt)
  }

  /** The condition selecting the tickets of group `g`. */
  function InGroup(clock: Clock, g: Group): Ticket -> bool {
    (t: Ticket) => GroupOf(clock, t) == g
  }

  /** `groups[g]`: one group name and its tickets. */
  datatype Bucket = Bucket(group: Group, members: seq<Ticket>)

  function GroupsOfBuckets(bs: seq<Bucket>): (gs: seq<Group>)
    ensures |gs| == |bs|
    ensures forall i :: 0 <= i < |bs| ==> gs[i] == bs[i].group
  {
    seq(|bs|, i requires 0 <= i < |bs| => bs[i].group)
  }

  /** The position of the bucket of `g` at or after `i`, if any. */
  function FindGroupFrom(bs: seq<Bucket>, g: Group, i: nat): (r: Option<nat>)
    requires i <= |bs|
    ensures r.Some? ==> i <= r.value < |bs| && bs[r.value].group == g
    ensures r.None? ==> forall j :: i <= j < |bs| ==> bs[j].group != g
    decreases |bs| - i
  {
    if i == |bs| then None
    else if bs[i].group == g then Some(i)
    else FindGroupFrom(bs, g, i + 1)
  }

  /** `g in groups`, and where. */
  function FindGroup(bs: seq<Bucket>, g: Group): (r: Option<nat>)
    ensures r.Some? ==> r.value < |bs| && bs[r.value].group == g
    ensures r.None? <==> g !in GroupsOfBuckets(bs)
  {
    var r := FindGroupFrom(bs, g, 0);
    if r.Some? then
      assert GroupsOfBuckets(bs)[r.value] == g;
      r
    else
      r
  }

  /** `groups.setdefault(g, []).append(t)`: appended to the bucket of `g` if
      there is one, otherwise in a new bucket at the end. */
  function AddTo(bs: seq<Bucket>, g: Group, t: Ticket): (r: seq<Bucket>)
    ensures g !in GroupsOfBuckets(bs) ==> r == bs + [Bucket(g, [t])]
    ensures g in GroupsOfBuckets(bs) ==> |r| == |bs|
  {
    match FindGroup(bs, g)
    case None => bs + [Bucket(g, [t])]
    case Some(i) => bs[i := Bucket(g, bs[i].members + [t])]
  }

  /** The bucketing loop over a list, one ticket after the other. */
  function BucketsOf(clock: Clock, ts: seq<Ticket>): seq<Bucket>
    decreases |ts|
  {
    if ts == [] then []
    else
      var t := ts[|ts| - 1];
      AddTo(BucketsOf(clock, ts[..|ts| - 1]), GroupOf(clock, t), t)
  }

  /** Independent reference for the bucket order: the distinct elements of a
      sequence in the order of their first occurrence. */
  function Dedup(s: seq<Group>): (r: seq<Group>)
    ensures forall x :: x in r <==> x in s
    ensures forall i, j :: 0 <= i < j < |r| ==> r[i] != r[j]
  {
    if s == [] then []
    else
      var init := Dedup(s[..|s| - 1]);
      assert s == s[..|s| - 1] + [s[|s| - 1]];
      if s[|s| - 1] in init then init else init + [s[|s| - 1]]
  }

  /** The group of every ticket, in list order. */
  function GroupSeq(clock: Clock, ts: seq<Ticket>): (gs: seq<Group>)
    ensures |gs| == |ts|
    ensures forall i :: 0 <= i < |ts| ==> gs[i] == GroupOf(clock, ts[i])
  {
    seq(|ts|, i requires 0 <= i < |ts| => GroupOf(clock, ts[i]))
  }

  /** Each bucket holds exactly its group's tickets of `ts`, in list order. */
  predicate MembersMatch(clock: Clock, bs: seq<Bucket>, ts: seq<Ticket>) {
    forall i :: 0 <= i < |bs| ==> bs[i].members == Seqs.Filter(ts, InGroup(clock, bs[i].group))
  }

  /** The buckets come in the order of each group's first ticket, and each
      holds exactly its group's tickets in list order. */
  lemma {:induction false} BucketsSpec(clock: Clock, ts: seq<Ticket>)
    ensures GroupsOfBuckets(BucketsOf(clock, ts)) == Dedup(GroupSeq(clock, ts))
    ensures forall i :: 0 <= i < |BucketsOf(clock, ts)| ==>
      BucketsOf(clock, ts)[i].members == Seqs.Filter(ts, InGroup(clock, BucketsOf(clock, ts)[i].group))
    decreases |ts|
  {
    if ts != [] {
      var init := ts[..|ts| - 1];
      var t := ts[|ts| - 1];
      BucketsSpec(clock, init);
      assert ts == init + [t];
      AddToSpec(clock, BucketsOf(clock, init), init, t);
      assert MembersMatch(clock, BucketsOf(clock, ts), ts);
    }
  }

  /** The group sequence of a longer list, and its distinct groups. */
  lemma GroupSeqSnoc(clock: Clock, init: seq<Ticket>, t: Ticket)
    ensures GroupSeq(clock, init + [t]) == GroupSeq(clock, init) + [GroupOf(clock, t)]
    ensures Dedup(GroupSeq(clock, init + [t])) ==
      if GroupOf(clock, t) in GroupSeq(clock, init) then Dedup(GroupSeq(clock, init))
      else Dedup(GroupSeq(clock, init)) + [GroupOf(clock, t)]
  {
    var gs := GroupSeq(clock, init + [t]);
    assert gs == GroupSeq(clock, init) + [GroupOf(clock, t)];
    assert gs[..|gs| - 1] == GroupSeq(clock, init);
  }

  /** One step of the bucketing loop keeps both halves of `BucketsSpec`. */
  lemma AddToSpec(clock: Clock, bs: seq<Bucket>, init: seq<Ticket>, t: Ticket)
    requires GroupsOfBuckets(bs) == Dedup(GroupSeq(clock, init))
    requires MembersMatch(clock, bs, init)
    ensures GroupsOfBuckets(AddTo(bs, GroupOf(clock, t), t)) == Dedup(GroupSeq(clock, init + [t]))
    ensures MembersMatch(clock, AddTo(bs, GroupOf(clock, t), t), init + [t])
  {
    var g := GroupOf(clock, t);
    var ts := init + [t];
    var r := AddTo(bs, g, t);
    GroupSeqSnoc(clock, init, t);
    match FindGroup(bs, g)
    case Some(i) =>
      assert GroupsOfBuckets(r) == GroupsOfBuckets(bs);
      forall j | 0 <= j < |r|
        ensures r[j].members == Seqs.Filter(ts, InGroup(clock, r[j].group))
      {
        Seqs.FilterSnoc(init, t, InGroup(clock, bs[j].group));
        if j != i {
          assert GroupsOfBuckets(bs)[j] != GroupsOfBuckets(bs)[i];
        }
      }
    case None =>
      assert g !in GroupSeq(clock, init);
      NoneInGroup(clock, init, g);
      Seqs.FilterSnoc(init, t, InGroup(clock, g));
      assert GroupsOfBuckets(r) == GroupsOfBuckets(bs) + [g];
      forall j | 0 <= j < |bs|
        ensures r[j].members == Seqs.Filter(ts, InGroup(clock, r[j].group))
      {
        Seqs.FilterSnoc(init, t, InGroup(clock, bs[j].group));
      }
  }

  /** A group that no ticket of the list has selects nothing. */
  lemma {:induction false} NoneInGroup(clock: Clock, ts: seq<Ticket>, g: Group)
    requires g !in GroupSeq(clock, ts)
    ensures Seqs.Filter(ts, InGroup(clock, g)) == []
    decreases |ts|
  {
    if ts != [] {
      assert GroupSeq(clock, ts)[0] == GroupOf(clock, ts[0]);
      assert GroupSeq(clock, ts[1..]) == GroupSeq(clock, ts)[1..];
      NoneInGroup(clock, ts[1..], g);
    }
  }

  /** A ticket's own group always has a bucket. */
  lemma BucketsCover(clock: Clock, ts: seq<Ticket>, i: nat)
    requires i < |ts|
    ensures GroupOf(clock, ts[i]) in GroupsOfBuckets(BucketsOf(clock, ts))
  {
    BucketsSpec(clock, ts);
    assert GroupSeq(clock, ts)[i] == GroupOf(clock, ts[i]);
  }
}
