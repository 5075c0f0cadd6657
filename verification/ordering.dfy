/** The order of the e-mail list (frontend/app.py, `_render_email_list`):
    `sorted` by the pair (priority rank, minus the creation timestamp), so
    High before Medium before everything else and, within a rank, newest
    first. Python's `sorted` is stable: tickets with equal keys keep their
    input order. Computing a key raises when `created_at` is present but not
    ISO-formatted, and then no list is produced at all. */
module Ordering {
  import opened Wrappers
  import opened Tickets
  import Seqs

  /** `_PRI_ORDER.get(t.get("priority", "Low"), 2)`. */
  function Rank(priority: Option<string>): (r: nat)
    ensures r <= 2
    ensures r == 0 <==> priority == Some("High")
    ensures r == 1 <==> priority == Some("Medium")
  {
    if priority == Some("High") then 0
    else if priority == Some("Medium") then 1
    else 2
  }

  /** A sort key: the rank, then minus the timestamp in microseconds. */
  datatype Key = Key(rank: nat, negEpoch: int)

  /** Lexicographic `<=` on key tuples. */
  predicate KeyLe(a: Key, b: Key) {
    a.rank < b.rank || (a.rank == b.rank && a.negEpoch <= b.negEpoch)
  }

  lemma KeyLeTotal(a: Key, b: Key)
    ensures KeyLe(a, b) || KeyLe(b, a)
    ensures KeyLe(a, b) && KeyLe(b, a) ==> a == b
  {
  }

  /** The key of one ticket, or `None` where `fromisoformat` raises. A missing
      or empty `created_at` counts as timestamp 0. */
  function KeyOf(clock: Clock, t: Ticket): (r: Option<Key>)
    ensures r.None? <==> t.createdAt.raw != "" && t.createdAt.parsed.None?
    ensures r.Some? ==> r.value.rank == Rank(t.priority)
    ensures r.Some? && t.createdAt.raw == "" ==> r.value.negEpoch == 0
    ensures r.Some? && t.createdAt.raw != "" ==> r.value.negEpoch == -Epoch(clock, t.createdAt.parsed.value)
  {
    if t.createdAt.raw == "" then Some(Key(Rank(t.priority), 0))
    else match t.createdAt.parsed
      case None => None
      case Some(m) => Some(Key(Rank(t.priority), -Epoch(clock, m)))
  }

  /** A ticket paired with its key. */
  datatype Keyed = Keyed(key: Key, t: Ticket)

  /** The keys of all tickets, or `None` as soon as one key cannot be computed. */
  function KeyAll(clock: Clock, ts: seq<Ticket>): (r: Option<seq<Keyed>>)
    ensures r.Some? <==> forall i :: 0 <= i < |ts| ==> KeyOf(clock, ts[i]).Some?
    ensures r.Some? ==> |r.value| == |ts|
    ensures r.Some? ==> forall i :: 0 <= i < |ts| ==> r.value[i] == Keyed(KeyOf(clock, ts[i]).value, ts[i])
  {
    if ts == [] then Some([])
    else match (KeyOf(clock, ts[0]), KeyAll(clock, ts[1..]))
      case (Some(k), Some(rest)) =>
        var r := [Keyed(k, ts[0])] + rest;
        assert forall i :: 1 <= i < |ts| ==> ts[i] == ts[1..][i - 1];
        Some(r)
      case (None, _) => None
      case (_, None) =>
        assert forall i :: 1 <= i < |ts| ==> ts[i] == ts[1..][i - 1];
        None
  }

  /** Ascending by key. */
  predicate Sorted(s: seq<Keyed>) {
    forall i, j :: 0 <= i < j < |s| ==> KeyLe(s[i].key, s[j].key)
  }

  /** Inserting `x` in front of the first element whose key is not below it;
      `x` therefore precedes the elements that share its key. */
  function Insert(x: Keyed, s: seq<Keyed>): (r: seq<Keyed>)
    ensures |r| == |s| + 1
    ensures multiset(r) == multiset(s) + multiset{x}
  {
    if s == [] || KeyLe(x.key, s[0].key) then [x] + s
    else
      assert s == [s[0]] + s[1..];
      [s[0]] + Insert(x, s[1..])
  }

  lemma {:induction false} InsertSorted(x: Keyed, s: seq<Keyed>)
    requires Sorted(s)
    ensures Sorted(Insert(x, s))
    decreases |s|
  {
    if s != [] && !KeyLe(x.key, s[0].key) {
      InsertSorted(x, s[1..]);
      var r := Insert(x, s);
      var tail := Insert(x, s[1..]);
      assert r == [s[0]] + tail;
      forall j | 0 <= j < |tail|
        ensures KeyLe(s[0].key, tail[j].key)
      {
        assert tail[j] in multiset(tail);
        assert tail[j] in multiset(s[1..]) || tail[j] == x;
        if tail[j] != x {
          var m :| 0 <= m < |s[1..]| && s[1..][m] == tail[j];
          assert s[m + 1] == tail[j];
        }
      }
    }
  }

  /** Insertion sort from the back: each element is inserted before the
      equal-keyed ones already placed, which is what makes it stable. */
  function SortKeyed(s: seq<Keyed>): (r: seq<Keyed>)
    ensures |r| == |s|
    ensures multiset(r) == multiset(s)
  {
    if s == [] then []
    else
      assert s == [s[0]] + s[1..];
      Insert(s[0], SortKeyed(s[1..]))
  }

  lemma {:induction false} SortKeyedSorted(s: seq<Keyed>)
    ensures Sorted(SortKeyed(s))
    decreases |s|
  {
    if s != [] {
      SortKeyedSorted(s[1..]);
      InsertSorted(s[0], SortKeyed(s[1..]));
    }
  }

  /** The elements carrying key `k`. */
  function OfKey(s: seq<Keyed>, k: Key): seq<Keyed> {
    Seqs.Filter(s, (e: Keyed) => e.key == k)
  }

  /** Insertion keeps the relative order of each key class, with `x` first
      in its own class. */
  lemma {:induction false} InsertOfKey(x: Keyed, s: seq<Keyed>, k: Key)
    ensures OfKey(Insert(x, s), k) == OfKey([x] + s, k)
    decreases |s|
  {
    if s != [] && !KeyLe(x.key, s[0].key) {
      InsertOfKey(x, s[1..], k);
      var tail := Insert(x, s[1..]);
      var px := if x.key == k then [x] else [];
      var p0 := if s[0].key == k then [s[0]] else [];
      assert Insert(x, s) == [s[0]] + tail;
      assert ([s[0]] + tail)[1..] == tail;
      assert OfKey(Insert(x, s), k) == p0 + OfKey(tail, k);
      assert ([x] + s[1..])[1..] == s[1..];
      assert OfKey(tail, k) == px + OfKey(s[1..], k);
      assert ([x] + s)[1..] == s;
      assert OfKey([x] + s, k) == px + OfKey(s, k);
      assert OfKey(s, k) == p0 + OfKey(s[1..], k);
      assert px == [] || p0 == [];
    }
  }

  /** Stability: the tickets sharing a key appear in the output in the same
      order as in the input. */
  lemma {:induction false} SortKeyedStable(s: seq<Keyed>, k: Key)
    ensures OfKey(SortKeyed(s), k) == OfKey(s, k)
    decreases |s|
  {
    if s != [] {
      SortKeyedStable(s[1..], k);
      InsertOfKey(s[0], SortKeyed(s[1..]), k);
      assert ([s[0]] + SortKeyed(s[1..]))[1..] == SortKeyed(s[1..]);
      assert ([s[0]] + s[1..]) == s;
    }
  }

  /** The tickets of a keyed list, in its order. */
  function Unkey(s: seq<Keyed>): (r: seq<Ticket>)
    ensures |r| == |s|
    ensures forall i :: 0 <= i < |s| ==> r[i] == s[i].t
  {
    seq(|s|, i requires 0 <= i < |s| => s[i].t)
  }

  lemma UnkeyCons(x: Keyed, s: seq<Keyed>)
    ensures Unkey([x] + s) == [x.t] + Unkey(s)
  {
  }

  /** Inserting a keyed ticket adds its ticket to the tickets. */
  lemma {:induction false} UnkeyInsert(x: Keyed, s: seq<Keyed>)
    ensures multiset(Unkey(Insert(x, s))) == multiset(Unkey(s)) + multiset{x.t}
    decreases |s|
  {
    UnkeyCons(x, s);
    if s != [] && !KeyLe(x.key, s[0].key) {
      UnkeyInsert(x, s[1..]);
      UnkeyCons(s[0], Insert(x, s[1..]));
      UnkeyCons(s[0], s[1..]);
      assert s == [s[0]] + s[1..];
    }
  }

  /** Sorting keeps the same tickets. */
  lemma {:induction false} UnkeySort(s: seq<Keyed>)
    ensures multiset(Unkey(SortKeyed(s))) == multiset(Unkey(s))
    decreases |s|
  {
    if s != [] {
      UnkeySort(s[1..]);
      UnkeyInsert(s[0], SortKeyed(s[1..]));
      UnkeyCons(s[0], s[1..]);
      assert s == [s[0]] + s[1..];
    }
  }

  /** The keyed list carries the tickets in their input order. */
  lemma UnkeyKeyAll(clock: Clock, ts: seq<Ticket>)
    requires KeyAll(clock, ts).Some?
    ensures Unkey(KeyAll(clock, ts).value) == ts
  {
  }

  /** `sorted(ticket_list, key=...)`: `None` where a key raises. */
  function SortTickets(clock: Clock, ts: seq<Ticket>): (r: Option<seq<Ticket>>)
    ensures r.Some? <==> forall i :: 0 <= i < |ts| ==> KeyOf(clock, ts[i]).Some?
    ensures r.Some? ==> |r.value| == |ts|
  {
    match KeyAll(clock, ts)
    case None => None
    case Some(ks) => Some(Unkey(SortKeyed(ks)))
  }

  /** What `sorted` promises about the ticket list: it holds the same
      tickets, High before Medium before the rest and newest first within a
      rank, and tickets with equal keys in their input order. */
  lemma SortTicketsSpec(clock: Clock, ts: seq<Ticket>)
    requires forall i :: 0 <= i < |ts| ==> KeyOf(clock, ts[i]).Some?
    ensures var ks := KeyAll(clock, ts).value;
      && SortTickets(clock, ts) == Some(Unkey(SortKeyed(ks)))
      && multiset(SortTickets(clock, ts).value) == multiset(ts)
      && multiset(SortKeyed(ks)) == multiset(ks)
      && Sorted(SortKeyed(ks))
      && forall k :: OfKey(SortKeyed(ks), k) == OfKey(ks, k)
  {
    var ks := KeyAll(clock, ts).value;
    SortKeyedSorted(ks);
    UnkeySort(ks);
    UnkeyKeyAll(clock, ts);
    forall k {
      SortKeyedStable(ks, k);
    }
  }

  /** `a` may stand before `b`: both keys exist and `a`'s is not larger, that
      is, `a` has the smaller rank, or the same rank and a timestamp no older. */
  predicate TicketBefore(clock: Clock, a: Ticket, b: Ticket) {
    && KeyOf(clock, a).Some? && KeyOf(clock, b).Some?
    && KeyLe(KeyOf(clock, a).value, KeyOf(clock, b).value)
  }

  /** Read in ticket terms: a ticket placed before another has a smaller
      rank, or the same rank and a timestamp no older. */
  lemma SortedTicketsOrder(clock: Clock, ts: seq<Ticket>, i: nat, j: nat)
    requires forall n :: 0 <= n < |ts| ==> KeyOf(clock, ts[n]).Some?
    requires i < j < |ts|
    ensures TicketBefore(clock, SortTickets(clock, ts).value[i], SortTickets(clock, ts).value[j])
  {
    var ks := KeyAll(clock, ts).value;
    var sk := SortKeyed(ks);
    SortKeyedSorted(ks);
    KeyedAreKeys(clock, ts, ks, sk[i]);
    KeyedAreKeys(clock, ts, ks, sk[j]);
  }

  /** Every element of the sorted keyed list carries its ticket's own key. */
  lemma KeyedAreKeys(clock: Clock, ts: seq<Ticket>, ks: seq<Keyed>, e: Keyed)
    requires KeyAll(clock, ts) == Some(ks)
    requires e in multiset(SortKeyed(ks))
    ensures KeyOf(clock, e.t) == Some(e.key)
  {
    assert e in multiset(ks);
    var m :| 0 <= m < |ks| && ks[m] == e;
  }
}
