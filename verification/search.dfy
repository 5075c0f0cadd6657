/** The inbox search box (frontend/app.py, `_search_match`): a ticket matches
    a query when every whitespace-separated word of the lower-cased query
    occurs somewhere in the lower-cased text made of eleven of its fields. */
module Search {
  import opened Wrappers
  import opened Text
  import opened Tickets
  import Normalize

  const FieldCount: nat := 11

  /** The texts searched, in the order they are joined: the raw body, the
      customer name, summary, intent, category, priority, sentiment,
      transaction id and amount (absent ones as `""`), then the subject and
      the sender address derived from the body. */
  function Fields(t: Ticket): (fs: seq<string>)
    ensures |fs| == FieldCount
    ensures fs[0] == t.emailBody && fs[9] == Normalize.ExtractSubject(t.emailBody)
  {
    [ t.emailBody, t.customerName.GetOr(""), t.summary.GetOr(""), t.intent.GetOr(""),
      t.category.GetOr(""), t.priority.GetOr(""), t.sentiment.GetOr(""),
      t.transactionId.GetOr(""), t.amount.GetOr(""),
      Normalize.ExtractSubject(t.emailBody), Normalize.ExtractEmail(t.emailBody) ]
  }

  /** The searchable text: the fields joined by spaces, lower-cased. */
  function Haystack(t: Ticket): string {
    LowerStr(Join(Fields(t), ' '))
  }

  /** The search terms: `query.lower().split()`. */
  function Terms(query: string): (ws: seq<string>)
    ensures forall k :: 0 <= k < |ws| ==> ws[k] != [] && ' ' !in ws[k]
  {
    var ws := Words(LowerStr(query));
    assert forall k :: 0 <= k < |ws| ==> NoSpace(ws[k]);
    ws
  }

  /** `_search_match`: an empty query matches everything; otherwise every
      term must occur in the searchable text. */
  predicate Matches(t: Ticket, query: string) {
    query == "" || forall k :: 0 <= k < |Terms(query)| ==> Contains(Haystack(t), Terms(query)[k])
  }

  /** The empty query has no terms, so the explicit `not query` test agrees
      with the term test: a match is exactly "every term occurs". */
  lemma MatchesEveryTerm(t: Ticket, query: string)
    ensures Matches(t, query) <==> forall k :: 0 <= k < |Terms(query)| ==> Contains(Haystack(t), Terms(query)[k])
  {
    if query == "" {
      assert LowerStr(query) == "";
    }
  }

  /** A query made only of whitespace matches every ticket. */
  lemma BlankQueryMatches(t: Ticket, query: string)
    requires AllSpace(query)
    ensures Matches(t, query)
  {
    LowerAllSpace(query);
    WordsEmptyIff(LowerStr(query));
  }

  /** `w` occurs in one of the lower-cased fields of `t`. */
  predicate InSomeField(t: Ticket, w: string) {
    exists i :: 0 <= i < FieldCount && Contains(LowerStr(Fields(t)[i]), w)
  }

  /** Searching the joined text is searching field by field: a term occurs
      in the searchable text exactly when it occurs in one lower-cased field,
      because a term holds no space and so cannot straddle two fields. */
  lemma TermInSomeField(t: Ticket, w: string)
    requires w != [] && ' ' !in w
    ensures Contains(Haystack(t), w) <==> InSomeField(t, w)
  {
    var fs := Fields(t);
    var lowered := seq(|fs|, k requires 0 <= k < |fs| => LowerStr(fs[k]));
    LowerJoin(fs, ' ');
    assert Haystack(t) == Join(lowered, ' ');
    if Contains(Haystack(t), w) {
      JoinContainsOnly(lowered, ' ', w);
      var i :| 0 <= i < |lowered| && Contains(lowered[i], w);
      assert Contains(LowerStr(fs[i]), w);
    }
    if InSomeField(t, w) {
      var i :| 0 <= i < FieldCount && Contains(LowerStr(fs[i]), w);
      JoinContains(lowered, ' ', i, w);
    }
  }

  /** The field-by-field reading of `_search_match`: a ticket matches exactly
      when every term occurs in one of its lower-cased fields. */
  lemma MatchesByField(t: Ticket, query: string)
    ensures Matches(t, query) <==> forall k :: 0 <= k < |Terms(query)| ==> InSomeField(t, Terms(query)[k])
  {
    MatchesEveryTerm(t, query);
    var ws := Terms(query);
    forall k | 0 <= k < |ws|
      ensures Contains(Haystack(t), ws[k]) <==> InSomeField(t, ws[k])
    {
      TermInSomeField(t, ws[k]);
    }
  }

  /** The terms of two queries joined by a space are the terms of each. */
  lemma TermsConcat(q1: string, q2: string)
    ensures Terms(q1 + " " + q2) == Terms(q1) + Terms(q2)
  {
    LowerStrAppend(q1 + " ", q2);
    LowerStrAppend(q1, " ");
    assert LowerStr(" ") == " ";
    assert LowerStr(q1 + " " + q2) == LowerStr(q1) + [' '] + LowerStr(q2);
    WordsSpaceJoin(LowerStr(q1), ' ', LowerStr(q2));
  }

  /** Two queries joined by a space match exactly the tickets both match:
      typing another word can only narrow the result list. */
  lemma MatchesConjunction(t: Ticket, q1: string, q2: string)
    ensures Matches(t, q1 + " " + q2) <==> Matches(t, q1) && Matches(t, q2)
  {
    TermsConcat(q1, q2);
    MatchesEveryTerm(t, q1 + " " + q2);
    MatchesEveryTerm(t, q1);
    MatchesEveryTerm(t, q2);
    var ws := Terms(q1 + " " + q2);
    assert forall k :: 0 <= k < |Terms(q1)| ==> ws[k] == Terms(q1)[k];
    assert forall k :: 0 <= k < |Terms(q2)| ==> ws[|Terms(q1)| + k] == Terms(q2)[k];
  }

  /** `lower(upper(c)) == lower(c)` on each character. */
  lemma {:induction false} LowerUpperStr(s: string)
    ensures LowerStr(UpperStr(s)) == LowerStr(s)
    decreases |s|
  {
    if s != [] {
      LowerUpperStr(s[1..]);
      assert UpperStr(s)[1..] == UpperStr(s[1..]);
    }
  }

  /** The query's letter case does not matter. */
  lemma MatchesIgnoresCase(t: Ticket, query: string)
    ensures Matches(t, UpperStr(query)) <==> Matches(t, query)
  {
    LowerUpperStr(query);
    assert Terms(UpperStr(query)) == Terms(query);
    MatchesEveryTerm(t, query);
    MatchesEveryTerm(t, UpperStr(query));
  }
}
