/** String primitives with the semantics of the Python `str` methods the
    dashboard uses (`strip`, `split`, `join`, `lower`, `upper`, `startswith`,
    slicing, `in`, `replace`), restricted to ASCII where Python consults the
    Unicode database. */
module Text {
  import opened Wrappers

  // ---------------------------------------------------------------------
  // Characters
  // ---------------------------------------------------------------------

  /** `str.isspace` on the ASCII range: the six C whitespace characters and
      the four information separators U+001C..U+001F. */
  predicate IsSpace(c: char) {
    c == ' ' || c == '\t' || c == '\n' || c == '\r' || c == '\U{0B}' || c == '\U{0C}'
    || ('\U{1C}' <= c <= '\U{1F}')
  }

  predicate IsDigit(c: char) {
    '0' <= c <= '9'
  }

  predicate AllSpace(s: string) {
    forall k :: 0 <= k < |s| ==> IsSpace(s[k])
  }

  predicate NoSpace(s: string) {
    forall k :: 0 <= k < |s| ==> !IsSpace(s[k])
  }

  function Lower(c: char): char {
    if 'A' <= c <= 'Z' then (c as int + 32) as char else c
  }

  function Upper(c: char): char {
    if 'a' <= c <= 'z' then (c as int - 32) as char else c
  }

  /** `s.lower()`: changes letters only, position by position. */
  function LowerStr(s: string): (r: string)
    ensures |r| == |s|
  {
    if s == [] then [] else [Lower(s[0])] + LowerStr(s[1..])
  }

  lemma {:induction false} LowerStrAt(s: string, k: nat)
    requires k < |s|
    ensures LowerStr(s)[k] == Lower(s[k])
    decreases k
  {
    if k > 0 {
      LowerStrAt(s[1..], k - 1);
    }
  }

  /** `s.upper()`. */
  function UpperStr(s: string): (r: string)
    ensures |r| == |s|
    ensures forall k :: 0 <= k < |s| ==> r[k] == Upper(s[k])
  {
    seq(|s|, k requires 0 <= k < |s| => Upper(s[k]))
  }

  lemma {:induction false} LowerStrAppend(a: string, b: string)
    ensures LowerStr(a + b) == LowerStr(a) + LowerStr(b)
    decreases |a|
  {
    if a == [] {
      assert a + b == b;
    } else {
      assert (a + b)[1..] == a[1..] + b;
      LowerStrAppend(a[1..], b);
    }
  }

  // ---------------------------------------------------------------------
  // Prefixes, slices, containment
  // ---------------------------------------------------------------------

  /** `s.startswith(p)`. */
  predicate StartsWith(s: string, p: string) {
    |p| <= |s| && s[..|p|] == p
  }

  /** `s[:n]`: the first `n` characters, or all of `s` when it is shorter. */
  function Take(s: string, n: nat): (r: string)
    ensures |r| <= n && |r| <= |s|
    ensures |s| <= n ==> r == s
    ensures n < |s| ==> |r| == n
    ensures StartsWith(s, r)
  {
    if |s| <= n then s else s[..n]
  }

  predicate OccursAt(h: string, n: string, i: nat) {
    i + |n| <= |h| && h[i..i + |n|] == n
  }

  /** `n in h` for strings: `n` is a contiguous substring of `h`. */
  predicate Contains(h: string, n: string) {
    exists i: nat | i <= |h| :: OccursAt(h, n, i)
  }

  /** Whatever occurs in a piece also occurs in a string that embeds the piece. */
  lemma ContainsInContext(x: string, p: string, y: string, n: string)
    requires Contains(p, n)
    ensures Contains(x + p + y, n)
  {
    var i: nat :| i <= |p| && OccursAt(p, n, i);
    assert i + |n| <= |p|;
    assert (x + p + y)[|x| + i..|x| + i + |n|] == p[i..i + |n|];
    assert OccursAt(x + p + y, n, |x| + i);
  }

  // ---------------------------------------------------------------------
  // strip
  // ---------------------------------------------------------------------

  /** `s.lstrip()`. */
  function TrimLeft(s: string): (r: string)
    ensures |r| <= |s|
    decreases |s|
  {
    if |s| > 0 && IsSpace(s[0]) then TrimLeft(s[1..]) else s
  }

  /** `lstrip` keeps the longest suffix that does not start with whitespace. */
  lemma {:induction false} TrimLeftSpec(s: string)
    ensures TrimLeft(s) == s[|s| - |TrimLeft(s)|..]
    ensures AllSpace(s[..|s| - |TrimLeft(s)|])
    ensures TrimLeft(s) == [] || !IsSpace(TrimLeft(s)[0])
    decreases |s|
  {
    if |s| > 0 && IsSpace(s[0]) {
      TrimLeftSpec(s[1..]);
    }
  }

  /** `s.rstrip()`. */
  function TrimRight(s: string): (r: string)
    ensures |r| <= |s|
    decreases |s|
  {
    if |s| > 0 && IsSpace(s[|s| - 1]) then TrimRight(s[..|s| - 1]) else s
  }

  /** `rstrip` keeps the longest prefix that does not end with whitespace. */
  lemma {:induction false} TrimRightSpec(s: string)
    ensures TrimRight(s) == s[..|TrimRight(s)|]
    ensures AllSpace(s[|TrimRight(s)|..])
    ensures TrimRight(s) == [] || !IsSpace(TrimRight(s)[|TrimRight(s)| - 1])
    decreases |s|
  {
    if |s| > 0 && IsSpace(s[|s| - 1]) {
      var init := s[..|s| - 1];
      TrimRightSpec(init);
      var n := |TrimRight(init)|;
      assert TrimRight(s) == TrimRight(init);
      assert s[..n] == init[..n];
      assert s[n..] == init[n..] + [s[|s| - 1]];
    }
  }

  /** `s.strip()`. */
  function Strip(s: string): (r: string)
    ensures |r| <= |s|
  {
    TrimRight(TrimLeft(s))
  }

  /** `s.strip()` is the slice `s[i..j]` with only whitespace outside it and
      no whitespace at either of its own ends. */
  lemma StripBounds(s: string) returns (i: nat, j: nat)
    ensures i <= j <= |s| && Strip(s) == s[i..j]
    ensures AllSpace(s[..i]) && AllSpace(s[j..])
    ensures Strip(s) == [] || (!IsSpace(Strip(s)[0]) && !IsSpace(Strip(s)[|Strip(s)| - 1]))
  {
    var t := TrimLeft(s);
    TrimLeftSpec(s);
    var r := TrimRight(t);
    TrimRightSpec(t);
    i := |s| - |t|;
    j := i + |r|;
    assert r == s[i..j];
    assert s[j..] == t[|r|..];
  }

  /** A slice whose ends are not whitespace is left alone by `strip`. */
  lemma StripOfStripped(s: string)
    requires s == [] || (!IsSpace(s[0]) && !IsSpace(s[|s| - 1]))
    ensures Strip(s) == s
  {
  }

  /** `strip` is idempotent. */
  lemma StripIdempotent(s: string)
    ensures Strip(Strip(s)) == Strip(s)
  {
    var _, _ := StripBounds(s);
    StripOfStripped(Strip(s));
  }

  /** Whitespace added in front does not change `strip`. */
  lemma StripConsSpace(c: char, s: string)
    requires IsSpace(c)
    ensures Strip([c] + s) == Strip(s)
  {
    assert ([c] + s)[1..] == s;
  }

  /** Whitespace added at the end does not change `strip`. */
  lemma StripSnocSpace(s: string, c: char)
    requires IsSpace(c)
    ensures Strip(s + [c]) == Strip(s)
  {
    TrimLeftAppend(s, [c]);
    if AllSpace(s) {
      assert [c][1..] == [];
      TrimLeftAppend(s, []);
      assert s + [] == s;
    } else {
      var t := TrimLeft(s);
      assert (t + [c])[..|t + [c]| - 1] == t;
    }
  }

  /** `strip` yields the empty string exactly for whitespace-only input. */
  lemma StripEmptyIff(s: string)
    ensures Strip(s) == [] <==> AllSpace(s)
  {
    var i, j := StripBounds(s);
    if j > i {
      assert Strip(s)[0] == s[i];
    }
    assert s == s[..i] + s[i..j] + s[j..];
  }

  // ---------------------------------------------------------------------
  // find / split / join
  // ---------------------------------------------------------------------

  /** The first index at or after `i` holding `c`. */
  function IndexFrom(s: string, c: char, i: nat): (r: Option<nat>)
    requires i <= |s|
    ensures r.Some? ==> i <= r.value < |s| && s[r.value] == c
    ensures r.Some? ==> forall k :: i <= k < r.value ==> s[k] != c
    ensures r.None? ==> forall k :: i <= k < |s| ==> s[k] != c
    decreases |s| - i
  {
    if i == |s| then None
    else if s[i] == c then Some(i)
    else IndexFrom(s, c, i + 1)
  }

  /** `s.find(c)`, with `None` for -1. */
  function IndexOf(s: string, c: char): (r: Option<nat>)
    ensures r.Some? ==> r.value < |s| && s[r.value] == c && c !in s[..r.value]
    ensures r.None? <==> c !in s
  {
    var r := IndexFrom(s, c, 0);
    if r.Some? then
      assert forall k :: 0 <= k < r.value ==> s[..r.value][k] != c;
      r
    else
      r
  }

  /** `s.split(c)` for a one-character separator: never empty, and no piece
      contains the separator. */
  function Split(s: string, c: char): (parts: seq<string>)
    ensures |parts| >= 1
    ensures forall k :: 0 <= k < |parts| ==> c !in parts[k]
    decreases |s|
  {
    match IndexOf(s, c)
    case None => [s]
    case Some(k) => [s[..k]] + Split(s[k + 1..], c)
  }

  /** `c.join(parts)` for a one-character separator. */
  function Join(parts: seq<string>, c: char): string
  {
    if |parts| == 0 then ""
    else if |parts| == 1 then parts[0]
    else parts[0] + [c] + Join(parts[1..], c)
  }

  /** Splitting and re-joining on the same separator gives back the text. */
  lemma {:induction false} JoinSplit(s: string, c: char)
    ensures Join(Split(s, c), c) == s
    decreases |s|
  {
    match IndexOf(s, c)
    case None =>
    case Some(k) =>
      var rest := s[k + 1..];
      var tail := Split(rest, c);
      JoinSplit(rest, c);
      assert Split(s, c) == [s[..k]] + tail;
      assert ([s[..k]] + tail)[1..] == tail;
      assert Join([s[..k]] + tail, c) == s[..k] + [c] + Join(tail, c);
      assert s == s[..k] + [c] + rest;
  }

  lemma IndexOfPrefixed(p: string, c: char, rest: string)
    requires c !in p
    ensures IndexOf(p + [c] + rest, c) == Some(|p|)
  {
    var s := p + [c] + rest;
    assert s[|p|] == c;
    assert s[..|p|] == p;
  }

  /** Joining pieces free of the separator and splitting again gives back the pieces. */
  lemma {:induction false} SplitJoin(parts: seq<string>, c: char)
    requires |parts| >= 1
    requires forall k :: 0 <= k < |parts| ==> c !in parts[k]
    ensures Split(Join(parts, c), c) == parts
    decreases |parts|
  {
    if |parts| > 1 {
      var rest := Join(parts[1..], c);
      IndexOfPrefixed(parts[0], c, rest);
      var s := parts[0] + [c] + rest;
      assert Join(parts, c) == s;
      assert s[..|parts[0]|] == parts[0];
      assert s[|parts[0]| + 1..] == rest;
      SplitJoin(parts[1..], c);
      assert Split(s, c) == [parts[0]] + Split(rest, c);
      assert parts == [parts[0]] + parts[1..];
    } else {
      assert IndexOf(parts[0], c) == None;
    }
  }

  /** Joining one more piece at the end adds a separator and the piece. */
  lemma {:induction false} JoinSnoc(parts: seq<string>, x: string, c: char)
    requires |parts| >= 1
    ensures Join(parts + [x], c) == Join(parts, c) + [c] + x
    decreases |parts|
  {
    if |parts| == 1 {
      assert (parts + [x])[1..] == [x];
    } else {
      assert (parts + [x])[1..] == parts[1..] + [x];
      JoinSnoc(parts[1..], x, c);
    }
  }

  /** `split` of a text with a separator in front: an empty first piece. */
  lemma SplitConsSep(s: string, c: char)
    ensures Split([c] + s, c) == [""] + Split(s, c)
  {
    var p := Split(s, c);
    JoinSplit(s, c);
    var q := [""] + p;
    assert q[1..] == p;
    assert Join(q, c) == "" + [c] + Join(p, c);
    assert "" + [c] + s == [c] + s;
    SplitJoin(q, c);
  }

  /** Searching past a character put in front finds the same place, shifted. */
  lemma {:induction false} IndexFromCons(a: char, s: string, c: char, i: nat)
    requires i <= |s|
    ensures IndexFrom([a] + s, c, i + 1) ==
      if IndexFrom(s, c, i).Some? then Some(IndexFrom(s, c, i).value + 1) else None
    decreases |s| - i
  {
    if i < |s| {
      assert ([a] + s)[i + 1] == s[i];
      IndexFromCons(a, s, c, i + 1);
    }
  }

  /** `split` of a text with another character in front: it joins the
      first piece. */
  lemma SplitConsOther(a: char, s: string, c: char)
    requires a != c
    ensures Split([a] + s, c) == [[a] + Split(s, c)[0]] + Split(s, c)[1..]
  {
    var t := [a] + s;
    IndexFromCons(a, s, c, 0);
    assert IndexOf(t, c) == IndexFrom(t, c, 1);
    match IndexOf(s, c)
    case None =>
    case Some(k) =>
      assert t[..k + 1] == [a] + s[..k];
      assert t[k + 2..] == s[k + 1..];
  }

  /** A character put at the end of the last piece comes out at the end of
      the joined text. */
  lemma JoinSnocChar(p: seq<string>, a: char, c: char)
    requires |p| >= 1
    ensures Join(p[..|p| - 1] + [p[|p| - 1] + [a]], c) == Join(p, c) + [a]
  {
    var n := |p|;
    var last := p[n - 1] + [a];
    if n == 1 {
      assert p[..n - 1] + [last] == [last];
    } else {
      JoinSnoc(p[..n - 1], last, c);
      JoinSnoc(p[..n - 1], p[n - 1], c);
      assert p[..n - 1] + [p[n - 1]] == p;
    }
  }

  lemma SplitSnocSep(s: string, c: char)
    ensures Split(s + [c], c) == Split(s, c) + [""]
  {
    var p := Split(s, c);
    JoinSplit(s, c);
    JoinSnoc(p, "", c);
    assert Join(p + [""], c) == s + [c];
    SplitJoin(p + [""], c);
  }

  lemma SplitSnocOther(s: string, a: char, c: char)
    requires a != c
    ensures var p := Split(s, c);
      Split(s + [a], c) == p[..|p| - 1] + [p[|p| - 1] + [a]]
  {
    var p := Split(s, c);
    var n := |p|;
    JoinSplit(s, c);
    var last := p[n - 1] + [a];
    var q := p[..n - 1] + [last];
    assert c !in last by {
      assert forall k :: 0 <= k < |last| ==> last[k] == if k < |p[n - 1]| then p[n - 1][k] else a;
    }
    forall k | 0 <= k < |q|
      ensures c !in q[k]
    {
      if k < n - 1 { assert q[k] == p[k]; } else { assert q[k] == last; }
    }
    JoinSnocChar(p, a, c);
    SplitJoin(q, c);
  }

  /** `split` of a text with one more character at the end: a separator
      closes an empty last piece, any other character joins the last piece. */
  lemma SplitSnoc(s: string, a: char, c: char)
    ensures a == c ==> Split(s + [a], c) == Split(s, c) + [""]
    ensures a != c ==>
      var p := Split(s, c);
      Split(s + [a], c) == p[..|p| - 1] + [p[|p| - 1] + [a]]
  {
    if a == c { SplitSnocSep(s, c); } else { SplitSnocOther(s, a, c); }
  }

  /** Each piece appears in the joined text, between some prefix and suffix. */
  lemma {:induction false} JoinEmbeds(parts: seq<string>, c: char, i: nat)
    requires i < |parts|
    ensures exists x, y :: Join(parts, c) == x + parts[i] + y
    decreases |parts|
  {
    if |parts| == 1 {
      assert Join(parts, c) == "" + parts[0] + "";
    } else if i == 0 {
      assert Join(parts, c) == "" + parts[0] + ([c] + Join(parts[1..], c));
    } else {
      JoinEmbeds(parts[1..], c, i - 1);
      var x, y :| Join(parts[1..], c) == x + parts[1..][i - 1] + y;
      assert Join(parts, c) == (parts[0] + [c] + x) + parts[i] + y;
    }
  }

  /** Whatever occurs in one of the pieces occurs in the joined text. */
  lemma JoinContains(parts: seq<string>, c: char, i: nat, n: string)
    requires i < |parts| && Contains(parts[i], n)
    ensures Contains(Join(parts, c), n)
  {
    JoinEmbeds(parts, c, i);
    var x, y :| Join(parts, c) == x + parts[i] + y;
    ContainsInContext(x, parts[i], y, n);
  }

  /** An occurrence of `n` covers every position of the text between its ends. */
  lemma OccurrenceCovers(h: string, n: string, i: nat, pos: nat)
    requires OccursAt(h, n, i) && i <= pos < i + |n|
    ensures h[pos] in n
  {
    assert h[pos] == h[i..i + |n|][pos - i];
  }

  /** An occurrence in `p + [c] + q` of a text without `c` lies in `p` or in `q`. */
  lemma ContainsSplitAt(p: string, c: char, q: string, n: string)
    requires c !in n
    requires Contains(p + [c] + q, n)
    ensures Contains(p, n) || Contains(q, n)
  {
    var h := p + [c] + q;
    var i: nat :| i <= |h| && OccursAt(h, n, i);
    if i + |n| <= |p| {
      assert h[i..i + |n|] == p[i..i + |n|];
      assert OccursAt(p, n, i);
    } else if i > |p| {
      assert h[i..i + |n|] == q[i - |p| - 1..i - |p| - 1 + |n|];
      assert OccursAt(q, n, i - |p| - 1);
    } else {
      OccurrenceCovers(h, n, i, |p|);
      assert false;
    }
  }

  /** Conversely to `JoinContains`: a non-empty text without the separator
      that occurs in the joined text occurs in one of the pieces. */
  lemma {:induction false} JoinContainsOnly(parts: seq<string>, c: char, n: string)
    requires c !in n && n != []
    requires Contains(Join(parts, c), n)
    ensures exists i :: 0 <= i < |parts| && Contains(parts[i], n)
    decreases |parts|
  {
    if |parts| > 1 {
      ContainsSplitAt(parts[0], c, Join(parts[1..], c), n);
      if !Contains(parts[0], n) {
        JoinContainsOnly(parts[1..], c, n);
        var i :| 0 <= i < |parts[1..]| && Contains(parts[1..][i], n);
        assert Contains(parts[i + 1], n);
      }
    }
  }

  /** Lower-casing commutes with joining on a separator that has no case. */
  lemma {:induction false} LowerJoin(parts: seq<string>, c: char)
    requires Lower(c) == c
    ensures LowerStr(Join(parts, c)) == Join(seq(|parts|, k requires 0 <= k < |parts| => LowerStr(parts[k])), c)
    decreases |parts|
  {
    var lowered := seq(|parts|, k requires 0 <= k < |parts| => LowerStr(parts[k]));
    if |parts| > 1 {
      LowerJoin(parts[1..], c);
      assert lowered[1..] == seq(|parts[1..]|, k requires 0 <= k < |parts[1..]| => LowerStr(parts[1..][k]));
      LowerStrAppend(parts[0] + [c], Join(parts[1..], c));
      LowerStrAppend(parts[0], [c]);
    }
  }

  // ---------------------------------------------------------------------
  // split() on whitespace
  // ---------------------------------------------------------------------

  /** The end of the run of non-whitespace characters starting at `i`. */
  function WordEnd(s: string, i: nat): (j: nat)
    requires i <= |s|
    ensures i <= j <= |s|
    ensures forall k :: i <= k < j ==> !IsSpace(s[k])
    ensures j == |s| || IsSpace(s[j])
    decreases |s| - i
  {
    if i == |s| || IsSpace(s[i]) then i else WordEnd(s, i + 1)
  }

  lemma NoSpacePrefix(t: string, k: nat)
    requires k <= |t|
    requires forall j :: 0 <= j < k ==> !IsSpace(t[j])
    ensures NoSpace(t[..k])
  {
  }

  /** `s.split()`: the maximal runs of non-whitespace characters, in order. */
  function Words(s: string): (ws: seq<string>)
    ensures forall i :: 0 <= i < |ws| ==> ws[i] != [] && NoSpace(ws[i])
    decreases |s|
  {
    var t := TrimLeft(s);
    if t == [] then
      []
    else
      TrimLeftSpec(s);
      var k := WordEnd(t, 0);
      NoSpacePrefix(t, k);
      var w := t[..k];
      var rest := Words(t[k..]);
      assert forall i :: 0 < i < |[w] + rest| ==> ([w] + rest)[i] == rest[i - 1];
      [w] + rest
  }

  /** `split()` finds no word exactly in a whitespace-only string. */
  lemma WordsEmptyIff(s: string)
    ensures Words(s) == [] <==> AllSpace(s)
  {
    var t := TrimLeft(s);
    TrimLeftSpec(s);
    assert s == s[..|s| - |t|] + t;
    if t != [] {
      assert s[|s| - |t|] == t[0];
    }
  }

  /** Left-stripping looks through a whitespace-only prefix and stops inside
      any other prefix. */
  lemma {:induction false} TrimLeftAppend(x: string, y: string)
    ensures AllSpace(x) ==> TrimLeft(x + y) == TrimLeft(y)
    ensures !AllSpace(x) ==> TrimLeft(x + y) == TrimLeft(x) + y
    decreases |x|
  {
    if x == [] {
      assert x + y == y;
    } else {
      assert (x + y)[0] == x[0];
      assert (x + y)[1..] == x[1..] + y;
      assert forall k :: 0 <= k < |x[1..]| ==> x[1..][k] == x[k + 1];
      TrimLeftAppend(x[1..], y);
    }
  }

  /** A word that ends inside `t`, or at a whitespace character that follows
      `t`, ends at the same place in `t + y`. */
  lemma {:induction false} WordEndAppend(t: string, y: string, i: nat)
    requires i <= |t|
    requires WordEnd(t, i) < |t| || (y != [] && IsSpace(y[0]))
    ensures WordEnd(t + y, i) == WordEnd(t, i)
    decreases |t| - i
  {
    if i < |t| && !IsSpace(t[i]) {
      WordEndAppend(t, y, i + 1);
    }
  }

  /** `s.lower()` keeps whitespace where it is. */
  lemma {:induction false} LowerAllSpace(s: string)
    requires AllSpace(s)
    ensures AllSpace(LowerStr(s))
    decreases |s|
  {
    if s != [] {
      LowerAllSpace(s[1..]);
      assert LowerStr(s) == [Lower(s[0])] + LowerStr(s[1..]);
    }
  }

  /** `split()` looks through leading whitespace. */
  lemma WordsAfterTrim(s: string)
    ensures Words(s) == Words(TrimLeft(s))
  {
    TrimLeftSpec(s);
    var t := TrimLeft(s);
    if t != [] {
      assert TrimLeft(t) == t;
    }
  }

  /** On a text that starts with a word, `split()` returns that word and the
      words after it. */
  lemma WordsStep(t: string)
    requires t != [] && !IsSpace(t[0])
    ensures Words(t) == [t[..WordEnd(t, 0)]] + Words(t[WordEnd(t, 0)..])
  {
    assert TrimLeft(t) == t;
  }

  /** Whitespace in front of a text adds no word. */
  lemma WordsAfterBlanks(x: string, y: string)
    requires AllSpace(x)
    ensures Words(x + y) == Words(y)
  {
    TrimLeftAppend(x, y);
    WordsAfterTrim(x + y);
    WordsAfterTrim(y);
  }

  /** The first word of a text that is not all whitespace stays the first
      word when whitespace and more text follow. */
  lemma WordsFirstWord(a: string, y: string) returns (w: string, rest: string)
    requires !AllSpace(a)
    requires y != [] && IsSpace(y[0])
    ensures |rest| < |a|
    ensures Words(a) == [w] + Words(rest)
    ensures Words(a + y) == [w] + Words(rest + y)
  {
    WordsEmptyIff(a);
    WordsAfterTrim(a);
    TrimLeftAppend(a, y);
    WordsAfterTrim(a + y);
    var t := TrimLeft(a);
    TrimLeftSpec(a);
    var k := WordEnd(t, 0);
    WordEndAppend(t, y, 0);
    WordsStep(t);
    WordsStep(t + y);
    w := t[..k];
    rest := t[k..];
    assert (t + y)[..k] == w;
    assert (t + y)[k..] == rest + y;
  }

  /** Splitting on whitespace a text glued together by a whitespace character
      gives the words of each side, in order. */
  lemma {:induction false} WordsSpaceJoin(a: string, c: char, b: string)
    requires IsSpace(c)
    ensures Words(a + [c] + b) == Words(a) + Words(b)
    decreases |a|
  {
    var y := [c] + b;
    assert a + [c] + b == a + y;
    if AllSpace(a) {
      WordsEmptyIff(a);
      assert AllSpace(a + [c]);
      assert a + [c] + b == (a + [c]) + b;
      WordsAfterBlanks(a + [c], b);
    } else {
      var w, rest := WordsFirstWord(a, y);
      WordsSpaceJoin(rest, c, b);
      assert rest + [c] + b == rest + y;
    }
  }

  // ---------------------------------------------------------------------
  // replace(old, new, 1)
  // ---------------------------------------------------------------------

  /** The first index at or after `i` where `p` occurs in `s`. */
  function FindFrom(s: string, p: string, i: nat): (r: Option<nat>)
    requires i <= |s|
    ensures r.Some? ==> i <= r.value && OccursAt(s, p, r.value)
    ensures r.Some? ==> forall k :: i <= k < r.value ==> !OccursAt(s, p, k)
    ensures r.None? ==> forall k :: i <= k ==> !OccursAt(s, p, k)
    decreases |s| - i
  {
    if OccursAt(s, p, i) then Some(i)
    else if i == |s| then None
    else FindFrom(s, p, i + 1)
  }

  /** `s.replace(pat, repl, 1)`: the leftmost occurrence of `pat` is replaced by `repl`. */
  function ReplaceFirst(s: string, pat: string, repl: string): string
  {
    match FindFrom(s, pat, 0)
    case None => s
    case Some(k) => s[..k] + repl + s[k + |pat|..]
  }

  // ---------------------------------------------------------------------
  // Decimal numerals
  // ---------------------------------------------------------------------

  function DigitChar(d: nat): (c: char)
    requires d < 10
    ensures IsDigit(c)
  {
    ('0' as int + d) as char
  }

  function DigitValue(c: char): (d: nat)
    requires IsDigit(c)
    ensures d < 10
  {
    c as int - '0' as int
  }

  predicate AllDigits(s: string) {
    forall k :: 0 <= k < |s| ==> IsDigit(s[k])
  }

  /** The value of a run of decimal digits (`int()` of a digit string; 0 for none). */
  function DigitsValue(s: string): nat
    requires AllDigits(s)
  {
    if s == [] then 0 else 10 * DigitsValue(s[..|s| - 1]) + DigitValue(s[|s| - 1])
  }

  /** `str(n)` for a natural number. */
  function NatToString(n: nat): (r: string)
    ensures r != [] && AllDigits(r)
    decreases n
  {
    if n < 10 then [DigitChar(n)] else NatToString(n / 10) + [DigitChar(n % 10)]
  }

  /** `str(n)` for an integer: a leading minus sign for negatives. */
  function IntToString(n: int): (r: string)
    ensures n >= 0 ==> r == NatToString(n)
    ensures n < 0 ==> r == "-" + NatToString(-n)
  {
    if n >= 0 then NatToString(n) else "-" + NatToString(-n)
  }

  /** Reading back a rendered natural number gives the number. */
  lemma {:induction false} NatToStringRoundTrip(n: nat)
    ensures DigitsValue(NatToString(n)) == n
    decreases n
  {
    if n >= 10 {
      NatToStringRoundTrip(n / 10);
      var r := NatToString(n);
      assert r[..|r| - 1] == NatToString(n / 10);
    }
  }
}
