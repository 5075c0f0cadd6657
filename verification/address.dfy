/** The e-mail address pattern `[\w.+-]+@[\w-]+\.[\w.-]+` searched for on a
    `From:` line (frontend/app.py, `_extract_email_addr`), with `\w` read as
    ASCII `[A-Za-z0-9_]`.

    Because `@` is not a local-part character and `.` is not a domain
    character, the regex engine's backtracking never changes where those two
    separators land: a match at a position is determined by three maximal
    character runs. `MatchAt` computes it that way; its contract says it is
    exactly the longest address-shaped substring starting there. */
module Address {
  import opened Wrappers

  predicate IsWordChar(c: char) {
    ('a' <= c <= 'z') || ('A' <= c <= 'Z') || ('0' <= c <= '9') || c == '_'
  }

  /** `[\w.+-]` */
  predicate IsLocalChar(c: char) {
    IsWordChar(c) || c == '.' || c == '+' || c == '-'
  }

  /** `[\w-]` */
  predicate IsDomainChar(c: char) {
    IsWordChar(c) || c == '-'
  }

  /** `[\w.-]` */
  predicate IsTldChar(c: char) {
    IsWordChar(c) || c == '.' || c == '-'
  }

  /** Every character of `s[lo..hi]` is in class `p`. */
  predicate AllIn(s: string, lo: nat, hi: nat, p: char -> bool)
    requires hi <= |s|
  {
    forall k :: lo <= k < hi ==> p(s[k])
  }

  /** The end of the longest run of class `p` starting at `i` (a greedy `+`/`*`). */
  function RunEnd(s: string, i: nat, p: char -> bool): (j: nat)
    requires i <= |s|
    ensures i <= j <= |s|
    ensures forall k :: i <= k < j ==> p(s[k])
    ensures j == |s| || !p(s[j])
    decreases |s| - i
  {
    if i == |s| || !p(s[i]) then i else RunEnd(s, i + 1, p)
  }

  /** `s[i..e]` is address-shaped with its `@` at `a` and the first `.` of the
      domain at `b`: a non-empty local part, `@`, a non-empty domain label,
      `.`, and a non-empty tail. */
  predicate ShapedAt(s: string, i: nat, a: nat, b: nat, e: nat) {
    && i < a && a + 1 < b && b + 1 < e && e <= |s|
    && AllIn(s, i, a, IsLocalChar) && s[a] == '@'
    && AllIn(s, a + 1, b, IsDomainChar) && s[b] == '.'
    && AllIn(s, b + 1, e, IsTldChar)
  }

  /** A whole string that is address-shaped. */
  ghost predicate IsAddress(w: string) {
    exists a: nat, b: nat :: ShapedAt(w, 0, a, b, |w|)
  }

  /** No substring of `s` is address-shaped. */
  ghost predicate NoAddress(s: string) {
    forall i: nat, a: nat, b: nat, e: nat :: !ShapedAt(s, i, a, b, e)
  }

  /** Where a match lies: its start, its `@`, its first domain `.`, its end. */
  datatype Span = Span(start: nat, at: nat, dot: nat, end: nat)

  /** The pattern anchored at `i` (what `re.match` would return at `i`):
      the longest address-shaped substring starting at `i`, if any. */
  function MatchAt(s: string, i: nat): (r: Option<Span>)
    requires i <= |s|
    ensures r.Some? ==> r.value.start == i && ShapedAt(s, i, r.value.at, r.value.dot, r.value.end)
    ensures r.Some? ==> forall a: nat, b: nat, e: nat :: ShapedAt(s, i, a, b, e) ==> e <= r.value.end
    ensures r.None? ==> forall a: nat, b: nat, e: nat :: !ShapedAt(s, i, a, b, e)
  {
    var a := RunEnd(s, i, IsLocalChar);
    if a == i || a == |s| || s[a] != '@' then
      None
    else
      var b := RunEnd(s, a + 1, IsDomainChar);
      if b == a + 1 || b == |s| || s[b] != '.' then
        None
      else
        var e := RunEnd(s, b + 1, IsTldChar);
        if e == b + 1 then None else Some(Span(i, a, b, e))
  }

  /** The leftmost match at or after position `i`. */
  function SearchFrom(s: string, i: nat): (r: Option<Span>)
    requires i <= |s|
    ensures r.Some? ==> i <= r.value.start <= |s| && MatchAt(s, r.value.start) == r
    ensures r.Some? ==> forall k: nat, a: nat, b: nat, e: nat :: i <= k < r.value.start ==> !ShapedAt(s, k, a, b, e)
    ensures r.None? ==> forall k: nat, a: nat, b: nat, e: nat :: i <= k ==> !ShapedAt(s, k, a, b, e)
    decreases |s| - i
  {
    var m := MatchAt(s, i);
    if m.Some? then m
    else if i == |s| then None
    else SearchFrom(s, i + 1)
  }

  /** `re.search(pattern, s)`: an address-shaped substring of `s`, and
      `None` exactly when there is none. */
  function Search(s: string): (r: Option<Span>)
    ensures r.Some? ==> ShapedAt(s, r.value.start, r.value.at, r.value.dot, r.value.end)
    ensures r.None? <==> NoAddress(s)
  {
    SearchFrom(s, 0)
  }

  /** The match `Search` returns is the leftmost one, and the longest among
      those starting there. */
  lemma SearchLeftmostLongest(s: string)
    requires Search(s).Some?
    ensures forall k: nat, a: nat, b: nat, e: nat :: k < Search(s).value.start ==> !ShapedAt(s, k, a, b, e)
    ensures forall a: nat, b: nat, e: nat :: ShapedAt(s, Search(s).value.start, a, b, e) ==> e <= Search(s).value.end
  {
    assert MatchAt(s, Search(s).value.start) == Search(s);
  }

  /** The matched text, cut out of the line, is itself an address. */
  lemma MatchedTextIsAddress(s: string, sp: Span)
    requires ShapedAt(s, sp.start, sp.at, sp.dot, sp.end)
    ensures IsAddress(s[sp.start..sp.end])
  {
    var w := s[sp.start..sp.end];
    var i := sp.start;
    assert forall k :: 0 <= k < |w| ==> w[k] == s[i + k];
    assert ShapedAt(w, 0, sp.at - i, sp.dot - i, |w|);
  }

  /** `m.group(0)`: the text of the match `Search` finds. */
  function Matched(s: string): (r: string)
    requires Search(s).Some?
    ensures IsAddress(r)
  {
    var sp := Search(s).value;
    MatchedTextIsAddress(s, sp);
    s[sp.start..sp.end]
  }
}
