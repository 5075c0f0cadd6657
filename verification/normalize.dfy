/** The header normaliser of the inbox (frontend/app.py, `_extract_subject`,
    `_extract_sender`, `_extract_email_addr`, `_get_preview`, `_get_body`):
    line-oriented functions that turn a ticket's raw `email_body` into the
    fields shown in the e-mail list and the detail pane. */
module Normalize {
  import opened Wrappers
  import opened Text
  import Seqs
  import Address

  const NoSubject: string := "No Subject"
  const UnknownSender: string := "Unknown Sender"
  const Ellipsis: string := "\U{2026}"
  const SubjectWidth: nat := 80
  const FallbackSubjectWidth: nat := 55
  const SenderWidth: nat := 30
  const PreviewWidth: nat := 100

  // ---------------------------------------------------------------------
  // Header lines
  // ---------------------------------------------------------------------

  /** `line.strip().lower().startswith(key)`. */
  predicate IsHeader(line: string, key: string) {
    StartsWith(LowerStr(Strip(line)), key)
  }

  /** The four header keys that the preview and the clean body skip. */
  predicate IsAnyHeader(line: string) {
    IsHeader(line, "from:") || IsHeader(line, "to:") || IsHeader(line, "subject:") || IsHeader(line, "date:")
  }

  /** The first line at or after `i` that is a `key` header. */
  function FirstHeaderFrom(lines: seq<string>, key: string, i: nat): (r: Option<nat>)
    requires i <= |lines|
    ensures r.Some? ==> i <= r.value < |lines| && IsHeader(lines[r.value], key)
    ensures r.Some? ==> forall j :: i <= j < r.value ==> !IsHeader(lines[j], key)
    ensures r.None? ==> forall j :: i <= j < |lines| ==> !IsHeader(lines[j], key)
    decreases |lines| - i
  {
    if i == |lines| then None
    else if IsHeader(lines[i], key) then Some(i)
    else FirstHeaderFrom(lines, key, i + 1)
  }

  /** The loop `for line in lines: if <header>: return ...`: the first `key` header. */
  function FirstHeader(lines: seq<string>, key: string): (r: Option<nat>)
    ensures r.Some? ==> r.value < |lines| && IsHeader(lines[r.value], key)
    ensures r.Some? ==> forall j :: 0 <= j < r.value ==> !IsHeader(lines[j], key)
    ensures r.None? ==> forall j :: 0 <= j < |lines| ==> !IsHeader(lines[j], key)
  {
    FirstHeaderFrom(lines, key, 0)
  }

  /** `line.split(":", 1)[1]`: everything after the first colon. */
  function AfterColon(line: string): (r: string)
    requires ':' in line
    ensures |r| < |line| && line == line[..|line| - |r| - 1] + [':'] + r
    ensures ':' !in line[..|line| - |r| - 1]
  {
    var k := IndexOf(line, ':').value;
    assert line == line[..k] + [':'] + line[k + 1..];
    line[k + 1..]
  }

  /** A line recognised by a key ending in a colon has a colon, so
      `split(":", 1)[1]` cannot fail on it. */
  lemma HeaderHasColon(line: string, key: string)
    requires |key| > 0 && key[|key| - 1] == ':'
    requires IsHeader(line, key)
    ensures ':' in line
  {
    var t := Strip(line);
    var n := |key| - 1;
    assert LowerStr(t)[n] == ':';
    LowerStrAt(t, n);
    assert t[n] == ':';
    var i, j := StripBounds(line);
    assert line[i + n] == ':';
  }

  /** The value of a header line: the text after its first colon, stripped
      and cut to `width` characters. */
  function HeaderValue(line: string, width: nat): (r: string)
    requires ':' in line
    ensures |r| <= width
  {
    Take(Strip(AfterColon(line)), width)
  }

  /** Every piece of a whitespace-only text is whitespace-only. */
  lemma {:induction false} SplitAllSpace(s: string, c: char)
    requires AllSpace(s)
    ensures forall k :: 0 <= k < |Split(s, c)| ==> AllSpace(Split(s, c)[k])
    decreases |s|
  {
    match IndexOf(s, c)
    case None =>
    case Some(k) =>
      SplitAllSpace(s[k + 1..], c);
  }

  // ---------------------------------------------------------------------
  // Subject
  // ---------------------------------------------------------------------

  /** `_extract_subject`. */
  function ExtractSubject(body: string): (r: string)
    ensures body == "" ==> r == NoSubject
    ensures body != "" ==> |r| <= SubjectWidth
    ensures body != "" ==>
      forall i :: 0 <= i < |Split(body, '\n')| && IsHeader(Split(body, '\n')[i], "subject:")
        && (forall j :: 0 <= j < i ==> !IsHeader(Split(body, '\n')[j], "subject:"))
        ==> ':' in Split(body, '\n')[i] && r == HeaderValue(Split(body, '\n')[i], SubjectWidth)
    ensures body != "" && (forall i :: 0 <= i < |Split(body, '\n')| ==> !IsHeader(Split(body, '\n')[i], "subject:")) ==>
      r == Take(Strip(body), FallbackSubjectWidth) + (if |Strip(body)| > FallbackSubjectWidth then Ellipsis else "")
  {
    if body == "" then
      NoSubject
    else
      var lines := Split(body, '\n');
      match FirstHeader(lines, "subject:")
      case Some(i) =>
        HeaderHasColon(lines[i], "subject:");
        HeaderValue(lines[i], SubjectWidth)
      case None =>
        var s := Strip(body);
        Take(s, FallbackSubjectWidth) + (if |s| > FallbackSubjectWidth then Ellipsis else "")
  }

  /** A non-empty body made only of whitespace has the empty subject, not
      "No Subject": the emptiness test happens before stripping. */
  lemma BlankBodySubject(body: string)
    requires body != "" && AllSpace(body)
    ensures ExtractSubject(body) == ""
  {
    var lines := Split(body, '\n');
    SplitAllSpace(body, '\n');
    forall i | 0 <= i < |lines|
      ensures !IsHeader(lines[i], "subject:")
    {
      StripEmptyIff(lines[i]);
    }
    StripEmptyIff(body);
  }

  // ---------------------------------------------------------------------
  // Sender
  // ---------------------------------------------------------------------

  /** `<[^>]+>` matched at the start of `s`: the index of its closing `>`.
      `[^>]+` runs greedily up to the first `>`, so a tag is a `<`, at least
      one character, and the first `>` after it. */
  function TagEnd(s: string): (r: Option<nat>)
    ensures r.Some? ==> 2 <= r.value < |s| && s[0] == '<' && s[r.value] == '>' && '>' !in s[1..r.value]
    ensures r.None? ==> |s| == 0 || s[0] != '<' || (|s| > 1 && s[1] == '>') || '>' !in s[1..]
  {
    if |s| == 0 || s[0] != '<' then None
    else
      match IndexOf(s[1..], '>')
      case None => None
      case Some(k) =>
        if k == 0 then None
        else
          assert s[1..][..k] == s[1..k + 1];
          Some(k + 1)
  }

  /** `re.sub(r"<[^>]+>", "", s)`: scanning left to right, every tag that
      starts at the scan position is removed; other characters are kept. */
  function StripTags(s: string): (r: string)
    ensures |r| <= |s|
    ensures forall k :: 0 <= k < |r| ==> r[k] in s
    decreases |s|
  {
    if s == [] then []
    else
      match TagEnd(s)
      case Some(e) =>
        var r := StripTags(s[e + 1..]);
        assert forall k :: 0 <= k < |r| ==> r[k] in s[e + 1..];
        r
      case None =>
        var r := StripTags(s[1..]);
        assert forall k :: 0 <= k < |r| ==> r[k] in s[1..];
        [s[0]] + r
  }

  /** No position of `s` starts a tag that `re.sub` would remove. */
  predicate TagFree(s: string) {
    forall i :: 0 <= i < |s| ==> TagEnd(s[i..]).None?
  }

  /** A tag found in a prefix is found the same way in the whole. */
  lemma TagEndExtends(t: string, p: string)
    requires StartsWith(t, p)
    requires TagEnd(p).Some?
    ensures TagEnd(t) == TagEnd(p)
  {
    var e := TagEnd(p).value;
    assert t[..|p|] == p;
    assert p[..e + 1] == [p[0]] + p[1..e] + ['>'];
    assert t == p[..e + 1] + t[e + 1..] by {
      assert t[..e + 1] == p[..e + 1];
    }
    assert t[1..] == p[1..e] + ['>'] + t[e + 1..];
    IndexOfPrefixed(p[1..e], '>', t[e + 1..]);
  }

  /** Every slice of a tag-free text is tag-free. */
  lemma TagFreeSlice(s: string, i: nat, j: nat)
    requires i <= j <= |s| && TagFree(s)
    ensures TagFree(s[i..j])
  {
    var w := s[i..j];
    forall k | 0 <= k < |w|
      ensures TagEnd(w[k..]).None?
    {
      assert StartsWith(s[i + k..], w[k..]);
      if TagEnd(w[k..]).Some? {
        TagEndExtends(s[i + k..], w[k..]);
      }
    }
  }

  lemma TagFreeStrip(s: string)
    requires TagFree(s)
    ensures TagFree(Strip(s))
  {
    var i, j := StripBounds(s);
    TagFreeSlice(s, i, j);
  }

  /** Putting a character in front of a tag-free text cannot start a tag
      unless it is a `<` followed, somewhere later, by a `>` that is not
      the very next character. */
  lemma TagFreeCons(c: char, rest: string)
    requires TagFree(rest)
    requires c != '<' || (rest != [] && rest[0] == '>') || '>' !in rest
    ensures TagFree([c] + rest)
  {
    var r := [c] + rest;
    assert r[1..] == rest;
    assert TagEnd(r[0..]).None? by {
      assert r[0..] == r;
    }
    forall k | 1 <= k < |r|
      ensures TagEnd(r[k..]).None?
    {
      assert r[k..] == rest[k - 1..];
    }
  }

  /** The output of `re.sub` contains no tag. */
  lemma {:induction false} StripTagsTagFree(s: string)
    ensures TagFree(StripTags(s))
    decreases |s|
  {
    if s != [] {
      match TagEnd(s)
      case Some(e) =>
        StripTagsTagFree(s[e + 1..]);
      case None =>
        var rest := StripTags(s[1..]);
        StripTagsTagFree(s[1..]);
        if s[0] == '<' && |s| > 1 && s[1] == '>' {
          var t := s[1..];
          assert TagEnd(t).None?;
          assert rest == [t[0]] + StripTags(t[1..]);
        } else if s[0] == '<' && |s| > 1 {
          assert '>' !in s[1..];
        }
        TagFreeCons(s[0], rest);
    }
  }

  /** `re.sub` leaves a tag-free text unchanged. */
  lemma {:induction false} StripTagsOfTagFree(s: string)
    requires TagFree(s)
    ensures StripTags(s) == s
    decreases |s|
  {
    if s != [] {
      assert TagEnd(s[0..]).None?;
      assert s[0..] == s;
      TagFreeSlice(s, 1, |s|);
      StripTagsOfTagFree(s[1..]);
    }
  }

  /** Removing tags twice is removing them once. */
  lemma StripTagsIdempotent(s: string)
    ensures StripTags(StripTags(s)) == StripTags(s)
  {
    StripTagsTagFree(s);
    StripTagsOfTagFree(StripTags(s));
  }

  /** The sender shown for a `From:` line: the header value with tags
      removed, or the raw value when removing tags leaves nothing, cut to
      30 characters. */
  function SenderFromLine(line: string): (r: string)
    requires ':' in line
    ensures |r| <= SenderWidth
    ensures var v := Strip(AfterColon(line));
      var name := Strip(StripTags(v));
      && (name != "" ==> StartsWith(name, r) && TagFree(r)
                         && |r| == (if |name| < SenderWidth then |name| else SenderWidth))
      && (name == "" ==> StartsWith(v, r) && |r| == (if |v| < SenderWidth then |v| else SenderWidth))
  {
    var v := Strip(AfterColon(line));
    var name := Strip(StripTags(v));
    if name != "" then
      StripTagsTagFree(v);
      TagFreeStrip(StripTags(v));
      TagFreeSlice(name, 0, |Take(name, SenderWidth)|);
      assert name[0..|Take(name, SenderWidth)|] == Take(name, SenderWidth);
      Take(name, SenderWidth)
    else
      Take(v, SenderWidth)
  }

  /** Whether `customer_name` is shown as is: present, non-empty and not the
      placeholder "Unknown". */
  predicate UsableName(customerName: Option<string>) {
    customerName.GetOr("") != "" && customerName.GetOr("") != "Unknown"
  }

  /** `_extract_sender`. */
  function ExtractSender(body: string, customerName: Option<string>): (r: string)
    ensures UsableName(customerName) ==> r == customerName.value
    ensures !UsableName(customerName) && (forall i :: 0 <= i < |Split(body, '\n')| ==> !IsHeader(Split(body, '\n')[i], "from:"))
      ==> r == UnknownSender
    ensures !UsableName(customerName) ==>
      forall i :: 0 <= i < |Split(body, '\n')| && IsHeader(Split(body, '\n')[i], "from:")
        && (forall j :: 0 <= j < i ==> !IsHeader(Split(body, '\n')[j], "from:"))
        ==> ':' in Split(body, '\n')[i] && r == SenderFromLine(Split(body, '\n')[i])
  {
    if UsableName(customerName) then
      customerName.value
    else if body != "" then
      var lines := Split(body, '\n');
      match FirstHeader(lines, "from:")
      case Some(i) =>
        HeaderHasColon(lines[i], "from:");
        SenderFromLine(lines[i])
      case None =>
        UnknownSender
    else
      assert Split(body, '\n') == [""];
      UnknownSender
  }

  // ---------------------------------------------------------------------
  // Sender e-mail address
  // ---------------------------------------------------------------------

  /** Where the first address on a `From:` line was found. */
  datatype Located = Located(line: nat, span: Address.Span)

  /** No `From:` line among `lines[i..j]` holds an address. */
  ghost predicate NoFromAddress(lines: seq<string>, i: nat, j: nat)
    requires i <= j <= |lines|
  {
    forall k :: i <= k < j && IsHeader(lines[k], "from:") ==> Address.NoAddress(lines[k])
  }

  /** The first `From:` line at or after `i` that holds an address, and the
      leftmost match on it. */
  function LocateEmailFrom(lines: seq<string>, i: nat): (r: Option<Located>)
    requires i <= |lines|
    ensures r.Some? ==> i <= r.value.line < |lines| && IsHeader(lines[r.value.line], "from:")
    ensures r.Some? ==> Address.Search(lines[r.value.line]) == Some(r.value.span)
    decreases |lines| - i
  {
    if i == |lines| then None
    else if IsHeader(lines[i], "from:") && Address.Search(lines[i]).Some? then
      Some(Located(i, Address.Search(lines[i]).value))
    else
      LocateEmailFrom(lines, i + 1)
  }

  /** The `From:` lines that `LocateEmailFrom` passes over hold no address. */
  lemma {:induction false} LocateEmailSkips(lines: seq<string>, i: nat)
    requires i <= |lines|
    ensures LocateEmailFrom(lines, i).Some? ==> NoFromAddress(lines, i, LocateEmailFrom(lines, i).value.line)
    ensures LocateEmailFrom(lines, i).None? ==> NoFromAddress(lines, i, |lines|)
    decreases |lines| - i
  {
    if i < |lines| && !(IsHeader(lines[i], "from:") && Address.Search(lines[i]).Some?) {
      LocateEmailSkips(lines, i + 1);
    }
  }

  /** Line `k` is the first `From:` line that holds an address. */
  ghost predicate FirstAddressLine(lines: seq<string>, k: nat) {
    && k < |lines|
    && IsHeader(lines[k], "from:")
    && Address.Search(lines[k]).Some?
    && NoFromAddress(lines, 0, k)
  }

  /** `_extract_email_addr`: the leftmost address on the first `From:` line
      that holds one, or `""` exactly when no `From:` line holds one. */
  function ExtractEmail(body: string): (r: string)
    ensures r != "" ==> Address.IsAddress(r)
    ensures forall k: nat :: FirstAddressLine(Split(body, '\n'), k) ==> r == Address.Matched(Split(body, '\n')[k])
    ensures r == "" <==>
      forall k :: 0 <= k < |Split(body, '\n')| && IsHeader(Split(body, '\n')[k], "from:") ==> Address.NoAddress(Split(body, '\n')[k])
  {
    var lines := Split(body, '\n');
    if body == "" then
      assert lines == [""];
      ""
    else
      LocateEmailSkips(lines, 0);
      match LocateEmailFrom(lines, 0)
      case None => ""
      case Some(loc) =>
        var line := lines[loc.line];
        var r := Address.Matched(line);
        assert forall k: nat :: FirstAddressLine(lines, k) ==> k == loc.line;
        r
  }

  // ---------------------------------------------------------------------
  // Preview and clean body
  // ---------------------------------------------------------------------

  /** A line that shows up in the preview: not a header and not blank. */
  predicate InPreview(line: string) {
    !IsAnyHeader(line) && Strip(line) != ""
  }

  /** A line that stays in the clean body: not a header. */
  predicate InBody(line: string) {
    !IsAnyHeader(line)
  }

  function StripAll(lines: seq<string>): (r: seq<string>)
    ensures |r| == |lines|
    ensures forall k :: 0 <= k < |r| ==> r[k] == Strip(lines[k])
  {
    seq(|lines|, k requires 0 <= k < |lines| => Strip(lines[k]))
  }

  /** The pieces the preview joins: the stripped non-blank non-header lines, in order. */
  function PreviewParts(lines: seq<string>): (r: seq<string>)
    ensures forall k :: 0 <= k < |r| ==> r[k] != "" && Strip(r[k]) == r[k]
  {
    var kept := Seqs.Filter(lines, InPreview);
    Seqs.FilterSpec(lines, InPreview);
    var r := StripAll(kept);
    forall k | 0 <= k < |r|
      ensures Strip(r[k]) == r[k]
    {
      StripIdempotent(kept[k]);
    }
    r
  }

  lemma StripAllAppend(a: seq<string>, b: seq<string>)
    ensures StripAll(a + b) == StripAll(a) + StripAll(b)
  {
  }

  /** A blank line is neither a header nor part of the preview. */
  lemma BlankLineNotHeader(line: string)
    requires AllSpace(line)
    ensures !IsAnyHeader(line) && !InPreview(line)
  {
    StripEmptyIff(line);
  }

  /** Header lines never contribute pieces to the preview. */
  lemma PartsSkipHeader(a: seq<string>, h: string, b: seq<string>)
    requires IsAnyHeader(h)
    ensures PreviewParts(a + [h] + b) == PreviewParts(a + b)
  {
    Seqs.FilterAppend(a + [h], b, InPreview);
    Seqs.FilterAppend(a, [h], InPreview);
    Seqs.FilterAppend(a, b, InPreview);
    assert Seqs.Filter([h], InPreview) == [];
  }

  /** Header lines never reach the kept body lines. */
  lemma KeptSkipHeader(a: seq<string>, h: string, b: seq<string>)
    requires IsAnyHeader(h)
    ensures Seqs.Filter(a + [h] + b, InBody) == Seqs.Filter(a + b, InBody)
  {
    Seqs.FilterAppend(a + [h], b, InBody);
    Seqs.FilterAppend(a, [h], InBody);
    Seqs.FilterAppend(a, b, InBody);
    assert Seqs.Filter([h], InBody) == [];
  }

  /** Lines with the same stripped text give the same stripped pieces. */
  lemma StripAllSame(u: seq<string>, v: seq<string>)
    requires |u| == |v|
    requires forall k :: 0 <= k < |u| ==> Strip(u[k]) == Strip(v[k])
    ensures StripAll(u) == StripAll(v)
  {
  }

  /** Whitespace put in front of the text changes no preview piece. */
  lemma PartsCons(a: char, s: string)
    requires IsSpace(a)
    ensures PreviewParts(Split([a] + s, '\n')) == PreviewParts(Split(s, '\n'))
  {
    var p := Split(s, '\n');
    assert p == [p[0]] + p[1..];
    var fr := Seqs.Filter(p[1..], InPreview);
    if a == '\n' {
      SplitConsSep(s, '\n');
      BlankLineNotHeader("");
      assert ([""] + p)[1..] == p;
    } else {
      SplitConsOther(a, s, '\n');
      var x := [a] + p[0];
      StripConsSpace(a, p[0]);
      var q := [x] + p[1..];
      assert q[1..] == p[1..];
      if InPreview(x) {
        StripAllSame([x] + fr, [p[0]] + fr);
      }
    }
  }

  lemma PartsSnocNewline(s: string)
    ensures PreviewParts(Split(s + ['\n'], '\n')) == PreviewParts(Split(s, '\n'))
  {
    SplitSnoc(s, '\n', '\n');
    BlankLineNotHeader("");
    Seqs.FilterSnoc(Split(s, '\n'), "", InPreview);
  }

  lemma PartsSnocOther(s: string, a: char)
    requires IsSpace(a) && a != '\n'
    ensures PreviewParts(Split(s + [a], '\n')) == PreviewParts(Split(s, '\n'))
  {
    var p := Split(s, '\n');
    var n := |p|;
    var init := p[..n - 1];
    assert p == init + [p[n - 1]];
    SplitSnoc(s, a, '\n');
    var x := p[n - 1] + [a];
    StripSnocSpace(p[n - 1], a);
    Seqs.FilterSnoc(init, x, InPreview);
    Seqs.FilterSnoc(init, p[n - 1], InPreview);
    var fi := Seqs.Filter(init, InPreview);
    if InPreview(x) {
      StripAllSame(fi + [x], fi + [p[n - 1]]);
    }
  }

  /** Whitespace put at the end of the text changes no preview piece. */
  lemma PartsSnoc(s: string, a: char)
    requires IsSpace(a)
    ensures PreviewParts(Split(s + [a], '\n')) == PreviewParts(Split(s, '\n'))
  {
    if a == '\n' { PartsSnocNewline(s); } else { PartsSnocOther(s, a); }
  }

  lemma {:induction false} PartsTrimLeft(s: string)
    ensures PreviewParts(Split(TrimLeft(s), '\n')) == PreviewParts(Split(s, '\n'))
    decreases |s|
  {
    if |s| > 0 && IsSpace(s[0]) {
      PartsTrimLeft(s[1..]);
      assert s == [s[0]] + s[1..];
      PartsCons(s[0], s[1..]);
    }
  }

  lemma {:induction false} PartsTrimRight(s: string)
    ensures PreviewParts(Split(TrimRight(s), '\n')) == PreviewParts(Split(s, '\n'))
    decreases |s|
  {
    if |s| > 0 && IsSpace(s[|s| - 1]) {
      PartsTrimRight(s[..|s| - 1]);
      assert s == s[..|s| - 1] + [s[|s| - 1]];
      PartsSnoc(s[..|s| - 1], s[|s| - 1]);
    }
  }

  /** Stripping the body before splitting it changes no preview piece. */
  lemma PartsStrip(s: string)
    ensures PreviewParts(Split(Strip(s), '\n')) == PreviewParts(Split(s, '\n'))
  {
    PartsTrimRight(TrimLeft(s));
    PartsTrimLeft(s);
  }

  /** The kept lines of a text, joined by newlines (before the final strip). */
  function KeptText(s: string): string {
    Join(Seqs.Filter(Split(s, '\n'), InBody), '\n')
  }

  /** Joining one piece in front of others. */
  lemma JoinFront(x: string, q: seq<string>)
    ensures Join([x] + q, '\n') == if q == [] then x else x + ['\n'] + Join(q, '\n')
  {
    assert ([x] + q)[1..] == q;
  }

  lemma KeptConsNewline(s: string)
    ensures Strip(KeptText(['\n'] + s)) == Strip(KeptText(s))
  {
    var p := Split(s, '\n');
    var fp := Seqs.Filter(p, InBody);
    SplitConsSep(s, '\n');
    BlankLineNotHeader("");
    assert ([""] + p)[1..] == p;
    assert Seqs.Filter([""] + p, InBody) == [""] + fp;
    JoinFront("", fp);
    if fp != [] {
      assert "" + ['\n'] + Join(fp, '\n') == ['\n'] + Join(fp, '\n');
      StripConsSpace('\n', Join(fp, '\n'));
    }
  }

  /** A character put in front of the first piece comes out in front of
      the joined text. */
  lemma JoinFrontChar(a: char, x: string, q: seq<string>)
    ensures Join([[a] + x] + q, '\n') == [a] + Join([x] + q, '\n')
  {
    JoinFront([a] + x, q);
    JoinFront(x, q);
    if q != [] {
      assert [a] + x + ['\n'] + Join(q, '\n') == [a] + (x + ['\n'] + Join(q, '\n'));
    }
  }

  lemma KeptConsOther(a: char, s: string)
    requires IsSpace(a) && a != '\n'
    ensures Strip(KeptText([a] + s)) == Strip(KeptText(s))
  {
    var p := Split(s, '\n');
    assert p == [p[0]] + p[1..];
    SplitConsOther(a, s, '\n');
    var x := [a] + p[0];
    StripConsSpace(a, p[0]);
    var q := [x] + p[1..];
    assert q[1..] == p[1..];
    var fr := Seqs.Filter(p[1..], InBody);
    if InBody(x) {
      assert Seqs.Filter(q, InBody) == [x] + fr;
      assert Seqs.Filter(p, InBody) == [p[0]] + fr;
      JoinFrontChar(a, p[0], fr);
      StripConsSpace(a, KeptText(s));
    } else {
      assert Seqs.Filter(q, InBody) == fr == Seqs.Filter(p, InBody);
    }
  }

  /** Whitespace put in front of the text changes the kept text only by
      whitespace in front. */
  lemma KeptCons(a: char, s: string)
    requires IsSpace(a)
    ensures Strip(KeptText([a] + s)) == Strip(KeptText(s))
  {
    if a == '\n' { KeptConsNewline(s); } else { KeptConsOther(a, s); }
  }

  lemma KeptSnocNewline(s: string)
    ensures Strip(KeptText(s + ['\n'])) == Strip(KeptText(s))
  {
    var p := Split(s, '\n');
    SplitSnoc(s, '\n', '\n');
    BlankLineNotHeader("");
    Seqs.FilterSnoc(p, "", InBody);
    var fp := Seqs.Filter(p, InBody);
    if fp == [] {
      assert fp + [""] == [""];
    } else {
      JoinSnoc(fp, "", '\n');
      assert Join(fp, '\n') + ['\n'] + "" == Join(fp, '\n') + ['\n'];
      StripSnocSpace(Join(fp, '\n'), '\n');
    }
  }

  lemma KeptSnocOther(s: string, a: char)
    requires IsSpace(a) && a != '\n'
    ensures Strip(KeptText(s + [a])) == Strip(KeptText(s))
  {
    var p := Split(s, '\n');
    var n := |p|;
    var init := p[..n - 1];
    assert p == init + [p[n - 1]];
    SplitSnoc(s, a, '\n');
    var x := p[n - 1] + [a];
    StripSnocSpace(p[n - 1], a);
    Seqs.FilterSnoc(init, x, InBody);
    Seqs.FilterSnoc(init, p[n - 1], InBody);
    var fi := Seqs.Filter(init, InBody);
    if InBody(x) {
      var w := fi + [p[n - 1]];
      assert w[..|w| - 1] == fi && w[|w| - 1] == p[n - 1];
      JoinSnocChar(w, a, '\n');
      assert KeptText(s + [a]) == KeptText(s) + [a];
      StripSnocSpace(KeptText(s), a);
    }
  }

  /** Whitespace put at the end of the text changes the kept text only by
      whitespace at the end. */
  lemma KeptSnoc(s: string, a: char)
    requires IsSpace(a)
    ensures Strip(KeptText(s + [a])) == Strip(KeptText(s))
  {
    if a == '\n' { KeptSnocNewline(s); } else { KeptSnocOther(s, a); }
  }

  lemma {:induction false} KeptTrimLeft(s: string)
    ensures Strip(KeptText(TrimLeft(s))) == Strip(KeptText(s))
    decreases |s|
  {
    if |s| > 0 && IsSpace(s[0]) {
      KeptTrimLeft(s[1..]);
      assert s == [s[0]] + s[1..];
      KeptCons(s[0], s[1..]);
    }
  }

  lemma {:induction false} KeptTrimRight(s: string)
    ensures Strip(KeptText(TrimRight(s))) == Strip(KeptText(s))
    decreases |s|
  {
    if |s| > 0 && IsSpace(s[|s| - 1]) {
      KeptTrimRight(s[..|s| - 1]);
      assert s == s[..|s| - 1] + [s[|s| - 1]];
      KeptSnoc(s[..|s| - 1], s[|s| - 1]);
    }
  }

  /** No line of `s` is a from/to/subject/date header. */
  predicate HeaderFree(s: string) {
    forall k :: 0 <= k < |Split(s, '\n')| ==> !IsAnyHeader(Split(s, '\n')[k])
  }

  /** Dropping whitespace in front keeps a text header-free. */
  lemma HeaderFreeCons(a: char, s: string)
    requires IsSpace(a) && HeaderFree([a] + s)
    ensures HeaderFree(s)
  {
    var p := Split(s, '\n');
    if a == '\n' {
      SplitConsSep(s, '\n');
      assert forall k :: 0 <= k < |p| ==> p[k] == ([""] + p)[k + 1];
    } else {
      SplitConsOther(a, s, '\n');
      StripConsSpace(a, p[0]);
      var q := [[a] + p[0]] + p[1..];
      assert forall k :: 0 < k < |p| ==> p[k] == q[k];
      assert !IsAnyHeader(q[0]);
    }
  }

  /** Dropping whitespace at the end keeps a text header-free. */
  lemma HeaderFreeSnoc(s: string, a: char)
    requires IsSpace(a) && HeaderFree(s + [a])
    ensures HeaderFree(s)
  {
    var p := Split(s, '\n');
    var n := |p|;
    SplitSnoc(s, a, '\n');
    if a == '\n' {
      assert forall k :: 0 <= k < |p| ==> p[k] == (p + [""])[k];
    } else {
      StripSnocSpace(p[n - 1], a);
      var q := p[..n - 1] + [p[n - 1] + [a]];
      assert forall k :: 0 <= k < n - 1 ==> p[k] == q[k];
      assert !IsAnyHeader(q[n - 1]);
    }
  }

  lemma {:induction false} HeaderFreeTrimLeft(s: string)
    requires HeaderFree(s)
    ensures HeaderFree(TrimLeft(s))
    decreases |s|
  {
    if |s| > 0 && IsSpace(s[0]) {
      assert s == [s[0]] + s[1..];
      HeaderFreeCons(s[0], s[1..]);
      HeaderFreeTrimLeft(s[1..]);
    }
  }

  lemma {:induction false} HeaderFreeTrimRight(s: string)
    requires HeaderFree(s)
    ensures HeaderFree(TrimRight(s))
    decreases |s|
  {
    if |s| > 0 && IsSpace(s[|s| - 1]) {
      assert s == s[..|s| - 1] + [s[|s| - 1]];
      HeaderFreeSnoc(s[..|s| - 1], s[|s| - 1]);
      HeaderFreeTrimRight(s[..|s| - 1]);
    }
  }

  /** The kept text has no header line. */
  lemma KeptTextHeaderFree(s: string)
    ensures HeaderFree(KeptText(s))
  {
    var q := Seqs.Filter(Split(s, '\n'), InBody);
    Seqs.FilterSpec(Split(s, '\n'), InBody);
    if q == [] {
      assert Split("", '\n') == [""];
      BlankLineNotHeader("");
    } else {
      assert forall k :: 0 <= k < |q| ==> q[k] in Split(s, '\n');
      SplitJoin(q, '\n');
    }
  }

  /** A character absent from every piece and different from the separator
      is absent from the joined text. */
  lemma {:induction false} JoinAvoids(parts: seq<string>, sep: char, c: char)
    requires c != sep
    requires forall k :: 0 <= k < |parts| ==> c !in parts[k]
    ensures c !in Join(parts, sep)
    decreases |parts|
  {
    if |parts| > 1 {
      JoinAvoids(parts[1..], sep, c);
    }
  }

  /** A character that is in no line is in no piece of the preview. */
  lemma PreviewPartsAvoid(lines: seq<string>, c: char)
    requires forall k :: 0 <= k < |lines| ==> c !in lines[k]
    ensures forall k :: 0 <= k < |PreviewParts(lines)| ==> c !in PreviewParts(lines)[k]
  {
    var kept := Seqs.Filter(lines, InPreview);
    Seqs.FilterSpec(lines, InPreview);
    var parts := PreviewParts(lines);
    forall k | 0 <= k < |parts|
      ensures c !in parts[k]
    {
      assert kept[k] in lines;
      var i, j := StripBounds(kept[k]);
      assert forall m :: 0 <= m < |parts[k]| ==> parts[k][m] == kept[k][i + m];
    }
  }

  /** A prefix keeps out what the whole keeps out. */
  lemma TakeAvoids(s: string, n: nat, c: char)
    requires c !in s
    ensures c !in Take(s, n)
  {
    assert forall m :: 0 <= m < |Take(s, n)| ==> Take(s, n)[m] == s[m];
  }

  /** `_get_preview`: the non-header, non-blank lines of the body, each
      stripped, joined by single spaces, cut to 100 characters. Stripping
      the body before splitting it, as the code does, changes no piece. */
  function GetPreview(body: string): (r: string)
    ensures |r| <= PreviewWidth
    ensures body == "" ==> r == ""
    ensures '\n' !in r
    ensures var j := Join(PreviewParts(Split(body, '\n')), ' ');
      StartsWith(j, r) && |r| == (if |j| < PreviewWidth then |j| else PreviewWidth)
  {
    if body == "" then
      assert Split(body, '\n') == [""];
      BlankLineNotHeader("");
      ""
    else
      var lines := Split(Strip(body), '\n');
      PartsStrip(body);
      var parts := PreviewParts(lines);
      PreviewPartsAvoid(lines, '\n');
      JoinAvoids(parts, ' ', '\n');
      var joined := Join(parts, ' ');
      var r := Take(joined, PreviewWidth);
      TakeAvoids(joined, PreviewWidth, '\n');
      r
  }

  /** No line of `lines` holds a newline. */
  predicate NewlineFree(lines: seq<string>) {
    forall k :: 0 <= k < |lines| ==> '\n' !in lines[k]
  }

  lemma NewlineFreeJoin(a: seq<string>, h: string, b: seq<string>)
    requires NewlineFree(a) && NewlineFree(b) && '\n' !in h
    ensures NewlineFree(a + [h] + b) && NewlineFree(a + b)
  {
    var all := a + [h] + b;
    forall k | 0 <= k < |all|
      ensures '\n' !in all[k]
    {
      if k < |a| { assert all[k] == a[k]; }
      else if k > |a| { assert all[k] == b[k - |a| - 1]; }
    }
    forall k | 0 <= k < |a + b|
      ensures '\n' !in (a + b)[k]
    {
      if k < |a| { assert (a + b)[k] == a[k]; } else { assert (a + b)[k] == b[k - |a|]; }
    }
  }

  /** Splitting the joined lines gives the lines back, or one empty line
      when there were none. */
  lemma SplitJoinLines(lines: seq<string>)
    requires NewlineFree(lines)
    ensures Split(Join(lines, '\n'), '\n') == if lines == [] then [""] else lines
  {
    if lines != [] {
      SplitJoin(lines, '\n');
    }
  }

  /** Texts with the same preview pieces have the same preview. */
  lemma SamePreview(b1: string, b2: string)
    requires PreviewParts(Split(b1, '\n')) == PreviewParts(Split(b2, '\n'))
    ensures GetPreview(b1) == GetPreview(b2)
  {
  }

  /** A header line contributes nothing to the preview, wherever it stands
      among the body's lines. */
  lemma PreviewSkipsHeader(a: seq<string>, h: string, b: seq<string>)
    requires IsAnyHeader(h) && '\n' !in h
    requires NewlineFree(a) && NewlineFree(b)
    ensures GetPreview(Join(a + [h] + b, '\n')) == GetPreview(Join(a + b, '\n'))
  {
    NewlineFreeJoin(a, h, b);
    SplitJoinLines(a + [h] + b);
    SplitJoinLines(a + b);
    PartsSkipHeader(a, h, b);
    BlankLineNotHeader("");
    assert PreviewParts([""]) == [] == PreviewParts([]);
    SamePreview(Join(a + [h] + b, '\n'), Join(a + b, '\n'));
  }

  /** `_get_body`: the non-header lines of the stripped body, verbatim and in
      order, joined by newlines and stripped as a whole. The result has no
      header line. */
  function GetBody(body: string): (r: string)
    ensures body == "" ==> r == ""
    ensures HeaderFree(r)
    ensures Strip(r) == r
  {
    if body == "" then
      assert Split(body, '\n') == [""];
      BlankLineNotHeader("");
      ""
    else
      var kept := KeptText(Strip(body));
      KeptTextHeaderFree(Strip(body));
      HeaderFreeTrimLeft(kept);
      HeaderFreeTrimRight(TrimLeft(kept));
      StripIdempotent(kept);
      Strip(kept)
  }

  /** Stripping the body before splitting it makes no difference: the clean
      body is the raw body's non-header lines, joined and stripped. */
  lemma GetBodyByLines(body: string)
    ensures GetBody(body) == Strip(Join(Seqs.Filter(Split(body, '\n'), InBody), '\n'))
  {
    if body == "" {
      assert Split(body, '\n') == [""];
      BlankLineNotHeader("");
      assert Seqs.Filter([""], InBody) == [""];
    } else {
      KeptTrimRight(TrimLeft(body));
      KeptTrimLeft(body);
    }
  }

  /** A header line never reaches the clean body, wherever it stands among
      the body's lines. */
  lemma BodySkipsHeader(a: seq<string>, h: string, b: seq<string>)
    requires IsAnyHeader(h) && '\n' !in h
    requires NewlineFree(a) && NewlineFree(b)
    ensures GetBody(Join(a + [h] + b, '\n')) == GetBody(Join(a + b, '\n'))
  {
    NewlineFreeJoin(a, h, b);
    SplitJoinLines(a + [h] + b);
    SplitJoinLines(a + b);
    KeptSkipHeader(a, h, b);
    BlankLineNotHeader("");
    assert Seqs.Filter([""], InBody) == [""];
    assert Seqs.Filter([], InBody) == [];
    assert Join([""], '\n') == "" == Join([], '\n');
    GetBodyByLines(Join(a + [h] + b, '\n'));
    GetBodyByLines(Join(a + b, '\n'));
  }

  /** A body without header lines is shown as the stripped body itself. */
  lemma BodyWithoutHeaders(body: string)
    requires HeaderFree(body)
    ensures GetBody(body) == Strip(body)
  {
    GetBodyByLines(body);
    Seqs.FilterAll(Split(body, '\n'), InBody);
    JoinSplit(body, '\n');
  }

  /** Cleaning a clean body changes nothing. */
  lemma GetBodyIdempotent(body: string)
    ensures GetBody(GetBody(body)) == GetBody(body)
  {
    BodyWithoutHeaders(GetBody(body));
  }
}
