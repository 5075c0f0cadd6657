/** The connection URL check of backend/database.py: the URL comes from the
    environment, must be set and non-empty, and an old-style `postgres://`
    scheme is renamed to `postgresql://`. The engine built from it is not
    modelled. */
module Database {
  import opened Wrappers
  import opened Text

  const MissingUrl := "DATABASE_URL is not set. Check your .env file."
  const OldScheme := "postgres://"
  const NewScheme := "postgresql://"

  /** The value of `DATABASE_URL` after the module's checks, or the message
      of the `ValueError` it raises. */
  function ResolveUrl(env: Option<string>): (r: Result<string, string>)
    ensures r.Failure? <==> env.None? || env == Some("")
    ensures r.Failure? ==> r.error == MissingUrl
    ensures r.Success? ==> r.value != "" && !StartsWith(r.value, OldScheme)
  {
    match env
    case None => Failure(MissingUrl)
    case Some(url) =>
      if url == "" then Failure(MissingUrl)
      else if StartsWith(url, OldScheme) then
        RenameScheme(url);
        Success(ReplaceFirst(url, OldScheme, NewScheme))
      else Success(url)
  }

  /** `replace("postgres://", "postgresql://", 1)` on a URL with that prefix
      rewrites the prefix alone. */
  lemma RenameScheme(url: string)
    requires StartsWith(url, OldScheme)
    ensures ReplaceFirst(url, OldScheme, NewScheme) == NewScheme + url[|OldScheme|..]
    ensures !StartsWith(NewScheme + url[|OldScheme|..], OldScheme)
  {
    assert OccursAt(url, OldScheme, 0);
    var r := NewScheme + url[|OldScheme|..];
    assert r[8] == 'q' && OldScheme[8] == ':';
  }

  /** An old-style URL keeps everything after its scheme and grows by two
      characters. */
  lemma OldSchemeRewritten(url: string)
    requires StartsWith(url, OldScheme)
    ensures ResolveUrl(Some(url)) == Success(NewScheme + url[|OldScheme|..])
    ensures |ResolveUrl(Some(url)).value| == |url| + 2
  {
    RenameScheme(url);
  }

  /** Any other non-empty URL passes through unchanged. */
  lemma OtherUrlsUnchanged(url: string)
    requires url != "" && !StartsWith(url, OldScheme)
    ensures ResolveUrl(Some(url)) == Success(url)
  {
  }

  /** Resolving an already resolved URL changes nothing. */
  lemma ResolveIdempotent(env: Option<string>)
    requires ResolveUrl(env).Success?
    ensures ResolveUrl(Some(ResolveUrl(env).value)) == ResolveUrl(env)
  {
  }
}
