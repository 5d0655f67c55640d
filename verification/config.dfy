/** The one piece of logic in the application's configuration: which
    database URI the application is given. Reading the environment and
    building filesystem paths are not modelled; their results are the
    parameters here. */
module Config {
  import opened Builtins

  /** The scheme some hosting providers put in their database URLs. */
  const PostgresScheme: string := "postgres://"

  /** The scheme the database toolkit accepts for PostgreSQL. */
  const PostgresqlScheme: string := "postgresql://"

  /** `normalize_db_url(url)`: a URL that starts with "postgres://" has that
      prefix rewritten to "postgresql://", the rest kept as it is; `None`, the
      empty string and every other URL come back unchanged. */
  function NormalizeDbUrl(url: Option<string>): (r: Option<string>)
    ensures url.None? ==> r == None
    ensures url.Some? && StartsWith(url.value, PostgresScheme) ==>
      && r == Some(PostgresqlScheme + url.value[|PostgresScheme|..])
      && |r.value| == |url.value| + 2
    ensures url.Some? && !StartsWith(url.value, PostgresScheme) ==> r == url
  {
    match url
    case None => None
    case Some(u) =>
      if u != "" && StartsWith(u, PostgresScheme) then
        assert OccursAt(u, PostgresScheme, 0);
        assert u[..0] + PostgresqlScheme == PostgresqlScheme;
        Some(ReplaceFirst(u, PostgresScheme, PostgresqlScheme))
      else url
  }

  lemma PostgresqlIsNotPostgres(rest: string)
    ensures !StartsWith(PostgresqlScheme + rest, PostgresScheme)
  {
    assert (PostgresqlScheme + rest)[8] == 'q';
    assert PostgresScheme[8] == ':';
  }

  /** A normalized URL never carries the "postgres://" scheme. */
  lemma NormalizedIsNotPostgres(url: Option<string>)
    ensures NormalizeDbUrl(url).Some? ==> !StartsWith(NormalizeDbUrl(url).value, PostgresScheme)
  {
    if url.Some? && StartsWith(url.value, PostgresScheme) {
      PostgresqlIsNotPostgres(url.value[|PostgresScheme|..]);
    }
  }

  /** Normalizing twice is normalizing once. */
  lemma NormalizeDbUrlIdempotent(url: Option<string>)
    ensures NormalizeDbUrl(NormalizeDbUrl(url)) == NormalizeDbUrl(url)
  {
    NormalizedIsNotPostgres(url);
  }

  /** The scheme and empty host of a local SQLite URI. */
  const SqliteScheme: string := "sqlite:///"

  /** The fallback URI of the SQLite file at `databasePath`: the SQLite scheme
      followed by the path exactly as given, never a PostgreSQL URL. */
  function SqliteUri(databasePath: string): (uri: string)
    ensures StartsWith(uri, SqliteScheme) && uri[|SqliteScheme|..] == databasePath
    ensures !StartsWith(uri, PostgresScheme)
  {
    var uri := SqliteScheme + databasePath;
    assert uri[1] == 'q';
    uri
  }

  /** `SQLALCHEMY_DATABASE_URI`: the normalized `DATABASE_URL` when that is
      set and not empty, otherwise the SQLite fallback. Whatever the
      environment holds, the result never uses the "postgres://" scheme. */
  function DatabaseUri(rawDbUrl: Option<string>, databasePath: string): (uri: string)
    ensures rawDbUrl == None || rawDbUrl == Some("") ==> uri == SqliteUri(databasePath)
    ensures rawDbUrl.Some? && rawDbUrl.value != "" ==> Some(uri) == NormalizeDbUrl(rawDbUrl)
    ensures !StartsWith(uri, PostgresScheme)
  {
    if rawDbUrl.Some? && rawDbUrl.value != "" then
      NormalizedIsNotPostgres(rawDbUrl);
      NormalizeDbUrl(rawDbUrl).value
    else
      SqliteUri(databasePath)
  }
}
