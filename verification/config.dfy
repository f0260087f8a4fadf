/** Database settings (src/config.py): five values read from the
    environment with fixed defaults, and the two SQLAlchemy URLs built from
    them. The environment is a parameter. */
module Config {

  import opened Wrappers
  import opened Text

  datatype DatabaseSettings = DatabaseSettings(
    username: string,
    password: string,
    host: string,
    port: int,
    name: string)

  /** The process environment: a variable's value, if it is set. */
  type Environment = string -> Option<string>

  const DefaultUser := "root"
  const DefaultPassword := "password"
  const DefaultHost := "localhost"
  /** `DB_PORT`'s default, the text "3306". */
  const DefaultPortNumber := 3306
  const DefaultPort := IntToString(DefaultPortNumber)
  const DefaultName := "allowances"

  /** Why building the settings fails: `DB_PORT` is not an integer
      (`int()` raises `ValueError`). */
  datatype SettingsError = InvalidPort(value: string)

  /** `DatabaseSettings()`: every field from its variable or its default;
      the port parsed with `int()`. */
  function FromEnvironment(env: Environment): (r: Result<DatabaseSettings, SettingsError>)
    ensures r.Failure? <==> ParseInt(env("DB_PORT").GetOr(DefaultPort)).None?
    ensures r.Success? ==>
      && r.value.username == env("DB_USER").GetOr(DefaultUser)
      && r.value.password == env("DB_PASSWORD").GetOr(DefaultPassword)
      && r.value.host == env("DB_HOST").GetOr(DefaultHost)
      && Some(r.value.port) == ParseInt(env("DB_PORT").GetOr(DefaultPort))
      && r.value.name == env("DB_NAME").GetOr(DefaultName)
  {
    var portText := env("DB_PORT").GetOr(DefaultPort);
    match ParseInt(portText)
    case None => Failure(InvalidPort(portText))
    case Some(port) =>
      Success(DatabaseSettings(
        env("DB_USER").GetOr(DefaultUser),
        env("DB_PASSWORD").GetOr(DefaultPassword),
        env("DB_HOST").GetOr(DefaultHost),
        port,
        env("DB_NAME").GetOr(DefaultName)))
  }

  const AsyncScheme := "mysql+aiomysql://"
  const SyncScheme := "mysql+pymysql://"
  const CharsetSuffix := "?charset=utf8mb4"

  /** Everything after the scheme: credentials, address, database and
      character set. */
  function Authority(s: DatabaseSettings): (a: string)
    ensures EndsWith(a, CharsetSuffix)
  {
    BeforePort(s) + IntToString(s.port) + AfterPort(s)
  }

  /** A scheme followed by an authority starts with the scheme, ends with
      the character-set suffix, and gives the authority back after it. */
  lemma SchemeThenAuthority(scheme: string, a: string)
    requires EndsWith(a, CharsetSuffix)
    ensures StartsWith(scheme + a, scheme) && EndsWith(scheme + a, CharsetSuffix)
    ensures (scheme + a)[|scheme|..] == a
  {
    var u := scheme + a;
    assert u[|u| - |CharsetSuffix|..] == a[|a| - |CharsetSuffix|..];
  }

  /** `url()`: the asynchronous driver's URL. */
  function Url(s: DatabaseSettings): (u: string)
    ensures StartsWith(u, AsyncScheme) && EndsWith(u, CharsetSuffix)
    ensures u[|AsyncScheme|..] == Authority(s)
  {
    SchemeThenAuthority(AsyncScheme, Authority(s));
    AsyncScheme + Authority(s)
  }

  /** `sync_url()`: the synchronous driver's URL, for tooling. */
  function SyncUrl(s: DatabaseSettings): (u: string)
    ensures StartsWith(u, SyncScheme) && EndsWith(u, CharsetSuffix)
    ensures u[|SyncScheme|..] == Authority(s)
  {
    SchemeThenAuthority(SyncScheme, Authority(s));
    SyncScheme + Authority(s)
  }

  /** A scheme followed by the authority, with every piece written out. */
  lemma SpelledOut(scheme: string, s: DatabaseSettings)
    ensures scheme + Authority(s) == scheme + s.username + ":" + s.password + "@" + s.host + ":"
                                     + IntToString(s.port) + "/" + s.name + CharsetSuffix
  {
    var d := IntToString(s.port);
    assert scheme + Authority(s) == scheme + BeforePort(s) + d + "/" + s.name + CharsetSuffix;
  }

  /** `url()` spelled out: the scheme, `user:password@host:port/name` and
      the character-set suffix. */
  lemma UrlText(s: DatabaseSettings)
    ensures Url(s) == AsyncScheme + s.username + ":" + s.password + "@" + s.host + ":"
                      + IntToString(s.port) + "/" + s.name + CharsetSuffix
  {
    SpelledOut(AsyncScheme, s);
  }

  /** `sync_url()` spelled out, with the synchronous driver's scheme. */
  lemma SyncUrlText(s: DatabaseSettings)
    ensures SyncUrl(s) == SyncScheme + s.username + ":" + s.password + "@" + s.host + ":"
                          + IntToString(s.port) + "/" + s.name + CharsetSuffix
  {
    SpelledOut(SyncScheme, s);
  }

  /** The two URLs differ only in the scheme. */
  lemma UrlsDifferOnlyInScheme(s: DatabaseSettings)
    ensures Url(s)[|AsyncScheme|..] == SyncUrl(s)[|SyncScheme|..]
    ensures Url(s) != SyncUrl(s)
  {
    var a := Authority(s);
    assert Url(s)[|AsyncScheme|..] == a;
    assert SyncUrl(s)[|SyncScheme|..] == a;
    assert Url(s)[6] != SyncUrl(s)[6];
  }

  /** The database name and character set that follow the port. */
  function AfterPort(s: DatabaseSettings): string {
    "/" + s.name + CharsetSuffix
  }

  /** Slicing `x + (p + d + rest)` at `|x| + |p|` for `|d|` characters
      gives `d`. */
  lemma MiddleOfConcat<T>(x: seq<T>, p: seq<T>, d: seq<T>, rest: seq<T>)
    ensures (x + (p + d + rest))[|x| + |p|..|x| + |p| + |d|] == d
  {
    assert x + (p + d + rest) == (x + p) + d + rest;
  }

  /** The credentials and host that precede the port in the URL. */
  function BeforePort(s: DatabaseSettings): string {
    s.username + ":" + s.password + "@" + s.host + ":"
  }

  /** The port survives the round trip through the URL text: its digits
      follow the host and its colon, and they parse back to it. */
  lemma PortRoundTrip(s: DatabaseSettings)
    ensures OccursAt(Url(s), IntToString(s.port), |AsyncScheme| + |BeforePort(s)|)
    ensures ParseInt(IntToString(s.port)) == Some(s.port)
  {
    PortInUrl(s);
    ParseIntOfIntToString(s.port);
  }

  /** The port's digits sit right after the host and its colon. */
  lemma PortInUrl(s: DatabaseSettings)
    ensures OccursAt(Url(s), IntToString(s.port), |AsyncScheme| + |BeforePort(s)|)
  {
    var d := IntToString(s.port);
    assert Url(s) == AsyncScheme + (BeforePort(s) + d + AfterPort(s));
    MiddleOfConcat(AsyncScheme, BeforePort(s), d, AfterPort(s));
  }

  /** A port set in the environment as `str(p)` becomes `p`. */
  lemma PortFromEnvironment(env: Environment, p: int)
    requires env("DB_PORT") == Some(IntToString(p))
    ensures FromEnvironment(env).Success? && FromEnvironment(env).value.port == p
  {
    ParseIntOfIntToString(p);
  }

  /** With none of the five variables set, the settings are the
      defaults. */
  lemma DefaultSettings(env: Environment)
    requires env("DB_USER") == None && env("DB_PASSWORD") == None && env("DB_HOST") == None
    requires env("DB_PORT") == None && env("DB_NAME") == None
    ensures FromEnvironment(env) == Success(DatabaseSettings("root", "password", "localhost", 3306, "allowances"))
  {
    ParseIntOfIntToString(DefaultPortNumber);
  }
}
