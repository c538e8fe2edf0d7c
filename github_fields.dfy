/**
 * The metadata fetcher `get_github_fields`: from the outcome of the request
 * for `https://api.github.com/repos/{path}` to the five fields kept about a
 * repository.
 *
 * The HTTP exchange, the JSON text parser and the RFC 3339 parser are not
 * part of this model: the exchange is given as its outcome (a `Response`),
 * the body as an already parsed `Json` value, and the date-time parser as a
 * function parameter. What is modelled is the error classification of the
 * exchange and the permissive, per-field defaulting of the extraction.
 */
module GithubFields {
  import opened Wrappers

  /** A point in time: microseconds since the Unix epoch, on the UTC time line. */
  type Instant = int

  const MicrosPerSecond: int := 1_000_000

  /**
   * A `DateTime<FixedOffset>`: the local reading of the clock and the
   * offset of that clock east of UTC, in seconds.
   */
  datatype DateTime = DateTime(local: Instant, offsetSeconds: int)

  /** `with_timezone(&Utc)`: the same instant, read on the UTC clock. */
  function ToUtc(d: DateTime): (t: Instant)
    ensures t + d.offsetSeconds * MicrosPerSecond == d.local
  {
    d.local - d.offsetSeconds * MicrosPerSecond
  }

  /** Two readings of the same instant in different offsets convert to the same UTC instant. */
  lemma ToUtcSameInstant(t: Instant, offset: int)
    ensures ToUtc(DateTime(t + offset * MicrosPerSecond, offset)) == t
    ensures ToUtc(DateTime(t, 0)) == t
  {
  }

  const MinI64: int := -0x8000_0000_0000_0000
  const MaxI64: int := 0x7FFF_FFFF_FFFF_FFFF

  predicate IsI64(x: int) {
    MinI64 <= x <= MaxI64
  }

  /** A JSON number: an integer (of any size, as written) or a floating-point value. */
  datatype Number = Integer(v: int) | Float(f: real)

  /** A parsed JSON value. */
  datatype Json =
    | Null
    | Bool(b: bool)
    | Num(n: Number)
    | Str(s: string)
    | Array(items: seq<Json>)
    | Object(fields: map<string, Json>)

  /** `Value::as_str` */
  function AsStr(j: Json): (r: Option<string>)
    ensures r.Some? <==> j.Str?
    ensures r.Some? ==> r.value == j.s
  {
    match j
    case Str(s) => Some(s)
    case _ => None
  }

  /** `Value::as_i64`: an integer that fits in 64 signed bits; a float, or a larger integer, is not one. */
  function AsI64(j: Json): (r: Option<int>)
    ensures r.Some? <==> j.Num? && j.n.Integer? && IsI64(j.n.v)
    ensures r.Some? ==> r.value == j.n.v && IsI64(r.value)
  {
    match j
    case Num(Integer(v)) => if IsI64(v) then Some(v) else None
    case _ => None
  }

  /** `obj.get(key)` */
  function Get(obj: map<string, Json>, key: string): (r: Option<Json>)
    ensures r.Some? <==> key in obj
    ensures r.Some? ==> r.value == obj[key]
  {
    if key in obj then Some(obj[key]) else None
  }

  /** `obj.get(key).and_then(|d| d.as_str())` */
  function StrField(obj: map<string, Json>, key: string): (v: Option<string>) {
    match Get(obj, key)
    case None => None
    case Some(d) => AsStr(d)
  }

  /** `obj.get(key).and_then(|d| d.as_i64())` */
  function I64Field(obj: map<string, Json>, key: string): (v: Option<int>) {
    match Get(obj, key)
    case None => None
    case Some(d) => AsI64(d)
  }

  /** Fields we need about a repository: the `GitHubFields` record. */
  datatype GitHubFields = GitHubFields(
    description: string,
    stars: int,
    forks: int,
    issues: int,
    lastCommit: Instant)

  const DescriptionKey: string := "description"
  const StarsKey: string := "stargazers_count"
  const ForksKey: string := "forks_count"
  const IssuesKey: string := "open_issues"
  const PushedAtKey: string := "pushed_at"

  /**
   * The extraction from the response object. `parse` is
   * `DateTime::parse_from_rfc3339`; `now` is the clock reading `Utc::now()`
   * would give. An absent or non-string `pushed_at` is handed to the parser
   * as the empty string.
   */
  function FromObject(obj: map<string, Json>, now: Instant, parse: string -> Option<DateTime>): (f: GitHubFields)
    ensures IsI64(f.stars) && IsI64(f.forks) && IsI64(f.issues)
  {
    GitHubFields(
      UnwrapOr(StrField(obj, DescriptionKey), ""),
      UnwrapOr(I64Field(obj, StarsKey), 0),
      UnwrapOr(I64Field(obj, ForksKey), 0),
      UnwrapOr(I64Field(obj, IssuesKey), 0),
      match parse(UnwrapOr(StrField(obj, PushedAtKey), ""))
      case Some(d) => ToUtc(d)
      case None => now)
  }

  /** The value at `key` is a string. */
  predicate HasString(obj: map<string, Json>, key: string) {
    key in obj && obj[key].Str?
  }

  /** The value at `key` is an integer that fits in 64 signed bits. */
  predicate HasI64(obj: map<string, Json>, key: string) {
    key in obj && obj[key].Num? && obj[key].n.Integer? && IsI64(obj[key].n.v)
  }

  /**
   * Each count is copied from its key when that holds a 64-bit integer, and
   * is 0 when the key is absent or holds anything else; the description is
   * copied from a string and is "" otherwise.
   */
  lemma FromObjectCopiesOrDefaults(obj: map<string, Json>, now: Instant, parse: string -> Option<DateTime>)
    ensures var f := FromObject(obj, now, parse);
      f.description == (if HasString(obj, DescriptionKey) then obj[DescriptionKey].s else "") &&
      f.stars == (if HasI64(obj, StarsKey) then obj[StarsKey].n.v else 0) &&
      f.forks == (if HasI64(obj, ForksKey) then obj[ForksKey].n.v else 0) &&
      f.issues == (if HasI64(obj, IssuesKey) then obj[IssuesKey].n.v else 0)
  {
  }

  /**
   * The date parser rejects the empty string, which is no RFC 3339
   * date-time. An absent or non-string `pushed_at` reaches the parser as `""`.
   */
  predicate RejectsEmpty(parse: string -> Option<DateTime>) {
    parse("").None?
  }

  /**
   * A `pushed_at` string the parser accepts becomes the UTC instant it
   * denotes; otherwise the last commit is `now`, for a parser that rejects
   * the empty string.
   */
  lemma FromObjectLastCommit(obj: map<string, Json>, now: Instant, parse: string -> Option<DateTime>)
    requires RejectsEmpty(parse)
    ensures var f := FromObject(obj, now, parse);
      if HasString(obj, PushedAtKey) && parse(obj[PushedAtKey].s).Some? then
        f.lastCommit == ToUtc(parse(obj[PushedAtKey].s).value)
      else
        f.lastCommit == now
  {
  }

  /** Keys other than the five named ones do not affect the extraction. */
  lemma FromObjectIgnoresOtherKeys(obj1: map<string, Json>, obj2: map<string, Json>, now: Instant, parse: string -> Option<DateTime>)
    requires forall k :: k in {DescriptionKey, StarsKey, ForksKey, IssuesKey, PushedAtKey} ==>
      (k in obj1 <==> k in obj2) && (k in obj1 ==> obj1[k] == obj2[k])
    ensures FromObject(obj1, now, parse) == FromObject(obj2, now, parse)
  {
    assert Get(obj1, DescriptionKey) == Get(obj2, DescriptionKey);
    assert Get(obj1, StarsKey) == Get(obj2, StarsKey);
    assert Get(obj1, ForksKey) == Get(obj2, ForksKey);
    assert Get(obj1, IssuesKey) == Get(obj2, IssuesKey);
    assert Get(obj1, PushedAtKey) == Get(obj2, PushedAtKey);
  }

  /** `{"description":"x","stargazers_count":5}` gives ("x", 5, 0, 0, now). */
  lemma FromObjectExample(now: Instant, parse: string -> Option<DateTime>)
    requires RejectsEmpty(parse)
    ensures FromObject(map[DescriptionKey := Str("x"), StarsKey := Num(Integer(5))], now, parse)
      == GitHubFields("x", 5, 0, 0, now)
  {
    var obj := map[DescriptionKey := Str("x"), StarsKey := Num(Integer(5))];
    assert ForksKey !in obj && IssuesKey !in obj && PushedAtKey !in obj;
  }

  // ---------------------------------------------------------------------------
  // The request

  const ApiRepos: string := "https://api.github.com/repos/"

  /** The address the request for `path` goes to. */
  function ApiUrl(path: string): (u: string)
    ensures ApiRepos <= u && u[|ApiRepos|..] == path
  {
    ApiRepos + path
  }

  /** The body of a response, as far as reading and parsing it went. */
  datatype Body =
    | ReadFailed        // `read_to_string` failed
    | Malformed         // the text is no JSON
    | Parsed(json: Json)

  /** What the exchange produced: no response at all, or a status and a body. */
  datatype Response = SendFailed | Received(status: int, body: Body)

  const StatusOk: int := 200

  /** Why the fetch failed. */
  datatype FetchError =
    | TransportError
    | RemoteUnavailable(status: int)
    | ReadError
    | ParseError

  /**
   * The body of a successful response is a JSON object; the source unwraps
   * `as_object()` there and panics otherwise.
   */
  predicate ObjectOnSuccess(resp: Response) {
    resp.Received? && resp.status == StatusOk && resp.body.Parsed? ==> resp.body.json.Object?
  }

  /** `get_github_fields`, with the exchange replaced by its outcome `resp`. */
  function GetGithubFields(resp: Response, now: Instant, parse: string -> Option<DateTime>): (r: Result<GitHubFields, FetchError>)
    requires ObjectOnSuccess(resp)
    ensures r.Success? <==> resp.Received? && resp.status == StatusOk && resp.body.Parsed?
    ensures r.Success? ==> r.value == FromObject(resp.body.json.fields, now, parse)
    ensures resp.SendFailed? ==> r == Failure(TransportError)
    ensures resp.Received? && resp.status != StatusOk ==> r == Failure(RemoteUnavailable(resp.status))
    ensures resp.Received? && resp.status == StatusOk && resp.body.ReadFailed? ==> r == Failure(ReadError)
    ensures resp.Received? && resp.status == StatusOk && resp.body.Malformed? ==> r == Failure(ParseError)
  {
    match resp
    case SendFailed => Failure(TransportError)
    case Received(status, body) =>
      if status != StatusOk then Failure(RemoteUnavailable(status))
      else
        match body
        case ReadFailed => Failure(ReadError)
        case Malformed => Failure(ParseError)
        case Parsed(json) => Success(FromObject(json.fields, now, parse))
  }

  /** A 200 response with an object body is never rejected, whatever fields the object has or lacks. */
  lemma GetGithubFieldsNeverFailsOnFields(fields: map<string, Json>, now: Instant, parse: string -> Option<DateTime>)
    ensures GetGithubFields(Received(StatusOk, Parsed(Object(fields))), now, parse).Success?
  {
  }
}
