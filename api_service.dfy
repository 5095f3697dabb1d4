/** `ApiService`: registration of a monitored API under its base domain, the details query
    with the last 90 daily statistics, and the older verification path, which goes through
    `VerificationService` and never raises on a DNS failure. The table of APIs is a map from
    base domain (the unique `url` column) to its row. */
module ApiService {
  import opened Wrappers
  import opened AppErrors
  import opened WhatwgUrl
  import opened TxtChallenge
  import opened Ordering
  import opened VerificationService

  const DetailsDays: nat := 90

  /** One row of `dailyStats`; numbers are kept as the database gives them. */
  datatype DailyStat = DailyStat(date: int, upTime: int)

  /** One row of the API table (the id is left out: the base domain is the unique key). */
  datatype Api = Api(
    name: string,
    httpMethod: HttpMethod,
    url: string,
    body: Option<map<string, string>>,
    headers: Option<map<string, string>>,
    code: string,
    status: VerificationStatus,
    attempts: nat,
    verifiedAt: Option<int>,
    lastVerificationAttempt: Option<int>,
    nextVerificationAt: Option<int>,
    upTime: int,
    averageResponseTime: int,
    stats: seq<DailyStat>)

  /** The validated request body of a registration. */
  datatype ApiRequest = ApiRequest(
    name: string,
    httpMethod: HttpMethod,
    url: string,
    body: Option<map<string, string>>,
    headers: Option<map<string, string>>)

  /** The column defaults the database fills in on creation. */
  datatype Defaults = Defaults(code: string, nextVerificationAt: Option<int>, upTime: int, averageResponseTime: int)

  /** The row `create` writes: the request's fields, the base domain as `url`, and the defaults. */
  function NewApi(req: ApiRequest, base: string, defaults: Defaults): (a: Api)
    ensures a.url == base && a.name == req.name && a.httpMethod == req.httpMethod
    ensures a.body == req.body && a.headers == req.headers
    ensures a.status == Pending && a.attempts == 0 && a.verifiedAt == None && a.stats == []
  {
    Api(req.name, req.httpMethod, base, req.body, req.headers, defaults.code, Pending, 0,
        None, None, defaults.nextVerificationAt, defaults.upTime, defaults.averageResponseTime, [])
  }

  /** Every row sits under its own `url`. */
  predicate KeyedByUrl(apis: map<string, Api>) {
    forall k :: k in apis ==> apis[k].url == k
  }

  // ------------------------------------------------------------ details

  /** What `GetDetails` returns. */
  datatype ApiDetails = ApiDetails(upTime: int, averageResponseTime: int, dailyStats: seq<DailyStat>)

  /** `orderBy: { date: "desc" }` as an ascending key. */
  function NewestFirst(): DailyStat -> int {
    (d: DailyStat) => -d.date
  }

  /** `findMany({ orderBy: { date: "desc" }, take: 90 })`: the newest 90 statistics, newest first. */
  function LatestStats(stats: seq<DailyStat>): (r: seq<DailyStat>)
    ensures |r| == Min(|stats|, DetailsDays)
    ensures forall i, j :: 0 <= i < j < |r| ==> r[i].date >= r[j].date
    ensures multiset(r) <= multiset(stats)
    ensures forall x, y :: x in r && y in multiset(stats) - multiset(r) ==> x.date >= y.date
  {
    var sorted := SortBy(stats, NewestFirst());
    NewestPrefix(sorted, stats, Min(|sorted|, DetailsDays));
    sorted[..Min(|sorted|, DetailsDays)]
  }

  /** The first `n` of the statistics sorted newest first are the `n` newest. */
  lemma NewestPrefix(sorted: seq<DailyStat>, stats: seq<DailyStat>, n: nat)
    requires SortedBy(sorted, NewestFirst()) && multiset(sorted) == multiset(stats) && n <= |sorted|
    ensures forall i, j :: 0 <= i < j < n ==> sorted[..n][i].date >= sorted[..n][j].date
    ensures multiset(sorted[..n]) <= multiset(stats)
    ensures forall x, y :: x in sorted[..n] && y in multiset(stats) - multiset(sorted[..n]) ==> x.date >= y.date
  {
    var r := sorted[..n];
    TakeOfSorted(sorted, NewestFirst(), n);
    forall i, j | 0 <= i < j < n ensures r[i].date >= r[j].date {
      assert NewestFirst()(r[i]) <= NewestFirst()(r[j]);
    }
    assert multiset(stats) - multiset(r) == multiset(sorted[n..]);
    forall x, y | x in r && y in multiset(stats) - multiset(r) ensures x.date >= y.date {
      assert y in sorted[n..];
      assert NewestFirst()(x) <= NewestFirst()(y);
    }
  }

  /** `GetDetails(url)`: the row under the URL's base domain, or not found. */
  function Details(apis: map<string, Api>, url: string, parse: UrlParser): (r: Result<ApiDetails, AppError>)
    ensures r == Failure(NotFound) <==> BaseDomain(url, parse) !in apis
    ensures BaseDomain(url, parse) in apis ==> r.Success?
    ensures r.Success? ==> var a := apis[BaseDomain(url, parse)];
      && r.value.upTime == a.upTime && r.value.averageResponseTime == a.averageResponseTime
      && r.value.dailyStats == LatestStats(a.stats)
  {
    var base := BaseDomain(url, parse);
    if base !in apis then Failure(NotFound)
    else
      var a := apis[base];
      Success(ApiDetails(a.upTime, a.averageResponseTime, LatestStats(a.stats)))
  }

  // ------------------------------------------------------------ verification

  /** `verifyDomain(url)` against the table: unknown base domain, then already verified, then
      a stored URL the parser rejects (the `TypeError` of `extractDomain`). Otherwise the
      attempt is recorded: one more attempt, VERIFIED exactly when a record of the stored
      URL's host matches (a lookup error counts as no match), `verifiedAt` only then, and no
      other column written, `nextVerificationAt` included. */
  function ApiVerifyOutcome(apis: map<string, Api>, url: string, parse: UrlParser,
                            lookup: string -> DnsAnswer, now: int): (r: Result<Api, AppError>)
    ensures var base := BaseDomain(url, parse);
      && (r == Failure(NotFound) <==> base !in apis)
      && (r == Failure(Conflict) <==> base in apis && apis[base].status == Verified)
      && (r == Failure(Internal) <==> base in apis && apis[base].status != Verified && parse(apis[base].url).None?)
    ensures r.Failure? ==> r.error in {NotFound, Conflict, Internal}
    ensures r.Success? ==> var a := apis[BaseDomain(url, parse)];
      var e := r.value;
      && parse(a.url).Some?
      && e.attempts == a.attempts + 1
      && (e.status == Verified <==> MatchesToken(lookup(parse(a.url).value.hostname), a.code))
      && e.status != Pending
      && (e.verifiedAt.Some? <==> e.status == Verified)
      && (e.verifiedAt.Some? ==> e.verifiedAt.value == now)
      && e.lastVerificationAttempt == Some(now)
      && e == a.(status := e.status, attempts := e.attempts, verifiedAt := e.verifiedAt,
                 lastVerificationAttempt := e.lastVerificationAttempt)
  {
    var base := BaseDomain(url, parse);
    if base !in apis then Failure(NotFound)
    else
      var a := apis[base];
      if a.status == Verified then Failure(Conflict)
      else match parse(a.url)
        case None => Failure(Internal)
        case Some(u) =>
          var verified := MatchesToken(lookup(u.hostname), a.code);
          Success(a.(status := if verified then Verified else Failed,
                     attempts := a.attempts + 1,
                     verifiedAt := if verified then Some(now) else None,
                     lastVerificationAttempt := Some(now)))
  }

  /** What `VerificationService.verifyDomain` answers for a lookup result. */
  predicate MatchesToken(answer: DnsAnswer, code: string) {
    answer.Records? && HasToken(answer.records, ExpectedToken(code))
  }

  /** Unlike `DomainService`, a lookup error does not stop the attempt: it is recorded as FAILED. */
  lemma ApiLookupErrorRecordsFailure(apis: map<string, Api>, url: string, parse: UrlParser, lookup: string -> DnsAnswer, now: int)
    requires var base := BaseDomain(url, parse);
      && base in apis && apis[base].status != Verified && parse(apis[base].url).Some?
      && lookup(parse(apis[base].url).value.hostname).LookupError?
    ensures ApiVerifyOutcome(apis, url, parse, lookup, now).Success?
    ensures ApiVerifyOutcome(apis, url, parse, lookup, now).value.status == Failed
  {
  }

  // ------------------------------------------------------------ the store

  /** The API table. */
  class ApiStore {
    var apis: map<string, Api>

    constructor()
      ensures apis == map[]
    {
      apis := map[];
    }

    /** `RegisterApi(req)`: the row goes under the base domain of the given URL; an API already
        registered under that base domain is a conflict and nothing is created. */
    method Register(req: ApiRequest, defaults: Defaults, parse: UrlParser) returns (r: Result<Api, AppError>)
      modifies this
      ensures var base := BaseDomain(req.url, parse);
        && (base in old(apis) ==> r == Failure(Conflict) && apis == old(apis))
        && (base !in old(apis) ==> r == Success(NewApi(req, base, defaults)) && apis == old(apis)[base := r.value])
      ensures KeyedByUrl(old(apis)) ==> KeyedByUrl(apis)
    {
      var base := GetBaseDomain(req.url, parse);
      if base in apis {
        return Failure(Conflict);
      }
      var created := NewApi(req, base, defaults);
      apis := apis[base := created];
      return Success(created);
    }

    /** `verifyDomain(url)`: the guards, the TXT check through `VerificationService` and the update. */
    method Verify(url: string, parse: UrlParser, lookup: string -> DnsAnswer, now: int) returns (r: Result<Api, AppError>)
      modifies this
      ensures r == ApiVerifyOutcome(old(apis), url, parse, lookup, now)
      ensures r.Success? ==> apis == old(apis)[BaseDomain(url, parse) := r.value]
      ensures r.Failure? ==> apis == old(apis)
      ensures KeyedByUrl(old(apis)) ==> KeyedByUrl(apis)
    {
      var base := GetBaseDomain(url, parse);
      if base !in apis {
        return Failure(NotFound);
      }
      var api := apis[base];
      if api.status == Verified {
        return Failure(Conflict);
      }
      var parsed := parse(api.url);
      if parsed.None? {
        return Failure(Internal);
      }
      var isVerified := VerifyDomain(parsed.value.hostname, api.code, lookup);
      var updated := api.(status := if isVerified then Verified else Failed,
                          attempts := api.attempts + 1,
                          verifiedAt := if isVerified then Some(now) else None,
                          lastVerificationAttempt := Some(now));
      apis := apis[base := updated];
      return Success(updated);
    }
  }
}
