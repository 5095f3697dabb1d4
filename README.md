# sysMonitoring domain verification, modelled in Dafny

This project models the core of sysMonitoring's domain ownership check. A user registers a hostname (or an API URL). The service gives them a token to publish as a DNS TXT record, `monitoring-verify=<code>`. A verify call looks up the host's TXT records and marks the row VERIFIED or FAILED.

The model covers four pieces:

- **`DomainService`** (`domain_service.dfy`): the domain table is a class holding a map from hostname to row. It models:
  - registration, with the duplicate rule;
  - one verify attempt: its NotFound, Conflict and BadRequest guards, the TXT match, the attempt counter, the status and `verifiedAt` write, and the linear back-off of `now + (attempts + 1) * 5 minutes`;
  - the status query, which names the exact record to publish;
  - the sweep `cronJobDomainVerification`, a function that nothing in the repository calls or schedules: select the due PENDING rows, order them by due time, cap at 1000, then verify them in slices of 100 and ignore each call's error.
- **`VerificationService`** (`verification_service.dfy`): `getBaseDomain` has two branches. The URL-parser branch keeps the protocol and the hostname without one leading `www.`. The fallback branch trims, adds a protocol, cuts at the first `/` and strips one `www.`. The TXT check with an early return turns a lookup error into `false`.
- **`ApiService`** (`api_service.dfy`): the API table, keyed by base domain. It models registration under the base domain of the URL and `GetDetails`, which returns the 90 newest daily statistics, newest first. It also models the older verify path. That path records a FAILED attempt when the lookup fails and never writes `nextVerificationAt`.
- **`Schema`** (`schema.dfy`): the zod path pattern and the domain field. The domain field is trimmed, given `https://` when it does not start with `http`, parsed, reduced to the hostname without one `www.`, lower-cased and checked against the FQDN pattern. Each pattern is written two ways: as a check over the pieces of the string cut at its separator, standing for `RegExp.test`, and as the language the regular expression denotes. A lemma proves the two agree both ways.

Supporting modules:

- `strings.dfy`: the JavaScript string built-ins used: `trim`, `indexOf`, `startsWith` as the prefix relation, `replace(/^www\./, "")` and `toLowerCase`. It also holds `Split` and `JoinWith`. These are not calls of the source: the source tests both patterns with `RegExp.test`. They cut a string at a separator so that each pattern's language can be stated over the pieces. The source's only `join` is `record.join("")` on a TXT record, which is `TxtChallenge.Concat`.
- `txt_challenge.dfy`: the token and the joining of a TXT record's character-strings (section 3.3.14 of RFC 1035).
- `ordering.dfy`: a sorted insertion and an insertion sort by integer key, standing in for the database's `orderBy`.
- `wrappers.dfy`, `errors.dfy`, `url.dfy`: `Option`/`Result`, the error kinds and status values, and the URL parser's type.

Foreign code is passed in as parameters:

- the DNS resolver is a function `string -> DnsAnswer`, giving TXT records or a lookup error;
- the WHATWG URL parser is a function `string -> Option<Url>`, where `Url` holds `protocol` and `hostname`;
- the clock is an integer `now` in milliseconds;
- the database's column defaults are plain values.

The code, not the intended design, is modelled where the two differ:

- A successful attempt also increments the attempt counter.
- In `DomainService` a DNS lookup error is a BadRequest that writes nothing. In `ApiService` the same error is recorded as a FAILED attempt.
- A failed attempt writes FAILED, but the sweep selects only PENDING rows. A domain therefore leaves the sweep after its first attempt; `DomainService.AttemptLeavesSweep` states this.
- The status report's method string is `"DNX TXT Record"`, as written.

One place models the intended behaviour instead of the code. `CONFLICT_ERROR` is imported by both services but is not defined in `src/lib/AppError.ts`, so the code as written does not reach that point with a conflict error: under ES modules, which the `.js` import specifiers point to, the missing named export fails when the module is linked, before any call; under CommonJS the name is `undefined`, and `new CONFLICT_ERROR(...)` raises a `TypeError` at that point. It is modelled as the `Conflict` error it evidently stands for.

## Model

| member | source | states |
|---|---|---|
| Strings.Trim | src/schema/schema.ts:20 | the result is no longer than the input; `Strings.TrimIsSlice` states what it keeps and what it cuts |
| Strings.TrimIsSlice | src/services/verification.service.ts:24 | `trim` leaves a slice of the input with no whitespace at either end, and everything it cut away is whitespace |
| Strings.TrimKeepsClean | src/services/verification.service.ts:24 | a string with no whitespace at either end is its own trim |
| Strings.IndexOf | src/services/verification.service.ts:39 | the result is -1 exactly when the character is absent, otherwise the position of its first occurrence |
| Strings.StripWww | src/services/verification.service.ts:16-18 | an input starting with `www.` loses exactly those four characters; any other input is kept |
| Strings.ToLower | src/schema/schema.ts:27-29 | same length, no upper-case ASCII letter left; each upper-case ASCII letter becomes its lower-case letter, KELVIN SIGN becomes `k`, every other character is kept |
| Strings.ToLowerIdempotent | src/schema/schema.ts:27-29 | lower-casing twice is lower-casing once |
| Strings.KelvinSignLowered | src/schema/schema.ts:29 | KELVIN SIGN lowers to the ASCII `k` |
| Strings.Split | src/schema/schema.ts:5 | at least one piece, and no piece contains the separator |
| Strings.JoinSplit | src/schema/schema.ts:5 | joining the pieces of a split gives back the input |
| Strings.SplitJoin | src/schema/schema.ts:35 | splitting a join of separator-free pieces gives back the pieces |
| Ordering.InsertionPoint | src/services/domain.service.ts:141-143 | keys before the point are at most the new key, keys after it are greater |
| Ordering.Insert | src/services/domain.service.ts:141-143 | inserting keeps the sequence sorted and adds exactly the new element, at one position |
| Ordering.InsertKeepsDistinct | src/services/domain.service.ts:141-143 | inserting an absent element keeps the elements distinct |
| Ordering.InsertMembers | src/services/domain.service.ts:141-143 | after an insertion the elements are the old ones plus the new one |
| Ordering.SortBy | src/services/api.service.ts:58 | the result is sorted by key and is a permutation of the input |
| Ordering.TakeOfSorted | src/services/domain.service.ts:141-144 | the first n of a sorted sequence are sorted, together with the rest they make up the whole, and none of the rest has a smaller key |
| TxtChallenge.ExpectedToken | src/services/domain.service.ts:52 | the token is `monitoring-verify=` followed by exactly the code |
| TxtChallenge.ExpectedTokenInjective | src/services/domain.service.ts:52 | different codes ask for different records |
| TxtChallenge.Concat | src/services/domain.service.ts:54 | `record.join("")`: the first string is a prefix of the result, and a record of empty strings joins to the empty string |
| TxtChallenge.HasToken | src/services/domain.service.ts:53-57 | some record, its strings joined, is exactly the token: no prefix or substring match |
| TxtChallenge.ScanAllRecords | src/services/domain.service.ts:53-57 | the flag is set exactly when some record, its strings joined, equals the token |
| TxtChallenge.ConcatAppend | src/services/domain.service.ts:54 | joining a record made of two parts is joining each part |
| TxtChallenge.SplitStringKeepsRecord | src/services/domain.service.ts:54 | cutting one character-string of a record into two does not change the joined value |
| VerificationService.WithProtocol | src/services/verification.service.ts:27-29 | an input already starting with `http://` or `https://` is kept; any other input gets `https://` in front |
| VerificationService.ProtocolOf | src/services/verification.service.ts:32-33 | the captured protocol is one of the two and is a prefix of the string |
| VerificationService.BeforeSlash | src/services/verification.service.ts:39-42 | the result is a prefix with no `/`, and the input continues with `/` when anything was cut |
| VerificationService.HttpsIsNotHttp | src/services/verification.service.ts:27 | a string starting with `https://` does not start with `http://` |
| VerificationService.FallbackBase | src/services/verification.service.ts:22-50 | the `catch` clean-up always yields a string starting with `http://` or `https://`; `VerificationService.FallbackShape` states the rest |
| VerificationService.FallbackShape | src/services/verification.service.ts:22-50 | for a trimmed input starting with `http://` or `https://`, the result is that protocol, then what follows it up to the first `/`, without one leading `www.`. Any other input gets `https://`, then the same cut-and-strip of the whole input. Nothing after the protocol contains a `/` |
| VerificationService.FallbackFacts | src/services/verification.service.ts:27-49 | the protocol chosen is the one the trimmed input starts with (`https://` when none), and the part after it has no `/` |
| VerificationService.BaseDomain | src/services/verification.service.ts:10-51 | with a parsed URL: protocol, `//`, and the hostname without one leading `www.`; otherwise the fallback clean-up |
| VerificationService.GetBaseDomain | src/services/verification.service.ts:10-51 | the step-by-step method computes `BaseDomain` |
| VerificationService.CleanUp | src/services/verification.service.ts:22-50 | the reassignments of `cleaned` and `domain` compute the fallback clean-up |
| VerificationService.VerifyDomain | src/services/verification.service.ts:53-68 | true exactly when the lookup succeeds and some record, joined, equals the token; any lookup error gives false |
| VerificationService.OneWwwRemoved | src/services/verification.service.ts:45-47 | `www.www.` + host, rejected by the parser, becomes `https://www.` + host: only one `www.` goes |
| VerificationService.FallbackOfBareHost | src/services/verification.service.ts:24-49 | a trimmed input without protocol or `/` only gains `https://` and loses one leading `www.` |
| Schema.PathAccepted | src/schema/schema.ts:5 | a leading `/`, and every `/`-separated piece after it a non-empty run of `[A-Za-z0-9_-]` |
| Schema.PathAcceptedIffLanguage | src/schema/schema.ts:3-5 | the path check accepts exactly `/` followed by one or more non-empty `[A-Za-z0-9_-]` segments, each later one behind a single `/` |
| Schema.AcceptedPathSpelled | src/schema/schema.ts:5 | an accepted path is `/`, its first segment, then its other segments each behind a `/` |
| Schema.PathLanguage | src/schema/schema.ts:5 | the reference language of the pattern: `/`, a segment, then any number of `/`-prefixed segments |
| Schema.SpelledPathAccepted | src/schema/schema.ts:5 | every string of the pattern's language passes the check |
| Schema.SlashPrefixedJoin | src/schema/schema.ts:5 | a segment followed by slash-prefixed segments is the `/`-join of all of them |
| Schema.NoTrailingSlash | src/schema/schema.ts:5 | an accepted path never ends in `/` |
| Schema.RootRejected | src/schema/schema.ts:5 | `/` alone is refused |
| Schema.DoubleSlashRejected | src/schema/schema.ts:5 | `//a` is refused |
| Schema.TrailingSlashRejected | src/schema/schema.ts:5 | `/a/` is refused |
| Schema.HealthAccepted | src/schema/schema.ts:5 | `/health` is accepted |
| Schema.FqdnAccepted | src/schema/schema.ts:35 | 1 to 253 characters, no leading `-`, and at least two `.`-separated pieces: labels of 1 to 63 `[A-Za-z0-9-]`, then 2 to 63 letters |
| Schema.FqdnAcceptedIffLanguage | src/schema/schema.ts:34-36 | the domain check accepts exactly the strings of 1 to 253 characters, not starting with `-`, made of one or more labels of 1 to 63 `[A-Za-z0-9-]` characters each followed by `.`, then a final label of 2 to 63 letters |
| Schema.DotTerminatedJoin | src/schema/schema.ts:35 | dot-terminated labels followed by the final label are the `.`-join of all of them |
| Schema.AcceptedNameSpelled | src/schema/schema.ts:35 | an accepted name is its labels, each followed by a dot, then its final label |
| Schema.FqdnLanguage | src/schema/schema.ts:35 | the reference language of the pattern: both lookaheads, then one or more dot-terminated labels and a final label |
| Schema.SpelledNameAccepted | src/schema/schema.ts:35 | labels and a final label spelled with dots pass the check on the pieces |
| Schema.ShortNameAccepted | src/schema/schema.ts:35 | `a.co` is accepted |
| Schema.SingleLabelRejected | src/schema/schema.ts:35 | `localhost` (no dot) is refused |
| Schema.LeadingHyphenRejected | src/schema/schema.ts:35 | `-ab.com` is refused by the `(?!-)` lookahead |
| Schema.ShortTldRejected | src/schema/schema.ts:35 | `a.c` (one-letter final label) is refused |
| Schema.KelvinSignNameAccepted | src/schema/schema.ts:24-36 | `httpa.` KELVIN SIGN `o` starts with `http`, so it reaches the parser without a scheme; once the parser rejects it, it lower-cases to `httpa.ko` and is accepted |
| Schema.HttpaKoAccepted | src/schema/schema.ts:35 | `httpa.ko` is accepted |
| Schema.UrlInput | src/schema/schema.ts:24-26 | the parser gets the value itself when it starts with `http`, otherwise `https://` + value |
| Schema.HttpNamedHostNotPrefixed | src/schema/schema.ts:25 | a bare host such as `httpbin.org` is passed without a protocol, because it starts with `http` |
| Schema.Transform | src/schema/schema.ts:21-31 | no upper-case ASCII letter in the output; on a parse, the hostname without one leading `www.`, lower-cased; otherwise the value lower-cased |
| Schema.ParseDomain | src/schema/schema.ts:17-40 | the trimmed, transformed value is accepted exactly when it passes the FQDN check, and an accepted name is in the pattern's language with no upper-case letter |
| DomainService.NewDomain | src/services/domain.service.ts:21-31 | a new row holds the given code and, by the assumed column defaults, is PENDING with no attempts, no `verifiedAt` and no last attempt |
| DomainService.NextVerificationAt | src/services/domain.service.ts:63-72 | after a success the next time is `now`; after a failure it is `now + (attempts + 1) * 300000` ms |
| DomainService.BackoffGrows | src/services/domain.service.ts:63-72 | for a fixed `now`, one more failure moves the next attempt strictly later, and always after `now` |
| DomainService.AfterAttempt | src/services/domain.service.ts:74-82 | one more attempt; VERIFIED exactly when matched, otherwise FAILED; `verifiedAt` set to `now` exactly when matched; last attempt is `now`; back-off per attempt made |
| DomainService.Attempt | src/services/domain.service.ts:42-82 | a VERIFIED row is a Conflict, a lookup error a BadRequest; otherwise the row becomes the `AfterAttempt` row for the match, with VERIFIED exactly when some joined record is the row's token |
| DomainService.VerifyOutcome | src/services/domain.service.ts:34-95 | an unknown host is NotFound; a known one gets its row's attempt |
| DomainService.AfterVerify | src/services/domain.service.ts:83-93 | only the host's row can change, only on a completed attempt; every failure leaves the table as it was |
| DomainService.VerifiedIsFinal | src/services/domain.service.ts:42-46 | a verified row is never written again, so `verifiedAt` is set once |
| DomainService.AttemptsNeverDecrease | src/services/domain.service.ts:76 | no row's attempt counter goes down; the host's goes up by one exactly when the attempt completes |
| DomainService.ConsecutiveFailuresBackOff | src/services/domain.service.ts:63-72 | two failures in a row, the second no earlier, give a strictly later next attempt |
| DomainService.StatusOf | src/services/domain.service.ts:96-127 | NotFound exactly for an unknown host, and a report for every known one: a message for a verified one, otherwise a challenge whose record name is the host and whose value is exactly the row's token |
| DomainService.Instructions | src/services/domain.service.ts:115-122 | the six instruction lines, naming the host and the `monitoring-verify=` value to publish |
| DomainService.StatusTokenVerifies | src/services/domain.service.ts:119-124 | publishing the record the status query names, in one string or several and among any other records, makes the next verify succeed with VERIFIED |
| DomainService.AttemptLeavesSweep | src/services/domain.service.ts:77-79 | after any completed attempt the row is no longer eligible for the sweep at any time |
| DomainService.Eligible | src/services/domain.service.ts:132-140 | the sweep's `where` clause: PENDING, fewer than 20 attempts, and a due time no later than `now` |
| DomainService.DueHosts | src/services/domain.service.ts:132-140 | exactly the rows that are PENDING, have under 20 attempts and are due by `now` |
| DomainService.IsSweepSelection | src/services/domain.service.ts:131-148 | what the query may return: distinct due hosts, ascending by due time, `min(due, 1000)` of them, and none left out due earlier than one taken |
| DomainService.DueKey | src/services/domain.service.ts:141-143 | the sort key of the query: a row's `nextVerificationAt`, ordered ascending |
| DomainService.SelectDue | src/services/domain.service.ts:131-148 | distinct due hosts, sorted by due time, as many as are due up to 1000, and none left out is due earlier than one taken |
| DomainService.FirstOfSortedDue | src/services/domain.service.ts:141-144 | the first up-to-1000 of all due hosts sorted by due time form a valid selection |
| DomainService.Batches | src/services/domain.service.ts:158-159 | the slices `slice(i, i + 100)` for i = 0, 100, 200, ... |
| DomainService.BatchesCover | src/services/domain.service.ts:157-159 | the slices, concatenated, are the selection in order; each holds 1 to 100 hosts and all but the last exactly 100 |
| DomainService.BatchesStep | src/services/domain.service.ts:158-159 | the slices from position i are `slice(i, i + 100)` and then the slices after it |
| DomainService.ApplyAttempts | src/services/domain.service.ts:158-169 | verify on each host in turn keeps the set of rows and leaves every host not in the list unchanged |
| DomainService.SweepOutcome | src/services/domain.service.ts:158-169 | over distinct hosts, every host's row ends as its own attempt left it, whatever the other attempts did; every other row is unchanged |
| DomainService.SweepKeepsAttempts | src/services/domain.service.ts:158-169 | the sweep keeps the set of rows and lowers no attempt counter |
| DomainService.ApplyAttemptsAppend | src/services/domain.service.ts:158-169 | verifying one slice and then the rest is verifying them all in order |
| DomainService.DomainStore.Register | src/services/domain.service.ts:12-33 | a present host is a Conflict and the table is unchanged; otherwise a new PENDING row is added under the host |
| DomainService.DomainStore.Verify | src/services/domain.service.ts:34-95 | the result is the verify outcome and the new table is the table after that outcome |
| DomainService.DomainStore.VerifyBatch | src/services/domain.service.ts:160-168 | the table ends as after `verifyDomain` on each host of the slice in turn, whatever each call returned |
| DomainService.DomainStore.VerifyInSlices | src/services/domain.service.ts:157-169 | the loop visits exactly the slices of 100, and the table ends as after verifying every host in order |
| DomainService.DomainStore.Sweep | src/services/domain.service.ts:128-170 | the selection is a valid sweep selection, it is processed in slices of 100, and the table ends as after verifying every selected host in order |
| ApiService.NewApi | src/services/api.service.ts:25-32 | the new row stores the request's fields and the base domain as `url`; by the assumed column defaults it is PENDING with no attempts |
| ApiService.NewestFirst | src/services/api.service.ts:58 | `orderBy: { date: "desc" }` as an ascending key: the negated date |
| ApiService.LatestStats | src/services/api.service.ts:56-64 | `min(count, 90)` statistics, newest first, a sub-multiset of the row's own, and no statistic left out (counting duplicates) is newer than one returned |
| ApiService.NewestPrefix | src/services/api.service.ts:58-59 | the first n statistics sorted newest first are the n newest: every copy left out is no newer |
| ApiService.Details | src/services/api.service.ts:46-72 | NotFound exactly when no row sits under the URL's base domain; otherwise success, with the row's uptime, average response time and latest statistics |
| ApiService.ApiVerifyOutcome | src/services/api.service.ts:73-109 | NotFound, Conflict for VERIFIED, Internal when the stored URL does not parse; otherwise one more attempt, VERIFIED exactly on a token match (a lookup error is no match), `verifiedAt` only then, and no other column written, `nextVerificationAt` included |
| ApiService.MatchesToken | src/services/verification.service.ts:53-68 | what `VerificationService.verifyDomain` answers: the lookup succeeded and some joined record is the token |
| ApiService.ApiLookupErrorRecordsFailure | src/services/verification.service.ts:64-66 | a lookup error on the API path records a FAILED attempt instead of raising |
| ApiService.ApiStore.Register | src/services/api.service.ts:11-45 | the row goes under the base domain of the URL; an existing row there is a Conflict and nothing is created; rows stay under their own `url` |
| ApiService.ApiStore.Verify | src/services/api.service.ts:73-109 | the result is the verify outcome; only a completed attempt writes, and only that row |

## Left out

- DNS resolution (`dns.resolveTxt`, `dns.setServers`) is a network call. It is the `lookup` parameter, which returns TXT records or a lookup error.
- The WHATWG URL parser (`new URL`) is foreign code. It is the `parse` parameter. `extractDomain` is the parser's hostname, and its `TypeError` on a bad stored URL is the `Internal` error. `src/utils/domain.ts` is not part of this model.
- `Promise.all` inside a sweep slice runs its calls concurrently. The model runs them in order. `DomainService.SweepOutcome` shows that, over distinct hosts, each row's outcome does not depend on the others.
- The wall clock is one `now` per operation. The sweep's query and every verify it calls read the same `now`, whereas the code reads the clock again in each call.
- Read-then-write races between concurrent requests (find, then create or update, with no transaction) are not modelled.
- Row ids and the `select` projections are left out. Tables are keyed by their unique column (hostname, or base domain), and operations return the whole row.
- Database defaults are parameters: the verification code, the first `nextVerificationAt`, uptime and average response time. The Prisma schema is not part of this model. The model assumes that a new row starts PENDING with 0 attempts and no `verifiedAt` or last attempt (`DomainService.NewDomain`, `ApiService.NewApi`). The create calls do not write these columns, so they stand for the schema's defaults. The daily statistics' numbers are integers.
- Logging (`console.log`, `console.error`) is left out.
- `DomainService.IsSweepSelection` does not fix an order among rows with equal due times. The query leaves that order to the database.
- `Strings.ToLower` maps only the upper-case ASCII letters and KELVIN SIGN (to `k`), the one character outside ASCII whose lower case is an ASCII letter. `toLowerCase` also maps other non-ASCII letters, to non-ASCII letters. It maps U+0130 to `i` followed by U+0307, which is two characters where the model keeps one. In each of these cases the result holds a non-ASCII character that the FQDN check refuses. So `Schema.ParseDomain` accepts the same inputs and returns the same names as the source. `Schema.Transform` differs from the source only on values that are then refused.
- `Schema.FqdnAccepted` does not state separately that the lookahead `.{1,253}` excludes line terminators. Every accepted character is a letter, a digit, `-` or `.`, so this changes nothing.
- `Schema`: `uuidSchema` and the object shape of `apiDetailsSchema` are zod plumbing. Only the path pattern and the domain field are modelled.
- `DomainService.NextVerificationAt`: JavaScript `Date` range limits and millisecond rounding are not modelled. Times are unbounded integers.
- Controllers and routes, `src/index.ts`, `src/cron/index.ts`, `src/lib/fetch.ts`, `src/utils/prisma.ts`, the error-to-HTTP mapping in `src/lib/errorHandler.ts` and `src/schema/api.schema.ts` are request glue, scheduling, outbound HTTP and the database client. They are not part of this model.
