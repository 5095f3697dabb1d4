/** `DomainService`: registration of a hostname, one verification attempt against its DNS TXT
    records, the status query that tells the owner which record to publish, and the sweep
    over the domains that are due (`cronJobDomainVerification`, which nothing in the
    repository schedules). The table of domains is a map from hostname to its
    row; the DNS resolver is a function from hostname to answer; `now` is milliseconds. */
module DomainService {
  import opened Wrappers
  import opened AppErrors
  import opened TxtChallenge
  import opened Ordering

  const MaxAttempts: nat := 20
  const SweepLimit: nat := 1000
  const BatchSize: nat := 100
  /** `ATTEMPT_MULTIPLIER`: minutes of back-off per attempt made so far. */
  const AttemptMultiplier: nat := 5

  /** One row of the domain table (the id is left out: the hostname is the unique key). */
  datatype Domain = Domain(
    code: string,
    status: VerificationStatus,
    attempts: nat,
    nextVerificationAt: Option<int>,
    verifiedAt: Option<int>,
    lastVerificationAttempt: Option<int>)

  /** A freshly created row: the database fills in the code and the first due time. */
  function NewDomain(code: string, nextAt: Option<int>): (d: Domain)
    ensures d.status == Pending && d.attempts == 0 && d.code == code
    ensures d.verifiedAt == None && d.lastVerificationAttempt == None
  {
    Domain(code, Pending, 0, nextAt, None, None)
  }

  // ------------------------------------------------------------ one attempt

  /** `nextAttempt`: right away after a success, otherwise five minutes more for every
      attempt made, this one included. */
  function NextVerificationAt(verified: bool, attempts: nat, now: int): (t: int)
    ensures verified ==> t == now
    ensures !verified ==> t == now + (attempts + 1) * 300000
  {
    if verified then now else now + (attempts + 1) * AttemptMultiplier * 60 * 1000
  }

  /** For a fixed `now`, each further failure pushes the next attempt strictly later. */
  lemma BackoffGrows(attempts: nat, now: int)
    ensures NextVerificationAt(false, attempts + 1, now) > NextVerificationAt(false, attempts, now)
    ensures NextVerificationAt(false, attempts, now) > now
  {
  }

  /** The row after a completed attempt (`updateData`): one more attempt, the status and
      `verifiedAt` follow the match, and the attempt time is recorded. A success counts
      as an attempt too. */
  function AfterAttempt(d: Domain, verified: bool, now: int): (e: Domain)
    ensures e.code == d.code && e.attempts == d.attempts + 1
    ensures e.status == Verified <==> verified
    ensures e.status != Pending
    ensures e.verifiedAt.Some? <==> verified
    ensures e.verifiedAt.Some? ==> e.verifiedAt.value == now
    ensures e.lastVerificationAttempt == Some(now)
    ensures e.nextVerificationAt.Some?
    ensures verified ==> e.nextVerificationAt.value == now
    ensures !verified ==> e.nextVerificationAt.value - now == e.attempts * 300000
  {
    Domain(
      d.code,
      if verified then Verified else Failed,
      d.attempts + 1,
      Some(NextVerificationAt(verified, d.attempts, now)),
      if verified then Some(now) else None,
      Some(now))
  }

  /** `verifyDomain` on a row that exists: a verified row is a conflict, a failed lookup a bad
      request (nothing written in either case); otherwise the row after the attempt, which
      succeeds exactly when some record, joined, is the row's token. */
  function Attempt(d: Domain, answer: DnsAnswer, now: int): (r: Result<Domain, AppError>)
    ensures r == Failure(Conflict) <==> d.status == Verified
    ensures r == Failure(BadRequest) <==> d.status != Verified && answer.LookupError?
    ensures r.Failure? ==> r.error == Conflict || r.error == BadRequest
    ensures r.Success? ==> answer.Records? && r.value.attempts == d.attempts + 1
    ensures r.Success? ==> (r.value.status == Verified <==> HasToken(answer.records, ExpectedToken(d.code)))
    ensures r.Success? ==> r.value == AfterAttempt(d, HasToken(answer.records, ExpectedToken(d.code)), now)
  {
    if d.status == Verified then Failure(Conflict)
    else if answer.LookupError? then Failure(BadRequest)
    else Success(AfterAttempt(d, HasToken(answer.records, ExpectedToken(d.code)), now))
  }

  /** `verifyDomain(host)` against the table: an unknown host is not found. */
  function VerifyOutcome(rows: map<string, Domain>, host: string, answer: DnsAnswer, now: int): (r: Result<Domain, AppError>)
    ensures r == Failure(NotFound) <==> host !in rows
    ensures host in rows ==> r == Attempt(rows[host], answer, now)
  {
    if host !in rows then Failure(NotFound) else Attempt(rows[host], answer, now)
  }

  /** The table after `verifyDomain(host)`: only the host's row can change, and only when the
      attempt completed. */
  function AfterVerify(rows: map<string, Domain>, host: string, answer: DnsAnswer, now: int): (t: map<string, Domain>)
    ensures t.Keys == rows.Keys
    ensures forall k :: k in rows && k != host ==> t[k] == rows[k]
    ensures VerifyOutcome(rows, host, answer, now).Failure? ==> t == rows
    ensures host in rows ==> t[host] == Attempt(rows[host], answer, now).GetOr(rows[host])
  {
    var r := VerifyOutcome(rows, host, answer, now);
    if r.Success? then rows[host := r.value] else rows
  }

  /** Once verified, a row never changes again: `verifiedAt` is written once. */
  lemma VerifiedIsFinal(rows: map<string, Domain>, host: string, answer: DnsAnswer, now: int)
    requires host in rows && rows[host].status == Verified
    ensures AfterVerify(rows, host, answer, now) == rows
  {
  }

  /** The attempt counter never goes down, and it goes up by one exactly when an attempt completes. */
  lemma AttemptsNeverDecrease(rows: map<string, Domain>, host: string, answer: DnsAnswer, now: int)
    ensures var t := AfterVerify(rows, host, answer, now);
      forall k :: k in rows ==> t[k].attempts >= rows[k].attempts
    ensures var t := AfterVerify(rows, host, answer, now);
      host in rows ==> (t[host].attempts == rows[host].attempts + 1 <==> VerifyOutcome(rows, host, answer, now).Success?)
  {
  }

  /** Two failures in a row, the second no earlier than the first, push the next attempt
      strictly later each time. */
  lemma ConsecutiveFailuresBackOff(d0: Domain, a1: DnsAnswer, now1: int, a2: DnsAnswer, now2: int)
    requires now1 <= now2
    requires Attempt(d0, a1, now1).Success? && Attempt(d0, a1, now1).value.status == Failed
    requires var d1 := Attempt(d0, a1, now1).value;
      Attempt(d1, a2, now2).Success? && Attempt(d1, a2, now2).value.status == Failed
    ensures var d1 := Attempt(d0, a1, now1).value;
      var d2 := Attempt(d1, a2, now2).value;
      d1.nextVerificationAt.value < d2.nextVerificationAt.value
  {
    var d1 := Attempt(d0, a1, now1).value;
    var d2 := Attempt(d1, a2, now2).value;
    assert d1.nextVerificationAt.value == now1 + (d0.attempts + 1) * 300000;
    assert d2.nextVerificationAt.value == now2 + (d0.attempts + 2) * 300000;
  }

  // ------------------------------------------------------------ status query

  /** What `getVerificationStatus` returns: a short message for a verified domain, the TXT
      record to publish for any other. */
  datatype StatusReport =
    | VerifiedReport(status: VerificationStatus, domain: string, message: string)
    | ChallengeReport(status: VerificationStatus, domain: string, verificationMethod: string,
                      instructions: seq<string>, recordName: string, recordValue: string)

  function Instructions(host: string, code: string): seq<string> {
    [ "1. Go to your domain's DNS provider (GoDaddy, Cloudflare, etc.)",
      "2. Add a new TXT record with these values:",
      "   - Name/Host: " + host,
      "   - Value: monitoring-verify=" + code,
      "3. Wait 5-30 minutes for DNS propagation",
      "4. Click 'Verify' button to confirm" ]
  }

  /** `getVerificationStatus(host)`. */
  function StatusOf(rows: map<string, Domain>, host: string): (r: Result<StatusReport, AppError>)
    ensures r == Failure(NotFound) <==> host !in rows
    ensures host in rows ==> r.Success?
    ensures r.Success? ==> r.value.domain == host && r.value.status == rows[host].status
    ensures r.Success? ==> (r.value.VerifiedReport? <==> rows[host].status == Verified)
    ensures r.Success? && r.value.ChallengeReport? ==>
      r.value.recordName == host && r.value.recordValue == ExpectedToken(rows[host].code)
  {
    if host !in rows then Failure(NotFound)
    else
      var d := rows[host];
      if d.status == Verified then Success(VerifiedReport(d.status, host, "Your domain is verified"))
      else
        Success(ChallengeReport(d.status, host, "DNX TXT Record", Instructions(host, d.code),
                                host, ExpectedToken(d.code)))
  }

  /** The record the status query asks for is one that verify accepts: publishing it under
      the host, as one string or cut into several and beside any other records, makes the
      next attempt succeed. */
  lemma StatusTokenVerifies(rows: map<string, Domain>, host: string, rs: seq<seq<string>>, record: seq<string>, now: int)
    requires StatusOf(rows, host).Success? && StatusOf(rows, host).value.ChallengeReport?
    requires record in rs && Concat(record) == StatusOf(rows, host).value.recordValue
    ensures VerifyOutcome(rows, host, Records(rs), now).Success?
    ensures VerifyOutcome(rows, host, Records(rs), now).value.status == Verified
  {
    var d := rows[host];
    assert d.status != Verified;
    var k :| 0 <= k < |rs| && rs[k] == record;
    assert HasToken(rs, ExpectedToken(d.code));
    var r := Attempt(d, Records(rs), now);
    assert r != Failure(Conflict) && r != Failure(BadRequest);
  }

  // ------------------------------------------------------------ the sweep

  /** The sweep's `where` clause. */
  predicate Eligible(d: Domain, now: int) {
    && d.status == Pending
    && d.attempts < MaxAttempts
    && d.nextVerificationAt.Some?
    && d.nextVerificationAt.value <= now
  }

  /** Every completed attempt leaves the row FAILED or VERIFIED, so the sweep, which takes
      only PENDING rows, never picks it again: a domain leaves the sweep after its first
      attempt, whatever the attempt count. */
  lemma AttemptLeavesSweep(d: Domain, answer: DnsAnswer, now: int, later: int)
    requires Attempt(d, answer, now).Success?
    ensures !Eligible(Attempt(d, answer, now).value, later)
  {
  }

  function DueHosts(rows: map<string, Domain>, now: int): (due: set<string>)
    ensures forall h :: h in due <==> h in rows && Eligible(rows[h], now)
  {
    set h | h in rows && Eligible(rows[h], now)
  }

  /** The sweep's `orderBy`: the row's next due time. */
  function DueKey(rows: map<string, Domain>): string -> int {
    h => if h in rows && rows[h].nextVerificationAt.Some? then rows[h].nextVerificationAt.value else 0
  }

  /** What the sweep's query may return: distinct due hosts in ascending due time, as many as
      are due but no more than 1000, and none left out that is due earlier than one taken
      (rows with equal due times come in no particular order). */
  predicate IsSweepSelection(rows: map<string, Domain>, now: int, sel: seq<string>) {
    var due := DueHosts(rows, now);
    && Distinct(sel)
    && (forall i :: 0 <= i < |sel| ==> sel[i] in due)
    && |sel| == Min(|due|, SweepLimit)
    && SortedBy(sel, DueKey(rows))
    && (forall x, y :: x in sel && y in due && y !in sel ==> DueKey(rows)(x) <= DueKey(rows)(y))
  }

  /** The query `findMany({ where, orderBy: nextVerificationAt asc, take: 1000 })` over the table. */
  method SelectDue(rows: map<string, Domain>, now: int) returns (sel: seq<string>)
    ensures IsSweepSelection(rows, now, sel)
  {
    var key := DueKey(rows);
    var due := DueHosts(rows, now);
    var sorted: seq<string> := [];
    var left := due;
    while left != {}
      invariant left <= due
      invariant forall x :: x in sorted <==> x in due && x !in left
      invariant Distinct(sorted) && SortedBy(sorted, key)
      invariant |sorted| + |left| == |due|
      decreases |left|
    {
      var h :| h in left;
      InsertKeepsDistinct(sorted, h, key);
      InsertMembers(sorted, h, key);
      sorted := Insert(sorted, h, key);
      left := left - {h};
    }
    var n := Min(|sorted|, SweepLimit);
    FirstOfSortedDue(rows, now, sorted, n);
    sel := sorted[..n];
  }

  /** The first n (n as large as allowed) of all due hosts, sorted, are a sweep selection. */
  lemma FirstOfSortedDue(rows: map<string, Domain>, now: int, sorted: seq<string>, n: nat)
    requires forall x :: x in sorted <==> x in DueHosts(rows, now)
    requires Distinct(sorted) && SortedBy(sorted, DueKey(rows)) && |sorted| == |DueHosts(rows, now)|
    requires n == Min(|sorted|, SweepLimit)
    ensures IsSweepSelection(rows, now, sorted[..n])
  {
    var sel := sorted[..n];
    TakeOfSorted(sorted, DueKey(rows), n);
    assert sorted == sel + sorted[n..];
    forall y | y in DueHosts(rows, now) && y !in sel ensures y in sorted[n..] {
    }
    forall i | 0 <= i < |sel| ensures sel[i] in DueHosts(rows, now) {
      assert sel[i] == sorted[i];
    }
  }

  /** The slices `domainsToVerify.slice(i, i + BATCH_SIZE)` for i = 0, n, 2n, ... */
  function Batches<T>(s: seq<T>, n: nat): seq<seq<T>>
    requires n >= 1
    decreases |s|
  {
    if s == [] then [] else [s[..Min(n, |s|)]] + Batches(s[Min(n, |s|)..], n)
  }

  function Flatten<T>(bs: seq<seq<T>>): seq<T> {
    if bs == [] then [] else bs[0] + Flatten(bs[1..])
  }

  /** The slices cover the selection in order; none is empty and none holds more than n,
      and all but the last hold exactly n. */
  lemma {:induction false} BatchesCover<T>(s: seq<T>, n: nat)
    requires n >= 1
    ensures Flatten(Batches(s, n)) == s
    ensures forall i :: 0 <= i < |Batches(s, n)| ==> 1 <= |Batches(s, n)[i]| <= n
    ensures forall i :: 0 <= i < |Batches(s, n)| - 1 ==> |Batches(s, n)[i]| == n
    decreases |s|
  {
    if s != [] {
      var k := Min(n, |s|);
      var bs := Batches(s, n);
      BatchesCover(s[k..], n);
      assert bs[1..] == Batches(s[k..], n);
      assert Flatten(bs) == s[..k] + s[k..];
      forall i | 0 < i < |bs| ensures 1 <= |bs[i]| <= n {
        assert bs[i] == Batches(s[k..], n)[i - 1];
      }
      forall i | 0 <= i < |bs| - 1 ensures |bs[i]| == n {
        if i > 0 {
          assert bs[i] == Batches(s[k..], n)[i - 1];
        } else {
          assert s[k..] != [];
        }
      }
    }
  }

  /** One slice off the front of what is left: the next slice ends at `end`. */
  lemma BatchesStep<T>(s: seq<T>, i: nat, n: nat)
    requires n >= 1 && i < |s|
    ensures Batches(s[i..], n) == [s[i..Min(i + n, |s|)]] + Batches(s[Min(i + n, |s|)..], n)
  {
    var t := s[i..];
    assert t[..Min(n, |t|)] == s[i..Min(i + n, |s|)];
    assert t[Min(n, |t|)..] == s[Min(i + n, |s|)..];
  }

  /** The table after verify is called on each host in turn. */
  function ApplyAttempts(rows: map<string, Domain>, hosts: seq<string>, lookup: string -> DnsAnswer, now: int): (t: map<string, Domain>)
    ensures t.Keys == rows.Keys
    ensures forall k :: k in rows && k !in hosts ==> t[k] == rows[k]
    decreases |hosts|
  {
    if hosts == [] then rows
    else ApplyAttempts(AfterVerify(rows, hosts[0], lookup(hosts[0]), now), hosts[1..], lookup, now)
  }

  /** Over distinct hosts, each one's row ends up as its own attempt left it, whether or not
      the attempts on the others failed; every other row stays as it was. */
  lemma {:induction false} SweepOutcome(rows: map<string, Domain>, hosts: seq<string>, lookup: string -> DnsAnswer, now: int)
    requires Distinct(hosts)
    ensures ApplyAttempts(rows, hosts, lookup, now).Keys == rows.Keys
    ensures forall k :: k in rows && k !in hosts ==> ApplyAttempts(rows, hosts, lookup, now)[k] == rows[k]
    ensures forall k :: k in rows && k in hosts ==>
      ApplyAttempts(rows, hosts, lookup, now)[k] == Attempt(rows[k], lookup(k), now).GetOr(rows[k])
    decreases |hosts|
  {
    if hosts != [] {
      var h := hosts[0];
      var rows1 := AfterVerify(rows, h, lookup(h), now);
      var rest := hosts[1..];
      assert Distinct(rest) by {
        forall i, j | 0 <= i < j < |rest| ensures rest[i] != rest[j] {
          assert rest[i] == hosts[i + 1] && rest[j] == hosts[j + 1];
        }
      }
      assert h !in rest by {
        forall i | 0 <= i < |rest| ensures rest[i] != h {
          assert rest[i] == hosts[i + 1];
        }
      }
      SweepOutcome(rows1, rest, lookup, now);
      forall k | k in hosts ensures k == h || k in rest {
        var i :| 0 <= i < |hosts| && hosts[i] == k;
        if i > 0 { assert rest[i - 1] == k; }
      }
    }
  }

  /** The attempt counters after the sweep are no lower than before. */
  lemma {:induction false} SweepKeepsAttempts(rows: map<string, Domain>, hosts: seq<string>, lookup: string -> DnsAnswer, now: int)
    ensures var t := ApplyAttempts(rows, hosts, lookup, now);
      t.Keys == rows.Keys && forall k :: k in rows ==> t[k].attempts >= rows[k].attempts
    decreases |hosts|
  {
    if hosts != [] {
      var rows1 := AfterVerify(rows, hosts[0], lookup(hosts[0]), now);
      AttemptsNeverDecrease(rows, hosts[0], lookup(hosts[0]), now);
      SweepKeepsAttempts(rows1, hosts[1..], lookup, now);
    }
  }

  /** Verifying the hosts of `a` and then those of `b` is verifying those of `a + b`. */
  lemma {:induction false} ApplyAttemptsAppend(rows: map<string, Domain>, a: seq<string>, b: seq<string>, lookup: string -> DnsAnswer, now: int)
    ensures ApplyAttempts(rows, a + b, lookup, now) == ApplyAttempts(ApplyAttempts(rows, a, lookup, now), b, lookup, now)
    decreases |a|
  {
    if a == [] {
      assert a + b == b;
    } else {
      assert (a + b)[0] == a[0];
      assert (a + b)[1..] == a[1..] + b;
      ApplyAttemptsAppend(AfterVerify(rows, a[0], lookup(a[0]), now), a[1..], b, lookup, now);
    }
  }

  // ------------------------------------------------------------ the store

  /** The domain table. */
  class DomainStore {
    var rows: map<string, Domain>

    constructor()
      ensures rows == map[]
    {
      rows := map[];
    }

    /** `registerDomain(host)`: a host already present is a conflict and nothing is created. */
    method Register(host: string, code: string, nextAt: Option<int>) returns (r: Result<Domain, AppError>)
      modifies this
      ensures host in old(rows) ==> r == Failure(Conflict) && rows == old(rows)
      ensures host !in old(rows) ==> r == Success(NewDomain(code, nextAt)) && rows == old(rows)[host := r.value]
    {
      if host in rows {
        return Failure(Conflict);
      }
      var created := NewDomain(code, nextAt);
      rows := rows[host := created];
      return Success(created);
    }

    /** `verifyDomain(host)`: the guards, the TXT scan, the back-off and the update. */
    method Verify(host: string, lookup: string -> DnsAnswer, now: int) returns (r: Result<Domain, AppError>)
      modifies this
      ensures r == VerifyOutcome(old(rows), host, lookup(host), now)
      ensures rows == AfterVerify(old(rows), host, lookup(host), now)
    {
      if host !in rows {
        return Failure(NotFound);
      }
      var details := rows[host];
      if details.status == Verified {
        return Failure(Conflict);
      }
      var answer := lookup(host);
      if answer.LookupError? {
        return Failure(BadRequest);
      }
      var isVerified := ScanAllRecords(answer.records, ExpectedToken(details.code));
      var nextAttempt := NextVerificationAt(isVerified, details.attempts, now);
      var updated := Domain(
        details.code,
        if isVerified then Verified else Failed,
        details.attempts + 1,
        Some(nextAttempt),
        if isVerified then Some(now) else None,
        Some(now));
      rows := rows[host := updated];
      return Success(updated);
    }

    /** The body of one slice: verify each host in turn, ignoring each call's error. */
    method VerifyBatch(batch: seq<string>, lookup: string -> DnsAnswer, now: int)
      modifies this
      ensures rows == ApplyAttempts(old(rows), batch, lookup, now)
    {
      var j := 0;
      while j < |batch|
        invariant 0 <= j <= |batch|
        invariant ApplyAttempts(old(rows), batch, lookup, now) == ApplyAttempts(rows, batch[j..], lookup, now)
      {
        assert batch[j..][0] == batch[j] && batch[j..][1..] == batch[j + 1..];
        var ignored := Verify(batch[j], lookup, now);
        j := j + 1;
      }
    }

    /** `cronJobDomainVerification`: select the due hosts, then verify them slice by slice. */
    method Sweep(lookup: string -> DnsAnswer, now: int) returns (selected: seq<string>, batches: seq<seq<string>>)
      modifies this
      ensures IsSweepSelection(old(rows), now, selected)
      ensures batches == Batches(selected, BatchSize)
      ensures rows == ApplyAttempts(old(rows), selected, lookup, now)
    {
      selected := SelectDue(rows, now);
      batches := VerifyInSlices(selected, lookup, now);
    }

    /** The loop `for (i = 0; i < n; i += BATCH_SIZE)` over `slice(i, i + BATCH_SIZE)`. */
    method VerifyInSlices(hosts: seq<string>, lookup: string -> DnsAnswer, now: int) returns (batches: seq<seq<string>>)
      modifies this
      ensures batches == Batches(hosts, BatchSize)
      ensures rows == ApplyAttempts(old(rows), hosts, lookup, now)
    {
      batches := [];
      var i := 0;
      while i < |hosts|
        invariant 0 <= i
        invariant batches + Batches(hosts[Min(i, |hosts|)..], BatchSize) == Batches(hosts, BatchSize)
        invariant ApplyAttempts(old(rows), hosts, lookup, now)
               == ApplyAttempts(rows, hosts[Min(i, |hosts|)..], lookup, now)
        decreases |hosts| - i
      {
        var end := Min(i + BatchSize, |hosts|);
        var batch := hosts[i..end];
        BatchesStep(hosts, i, BatchSize);
        assert batch + hosts[end..] == hosts[i..];
        ApplyAttemptsAppend(rows, batch, hosts[end..], lookup, now);
        VerifyBatch(batch, lookup, now);
        batches := batches + [batch];
        i := i + BatchSize;
      }
    }
  }
}
