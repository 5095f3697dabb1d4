/** The DNS TXT challenge both verification paths check. A TXT record is one or more
    character-strings (section 3.3.14 of RFC 1035); the services join a record's strings
    with no separator and compare the result with `monitoring-verify=<code>`. */
module TxtChallenge {

  /** What the resolver gives for one hostname: its TXT records, or a lookup error. */
  datatype DnsAnswer = Records(records: seq<seq<string>>) | LookupError

  const TokenPrefix: string := "monitoring-verify="

  /** The record value a domain with verification code `code` must publish. */
  function ExpectedToken(code: string): (t: string)
    ensures TokenPrefix <= t && t[|TokenPrefix|..] == code
  {
    TokenPrefix + code
  }

  /** Different codes ask for different records: a record published for one code
      never verifies another. */
  lemma ExpectedTokenInjective(a: string, b: string)
    requires ExpectedToken(a) == ExpectedToken(b)
    ensures a == b
  {
    assert a == ExpectedToken(a)[|TokenPrefix|..];
  }

  /** `record.join("")`. */
  function Concat(record: seq<string>): (r: string)
    ensures record != [] ==> record[0] <= r
    ensures (forall i :: 0 <= i < |record| ==> record[i] == "") ==> r == ""
  {
    if record == [] then "" else record[0] + Concat(record[1..])
  }

  /** Some record, its strings joined, is exactly `token` (no substring or prefix match). */
  predicate HasToken(records: seq<seq<string>>, token: string) {
    exists i :: 0 <= i < |records| && Concat(records[i]) == token
  }

  /** The loop of `DomainService.verifyDomain`: every record is compared and the flag,
      once set, stays set. */
  method ScanAllRecords(records: seq<seq<string>>, token: string) returns (found: bool)
    ensures found <==> HasToken(records, token)
  {
    found := false;
    for i := 0 to |records|
      invariant found <==> exists k :: 0 <= k < i && Concat(records[k]) == token
    {
      if Concat(records[i]) == token {
        found := true;
      }
    }
  }

  lemma {:induction false} ConcatAppend(a: seq<string>, b: seq<string>)
    ensures Concat(a + b) == Concat(a) + Concat(b)
  {
    if a == [] {
      assert a + b == b;
    } else {
      assert (a + b)[0] == a[0];
      assert (a + b)[1..] == a[1..] + b;
      ConcatAppend(a[1..], b);
    }
  }

  /** Splitting one character-string of a record into two leaves the joined record as it
      was, so the match does not depend on how the value is cut into strings. */
  lemma SplitStringKeepsRecord(record: seq<string>, i: nat, x: string, y: string)
    requires i < |record| && x + y == record[i]
    ensures Concat(record[..i] + [x, y] + record[i + 1..]) == Concat(record)
  {
    var pre, post := record[..i], record[i + 1..];
    var split, whole := pre + [x, y], pre + [record[i]];
    assert record[i..] == [record[i]] + post;
    assert record == pre + record[i..];
    assert record == whole + post;
    assert Concat([x, y]) == record[i] by { ConcatPair(x, y); }
    assert Concat([record[i]]) == record[i] by { ConcatSingle(record[i]); }
    assert Concat(split) == Concat(pre) + Concat([x, y]) by { ConcatAppend(pre, [x, y]); }
    assert Concat(whole) == Concat(pre) + Concat([record[i]]) by { ConcatAppend(pre, [record[i]]); }
    assert Concat(split + post) == Concat(split) + Concat(post) by { ConcatAppend(split, post); }
    assert Concat(whole + post) == Concat(whole) + Concat(post) by { ConcatAppend(whole, post); }
  }

  lemma ConcatSingle(x: string)
    ensures Concat([x]) == x
  {
    assert [x][1..] == [];
  }

  lemma ConcatPair(x: string, y: string)
    ensures Concat([x, y]) == x + y
  {
    assert [x, y][1..] == [y];
    ConcatSingle(y);
  }
}
