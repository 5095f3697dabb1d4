/** `VerificationService`: the base-domain normalisation applied to API URLs, and the TXT
    check that turns every lookup failure into "not verified". */
module VerificationService {
  import opened Wrappers
  import opened Strings
  import opened WhatwgUrl
  import opened TxtChallenge

  /** The fallback's first step: give the trimmed input a protocol if it has none. */
  function WithProtocol(cleaned: string): (c: string)
    ensures "http://" <= c || "https://" <= c
    ensures "http://" <= cleaned || "https://" <= cleaned ==> c == cleaned
    ensures !("http://" <= cleaned) && !("https://" <= cleaned) ==> c == "https://" + cleaned
  {
    if !("http://" <= cleaned) && !("https://" <= cleaned) then "https://" + cleaned else cleaned
  }

  /** What `/^(https?:\/\/)/` captures in a string that starts with one of the protocols. */
  function ProtocolOf(c: string): (p: string)
    requires "http://" <= c || "https://" <= c
    ensures p == "http://" || p == "https://"
    ensures p <= c
  {
    if "http://" <= c then "http://" else "https://"
  }

  /** Everything before the first '/', the whole string when there is none. */
  function BeforeSlash(s: string): (h: string)
    ensures h <= s && '/' !in h
    ensures |h| < |s| ==> s[|h|] == '/'
  {
    var i := IndexOf(s, '/');
    if i == -1 then s else s[..i]
  }

  /** The two protocols exclude each other: "https://..." does not start with "http://". */
  lemma HttpsIsNotHttp(s: string)
    requires "https://" <= s
    ensures !("http://" <= s)
  {
    assert s[4] == 's';
  }

  /** The manual clean-up used when the URL parser rejects the input. */
  function FallbackBase(url: string): (r: string)
    ensures "http://" <= r || "https://" <= r
  {
    var c := WithProtocol(Trim(url));
    var p := ProtocolOf(c);
    p + StripWww(BeforeSlash(c[|p|..]))
  }

  /** What the clean-up promises: it keeps the protocol the trimmed input starts with (or
      adds "https://"), drops everything from the first '/' after the protocol, and strips
      one leading "www." from what is left. */
  lemma FallbackShape(url: string)
    ensures var r := FallbackBase(url);
      && ("http://" <= r || "https://" <= r)
      && ("http://" <= Trim(url) ==> "http://" <= r)
      && ("https://" <= Trim(url) ==> "https://" <= r)
      && (!("http://" <= Trim(url)) && !("https://" <= Trim(url)) ==>
            r == "https://" + StripWww(BeforeSlash(Trim(url))))
      && ("http://" <= Trim(url) ==> r == "http://" + StripWww(BeforeSlash(Trim(url)[7..])))
      && ("https://" <= Trim(url) ==> r == "https://" + StripWww(BeforeSlash(Trim(url)[8..])))
      && '/' !in r[if "http://" <= r then 7 else 8..]
  {
    var t := Trim(url);
    var c := WithProtocol(t);
    var p := ProtocolOf(c);
    var host := StripWww(BeforeSlash(c[|p|..]));
    FallbackFacts(t, c, p, host);
  }

  lemma FallbackFacts(t: string, c: string, p: string, host: string)
    requires c == WithProtocol(t) && p == ProtocolOf(c) && '/' !in host
    requires host == StripWww(BeforeSlash(c[|p|..]))
    ensures "http://" <= t ==> p == "http://"
    ensures "https://" <= t ==> p == "https://"
    ensures !("http://" <= t) && !("https://" <= t) ==> p == "https://" && c[8..] == t
    ensures "http://" <= p + host <==> p == "http://"
    ensures '/' !in (p + host)[|p|..]
  {
    assert (p + host)[|p|..] == host;
    assert p <= p + host;
    if "https://" <= t {
      HttpsIsNotHttp(t);
    }
    if p == "https://" {
      HttpsIsNotHttp(p + host);
    }
    if !("http://" <= t) && !("https://" <= t) {
      assert c == "https://" + t;
      HttpsIsNotHttp(c);
    }
  }

  /** `getBaseDomain(url)`: with a parsed URL, its protocol, "//" and its hostname without
      one leading "www."; otherwise the manual clean-up. */
  function BaseDomain(url: string, parse: UrlParser): (r: string)
    ensures parse(url).Some? ==>
      r == parse(url).value.protocol + "//" + StripWww(parse(url).value.hostname)
    ensures parse(url).None? ==> r == FallbackBase(url)
  {
    match parse(url)
    case Some(u) => u.protocol + "//" + StripWww(u.hostname)
    case None => FallbackBase(url)
  }

  /** The same clean-up, written as the source writes it: locals reassigned step by step. */
  method GetBaseDomain(url: string, parse: UrlParser) returns (base: string)
    ensures base == BaseDomain(url, parse)
  {
    var parsed := parse(url);
    if parsed.Some? {
      var hostname := parsed.value.hostname;
      if "www." <= hostname {
        hostname := hostname[4..];
      }
      return parsed.value.protocol + "//" + hostname;
    }
    base := CleanUp(url);
  }

  /** The `catch` branch of `getBaseDomain`: the manual clean-up, step by step. */
  method CleanUp(url: string) returns (base: string)
    ensures base == FallbackBase(url)
  {
    var cleaned := Trim(url);
    if !("http://" <= cleaned) && !("https://" <= cleaned) {
      cleaned := "https://" + cleaned;
    }
    assert cleaned == WithProtocol(Trim(url));
    var protocol := if "http://" <= cleaned then "http://" else "https://";
    assert protocol == ProtocolOf(cleaned);
    var domain := cleaned[|protocol|..];
    var pathIndex := IndexOf(domain, '/');
    if pathIndex != -1 {
      domain := domain[..pathIndex];
    }
    assert domain == BeforeSlash(cleaned[|protocol|..]);
    if "www." <= domain {
      domain := domain[4..];
    }
    return protocol + domain;
  }

  /** `VerificationService.verifyDomain(domain, token)`: true as soon as one record of the
      domain, joined, is the expected token; a lookup error reads as false. */
  method VerifyDomain(domain: string, token: string, lookup: string -> DnsAnswer) returns (verified: bool)
    ensures verified <==> lookup(domain).Records? && HasToken(lookup(domain).records, ExpectedToken(token))
  {
    var answer := lookup(domain);
    if answer.LookupError? {
      return false;
    }
    var records := answer.records;
    var expected := ExpectedToken(token);
    for i := 0 to |records|
      invariant forall k :: 0 <= k < i ==> Concat(records[k]) != expected
    {
      if Concat(records[i]) == expected {
        return true;
      }
    }
    return false;
  }

  /** Only one leading "www." goes: when the parser rejects "www." + "www." + host, the
      result is "https://" + "www." + host, for any host without a '/' or trailing whitespace. */
  lemma OneWwwRemoved(host: string, parse: UrlParser)
    requires '/' !in host && (host == [] || !IsJsWhitespace(host[|host| - 1]))
    requires parse("www." + ("www." + host)) == None
    ensures BaseDomain("www." + ("www." + host), parse) == "https://" + ("www." + host)
  {
    var w := "www." + host;
    var s := "www." + w;
    assert s[0] == 'w' && w[0] == 'w';
    assert s[|s| - 1] == w[|w| - 1];
    assert w[|w| - 1] == if host == [] then '.' else host[|host| - 1];
    TrimKeepsClean(s);
    assert "www." <= s && s[4..] == w;
    FallbackOfBareHost(s);
  }

  /** A trimmed input with no protocol and no '/' only gains "https://" and loses one "www.". */
  lemma FallbackOfBareHost(s: string)
    requires Trim(s) == s && !("http://" <= s) && !("https://" <= s) && '/' !in s
    ensures FallbackBase(s) == "https://" + StripWww(s)
  {
    FallbackShape(s);
    assert BeforeSlash(s) == s;
  }
}
