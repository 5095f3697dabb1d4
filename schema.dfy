/** The zod validators of the request bodies: the API path pattern
    `^\/[a-zA-Z0-9_-]+(\/[a-zA-Z0-9_-]+)*$` and the domain field, which is trimmed,
    normalised to a lower-case hostname and then checked against
    `^(?=.{1,253}$)(?!-)(?:[a-z0-9-]{1,63}\.)+[a-z]{2,63}$` with the `i` flag.
    Each pattern is given twice: as a check on the pieces of the string cut at its
    separator (`PathAccepted`, `FqdnAccepted`), which stands for `RegExp.test`, and as the
    language the pattern denotes, with a lemma that the two agree. */
module Schema {
  import opened Wrappers
  import opened Strings
  import opened WhatwgUrl

  // ---------------------------------------------------------------- paths

  /** `[a-zA-Z0-9_-]`. */
  predicate IsPathChar(c: char) {
    IsAsciiLetter(c) || IsDigit(c) || c == '_' || c == '-'
  }

  /** `[a-zA-Z0-9_-]+`. */
  predicate IsSegment(seg: string) {
    |seg| >= 1 && forall i :: 0 <= i < |seg| ==> IsPathChar(seg[i])
  }

  predicate AllSegments(segs: seq<string>) {
    forall i :: 0 <= i < |segs| ==> IsSegment(segs[i])
  }

  /** `pathSchema`'s `regex(...)` test: a leading '/' and then non-empty segments between single slashes. */
  predicate PathAccepted(s: string) {
    |s| >= 1 && s[0] == '/' && AllSegments(Split(s[1..], '/'))
  }

  /** `(\/[a-zA-Z0-9_-]+)*` spelled out: each segment preceded by a '/'. */
  function SlashPrefixed(segs: seq<string>): string {
    if segs == [] then "" else "/" + segs[0] + SlashPrefixed(segs[1..])
  }

  /** The language of the path pattern, read off the pattern itself. */
  ghost predicate PathLanguage(s: string) {
    exists first, rest :: IsSegment(first) && AllSegments(rest) && s == "/" + (first + SlashPrefixed(rest))
  }

  /** A segment holds no '/', so it can be one piece of a split on '/'. */
  lemma SegmentHasNoSlash(seg: string)
    requires IsSegment(seg)
    ensures '/' !in seg
  {
  }

  /** A segment followed by slash-prefixed segments is the join of all of them. */
  lemma {:induction false} SlashPrefixedJoin(first: string, rest: seq<string>)
    ensures first + SlashPrefixed(rest) == JoinWith([first] + rest, '/')
    decreases |rest|
  {
    if rest == [] {
      assert [first] + rest == [first];
    } else {
      SlashPrefixedJoin(rest[0], rest[1..]);
      assert [rest[0]] + rest[1..] == rest;
      JoinWithCons(first, rest, '/');
    }
  }

  /** An accepted path is "/" followed by its first segment and the other segments,
      each behind a '/'. */
  lemma AcceptedPathSpelled(s: string)
    requires PathAccepted(s)
    ensures var segs := Split(s[1..], '/');
      && IsSegment(segs[0]) && AllSegments(segs[1..])
      && s == "/" + (segs[0] + SlashPrefixed(segs[1..]))
  {
    var t := s[1..];
    var segs := Split(t, '/');
    assert t == segs[0] + SlashPrefixed(segs[1..]) by {
      JoinSplit(t, '/');
      JoinSpelled(segs);
    }
    assert IsSegment(segs[0]) && AllSegments(segs[1..]) by {
      AllSegmentsTail(segs);
    }
    assert s == "/" + t;
  }

  /** A join on '/' is its first piece followed by the others, each behind a '/'. */
  lemma JoinSpelled(segs: seq<string>)
    requires |segs| >= 1
    ensures JoinWith(segs, '/') == segs[0] + SlashPrefixed(segs[1..])
  {
    assert [segs[0]] + segs[1..] == segs;
    SlashPrefixedJoin(segs[0], segs[1..]);
  }

  lemma AllSegmentsTail(segs: seq<string>)
    requires |segs| >= 1 && AllSegments(segs)
    ensures IsSegment(segs[0]) && AllSegments(segs[1..])
  {
    forall i | 0 <= i < |segs| - 1 ensures IsSegment(segs[1..][i]) {
      assert segs[1..][i] == segs[i + 1];
    }
  }

  /** Every string of the pattern's language passes the check. */
  lemma SpelledPathAccepted(first: string, rest: seq<string>)
    requires IsSegment(first) && AllSegments(rest)
    ensures PathAccepted("/" + (first + SlashPrefixed(rest)))
  {
    var s := "/" + (first + SlashPrefixed(rest));
    var segs := [first] + rest;
    SlashPrefixedJoin(first, rest);
    assert s[1..] == JoinWith(segs, '/');
    assert AllSegments(segs) by {
      forall i | 0 <= i < |segs| ensures IsSegment(segs[i]) {
        if i > 0 { assert segs[i] == rest[i - 1]; }
      }
    }
    forall i | 0 <= i < |segs| ensures '/' !in segs[i] {
      SegmentHasNoSlash(segs[i]);
    }
    SplitJoin(segs, '/');
  }

  /** The piecewise check accepts exactly the strings of the pattern's language. */
  lemma PathAcceptedIffLanguage(s: string)
    ensures PathAccepted(s) <==> PathLanguage(s)
  {
    if PathAccepted(s) {
      AcceptedPathSpelled(s);
    }
    if PathLanguage(s) {
      var first, rest :| IsSegment(first) && AllSegments(rest) && s == "/" + (first + SlashPrefixed(rest));
      SpelledPathAccepted(first, rest);
    }
  }

  /** The last character of a join is the last character of the last part. */
  lemma {:induction false} JoinWithLast(parts: seq<string>, sep: char)
    requires |parts| >= 1 && parts[|parts| - 1] != []
    ensures var j := JoinWith(parts, sep); |j| >= 1 && j[|j| - 1] == parts[|parts| - 1][|parts[|parts| - 1]| - 1]
    decreases |parts|
  {
    if |parts| > 1 {
      JoinWithLast(parts[1..], sep);
    }
  }

  /** An accepted path never ends in '/'. */
  lemma NoTrailingSlash(s: string)
    requires PathAccepted(s)
    ensures s[|s| - 1] != '/'
  {
    var segs := Split(s[1..], '/');
    JoinSplit(s[1..], '/');
    assert IsSegment(segs[|segs| - 1]);
    JoinWithLast(segs, '/');
    SegmentHasNoSlash(segs[|segs| - 1]);
    var last := segs[|segs| - 1];
    assert last[|last| - 1] in last;
  }

  /** The root alone is refused: its one segment is empty. */
  lemma RootRejected()
    ensures !PathAccepted("/")
  {
    var rest := "/"[1..];
    assert rest == "";
    assert Split(rest, '/') == [""];
    assert !IsSegment(Split(rest, '/')[0]);
  }

  /** An empty first segment is refused. */
  lemma DoubleSlashRejected()
    ensures !PathAccepted("//a")
  {
    assert "//a"[1..] == "/a";
    assert IndexOf("/a", '/') == 0;
    assert Split("/a", '/')[0] == "";
  }

  /** A trailing slash is refused. */
  lemma TrailingSlashRejected()
    ensures !PathAccepted("/a/")
  {
    assert "/a/"[1..] == "a/";
    assert IndexOf("a/", '/') == 1;
    assert "a/"[..1] == "a" && "a/"[2..] == "";
    assert Split("", '/') == [""];
    var parts := Split("/a/"[1..], '/');
    assert parts == ["a"] + [""];
    assert !IsSegment(parts[1]);
  }

  /** A single segment is accepted. */
  lemma HealthAccepted()
    ensures PathAccepted("/health")
  {
    var h := "health";
    assert "/health"[1..] == h;
    assert '/' !in h by {
      forall i | 0 <= i < |h| ensures h[i] != '/' {
      }
    }
    assert Split(h, '/') == [h];
    assert IsSegment(h) by {
      forall i | 0 <= i < |h| ensures IsPathChar(h[i]) {
      }
    }
  }

  // ---------------------------------------------------------------- domains

  /** `[a-z0-9-]` with the `i` flag: ASCII letters of either case, digits and '-'. */
  predicate IsLabelChar(c: char) {
    IsAsciiLetter(c) || IsDigit(c) || c == '-'
  }

  /** `[a-z0-9-]{1,63}`: one label, at most 63 characters (section 2.3.4 of RFC 1035).
      Unlike the LDH rule of section 2.3.1 of RFC 1035, a label may start or end with '-'. */
  predicate IsLabel(l: string) {
    1 <= |l| <= 63 && forall i :: 0 <= i < |l| ==> IsLabelChar(l[i])
  }

  /** `[a-z]{2,63}` with the `i` flag: the final label, letters only. */
  predicate IsTld(t: string) {
    2 <= |t| <= 63 && forall i :: 0 <= i < |t| ==> IsAsciiLetter(t[i])
  }

  predicate AllLabels(labels: seq<string>) {
    forall i :: 0 <= i < |labels| ==> IsLabel(labels[i])
  }

  /** The dot-separated pieces of an accepted name: at least one label, then the final label. */
  predicate FqdnParts(parts: seq<string>) {
    |parts| >= 2 && AllLabels(parts[..|parts| - 1]) && IsTld(parts[|parts| - 1])
  }

  /** `fqdnRegex.test(value)`: 1 to 253 characters, no leading '-', and the pieces
      between the dots form labels and a final label. */
  predicate FqdnAccepted(s: string) {
    1 <= |s| <= 253 && s[0] != '-' && FqdnParts(Split(s, '.'))
  }

  /** `(?:[a-z0-9-]{1,63}\.)+` spelled out: each label followed by a dot. */
  function DotTerminated(labels: seq<string>): string {
    if labels == [] then "" else labels[0] + "." + DotTerminated(labels[1..])
  }

  /** The language of the domain pattern, read off the pattern itself: the two lookaheads
      and then one or more dot-terminated labels followed by the final label. */
  ghost predicate FqdnLanguage(s: string) {
    && 1 <= |s| <= 253
    && s[0] != '-'
    && exists labels, tld ::
         && |labels| >= 1
         && AllLabels(labels)
         && IsTld(tld)
         && s == DotTerminated(labels) + tld
  }

  /** Dot-terminated labels followed by the final label are the join of all of them on '.'. */
  lemma {:induction false} DotTerminatedJoin(labels: seq<string>, tld: string)
    ensures DotTerminated(labels) + tld == JoinWith(labels + [tld], '.')
    decreases |labels|
  {
    if labels == [] {
      assert labels + [tld] == [tld];
    } else {
      DotTerminatedJoin(labels[1..], tld);
      assert labels + [tld] == [labels[0]] + (labels[1..] + [tld]);
      JoinWithCons(labels[0], labels[1..] + [tld], '.');
    }
  }

  /** A label or a final label holds no '.'. */
  lemma PieceHasNoDot(p: string)
    requires IsLabel(p) || IsTld(p)
    ensures '.' !in p
  {
  }

  /** An accepted name is its labels, each followed by a dot, and then its final label. */
  lemma AcceptedNameSpelled(s: string)
    requires FqdnAccepted(s)
    ensures var parts := Split(s, '.');
      s == DotTerminated(parts[..|parts| - 1]) + parts[|parts| - 1]
  {
    var parts := Split(s, '.');
    JoinSplit(s, '.');
    var labels, tld := parts[..|parts| - 1], parts[|parts| - 1];
    assert parts == labels + [tld];
    DotTerminatedJoin(labels, tld);
  }

  /** Every string of the pattern's language passes the check on the pieces. */
  lemma SpelledNameAccepted(labels: seq<string>, tld: string)
    requires |labels| >= 1 && AllLabels(labels) && IsTld(tld)
    ensures FqdnParts(Split(DotTerminated(labels) + tld, '.'))
  {
    var parts := labels + [tld];
    DotTerminatedJoin(labels, tld);
    forall i | 0 <= i < |parts| ensures '.' !in parts[i] {
      if i < |labels| {
        assert parts[i] == labels[i];
      }
      PieceHasNoDot(parts[i]);
    }
    SplitJoin(parts, '.');
    assert parts[..|parts| - 1] == labels;
  }

  /** The piecewise check accepts exactly the strings of the pattern's language. */
  lemma FqdnAcceptedIffLanguage(s: string)
    ensures FqdnAccepted(s) <==> FqdnLanguage(s)
  {
    if FqdnAccepted(s) {
      AcceptedNameSpelled(s);
    }
    if FqdnLanguage(s) {
      var labels, tld :| |labels| >= 1 && AllLabels(labels) && IsTld(tld) && s == DotTerminated(labels) + tld;
      SpelledNameAccepted(labels, tld);
    }
  }

  /** A label, a dot and a final label of letters make an accepted name. */
  lemma ShortNameAccepted()
    ensures FqdnAccepted("a.co")
  {
    var s, t := "a.co", "co";
    assert IndexOf(s, '.') == 1;
    assert s[..1] == "a" && s[2..] == t;
    assert t[0] != '.' && t[1] != '.';
    var parts := Split(s, '.');
    assert parts == ["a"] + [t];
    assert parts[..1] == ["a"];
    assert IsLabelChar("a"[0]);
    assert IsAsciiLetter(t[0]) && IsAsciiLetter(t[1]);
  }

  /** A name needs at least one dot. */
  lemma SingleLabelRejected()
    ensures !FqdnAccepted("localhost")
  {
    var s := "localhost";
    assert '.' !in s by {
      forall i | 0 <= i < |s| ensures s[i] != '.' {
      }
    }
    assert |Split(s, '.')| == 1;
  }

  /** A one-letter final label is refused. */
  lemma ShortTldRejected()
    ensures !FqdnAccepted("a.c")
  {
    var s := "a.c";
    assert IndexOf(s, '.') == 1;
    assert s[2..] == "c";
    assert Split("c", '.') == ["c"];
    var parts := Split(s, '.');
    assert parts == [s[..1]] + ["c"];
  }

  /** A leading '-' is refused. */
  lemma LeadingHyphenRejected()
    ensures !FqdnAccepted("-ab.com")
  {
  }

  /** What `new URL` is given: the value itself when it starts with "http", otherwise the
      value behind "https://". A bare host that happens to start with "http" is passed as is. */
  function UrlInput(value: string): (u: string)
    ensures "http" <= u
    ensures "http" <= value ==> u == value
    ensures !("http" <= value) ==> u == "https://" + value
  {
    if "http" <= value then value else "https://" + value
  }

  /** The `transform` step: the parsed hostname without one leading "www.", lower-cased;
      when the parser rejects the input, the value itself, lower-cased. */
  function Transform(value: string, parse: UrlParser): (r: string)
    ensures forall i :: 0 <= i < |r| ==> !IsUpperAscii(r[i])
    ensures parse(UrlInput(value)).Some? ==>
      r == ToLower(StripWww(parse(UrlInput(value)).value.hostname))
    ensures parse(UrlInput(value)).None? ==> r == ToLower(value)
  {
    match parse(UrlInput(value))
    case Some(url) => ToLower(StripWww(url.hostname))
    case None => ToLower(value)
  }

  /** `domainSchema.parse({ domain: raw }).domain`: trim, transform and refine. `None` is
      the "Invalid domain" rejection. An accepted name is in the pattern's language and
      has no upper-case letter. */
  function ParseDomain(raw: string, parse: UrlParser): (r: Option<string>)
    ensures r.Some? <==> FqdnAccepted(Transform(Trim(raw), parse))
    ensures r.Some? ==> r.value == Transform(Trim(raw), parse)
    ensures r.Some? ==> FqdnLanguage(r.value)
    ensures r.Some? ==> forall i :: 0 <= i < |r.value| ==> !IsUpperAscii(r.value[i])
  {
    var value := Transform(Trim(raw), parse);
    FqdnAcceptedIffLanguage(value);
    if FqdnAccepted(value) then Some(value) else None
  }

  /** KELVIN SIGN lower-cases to an ASCII `k`. `httpa.\u212Ao` starts with "http", so it
      reaches the parser as it is; with no scheme the parser rejects it, and the value
      itself, lower-cased, is accepted as `httpa.ko`. */
  lemma KelvinSignNameAccepted(parse: UrlParser)
    requires parse(['h', 't', 't', 'p', 'a', '.', KelvinSign, 'o']) == None
    ensures ParseDomain(['h', 't', 't', 'p', 'a', '.', KelvinSign, 'o'], parse) == Some("httpa.ko")
  {
    var raw := ['h', 't', 't', 'p', 'a', '.', KelvinSign, 'o'];
    assert Trim(raw) == raw by {
      assert !IsJsWhitespace(raw[0]) && !IsJsWhitespace(raw[7]);
      TrimKeepsClean(raw);
    }
    assert UrlInput(raw) == raw by { assert "http" <= raw; }
    assert Transform(raw, parse) == "httpa.ko" by {
      assert ToLower(raw) == "httpa.ko";
    }
    assert FqdnAccepted("httpa.ko") by { HttpaKoAccepted(); }
  }

  lemma HttpaKoAccepted()
    ensures FqdnAccepted("httpa.ko")
  {
    var l, t := "httpa", "ko";
    assert IsLabel(l) by {
      forall k | 0 <= k < |l| ensures IsLabelChar(l[k]) {}
    }
    assert IsTld(t) by { assert IsAsciiLetter(t[0]) && IsAsciiLetter(t[1]); }
    assert DotTerminated([l]) == l + "." by {
      assert [l][1..] == [];
    }
    assert l + "." + t == "httpa.ko";
    assert AllLabels([l]);
    SpelledNameAccepted([l], t);
  }

  /** "httpbin.org" is handed to the parser without a protocol, because it starts with "http". */
  lemma HttpNamedHostNotPrefixed()
    ensures UrlInput("httpbin.org") == "httpbin.org"
  {
    assert "http" <= "httpbin.org";
  }
}
