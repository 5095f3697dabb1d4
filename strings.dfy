/** The JavaScript string built-ins the services and validators rely on, over `seq<char>`:
    `trim`, `startsWith` (the prefix relation `p <= s`), `indexOf`, `replace(/^www\./, "")`
    and `toLowerCase` (where the lower case is ASCII). `Split` and `JoinWith` are not
    calls of the source: they cut a string at a separator so that the languages of the
    validators' regular expressions can be stated over the pieces. */
module Strings {

  /** A code point that `String.prototype.trim` removes: ECMAScript WhiteSpace
      (tab, vertical tab, form feed, space, no-break space, byte order mark and the
      space separators) and LineTerminator (LF, CR, line and paragraph separator). */
  predicate IsJsWhitespace(c: char) {
    c == '\t' || c == '\n' || c == '\U{000B}' || c == '\U{000C}' || c == '\r' || c == ' '
    || c == '\U{00A0}' || c == '\U{1680}' || ('\U{2000}' <= c <= '\U{200A}')
    || c == '\U{2028}' || c == '\U{2029}' || c == '\U{202F}' || c == '\U{205F}'
    || c == '\U{3000}' || c == '\U{FEFF}'
  }

  /** `r` is the slice of `s` that starts at `lead`, and everything of `s` outside it is whitespace. */
  predicate IsTrimmedSlice(s: string, r: string, lead: int) {
    && 0 <= lead <= |s| - |r|
    && r == s[lead..lead + |r|]
    && (forall k :: 0 <= k < lead ==> IsJsWhitespace(s[k]))
    && (forall k :: lead + |r| <= k < |s| ==> IsJsWhitespace(s[k]))
  }

  /** `s.trim()`: whitespace is removed from both ends. */
  function Trim(s: string): (r: string)
    ensures |r| <= |s|
    decreases |s|
  {
    if |s| > 0 && IsJsWhitespace(s[0]) then Trim(s[1..])
    else if |s| > 0 && IsJsWhitespace(s[|s| - 1]) then Trim(s[..|s| - 1])
    else s
  }

  /** What is left after `trim` is a slice of the input with no whitespace at either end,
      and only whitespace was cut away. */
  lemma {:induction false} TrimIsSlice(s: string)
    ensures var r := Trim(s); r == [] || (!IsJsWhitespace(r[0]) && !IsJsWhitespace(r[|r| - 1]))
    ensures exists lead :: IsTrimmedSlice(s, Trim(s), lead)
    decreases |s|
  {
    var r := Trim(s);
    if |s| > 0 && IsJsWhitespace(s[0]) {
      TrimIsSlice(s[1..]);
      var lead :| IsTrimmedSlice(s[1..], r, lead);
      SliceAfterFront(s, r, lead);
    } else if |s| > 0 && IsJsWhitespace(s[|s| - 1]) {
      TrimIsSlice(s[..|s| - 1]);
      var lead :| IsTrimmedSlice(s[..|s| - 1], r, lead);
      SliceAfterBack(s, r, lead);
    } else {
      assert IsTrimmedSlice(s, r, 0);
    }
  }

  /** Cutting one leading whitespace character moves the slice one place on. */
  lemma SliceAfterFront(s: string, r: string, lead: int)
    requires |s| > 0 && IsJsWhitespace(s[0]) && IsTrimmedSlice(s[1..], r, lead)
    ensures IsTrimmedSlice(s, r, lead + 1)
  {
    assert s[1..][lead..lead + |r|] == s[lead + 1..lead + 1 + |r|];
    forall k | 0 <= k < lead + 1 ensures IsJsWhitespace(s[k]) {
      if k > 0 { assert s[k] == s[1..][k - 1]; }
    }
    forall k | lead + 1 + |r| <= k < |s| ensures IsJsWhitespace(s[k]) {
      assert s[k] == s[1..][k - 1];
    }
  }

  /** Cutting one trailing whitespace character keeps the slice where it is. */
  lemma SliceAfterBack(s: string, r: string, lead: int)
    requires |s| > 0 && IsJsWhitespace(s[|s| - 1]) && IsTrimmedSlice(s[..|s| - 1], r, lead)
    ensures IsTrimmedSlice(s, r, lead)
  {
    assert s[..|s| - 1][lead..lead + |r|] == s[lead..lead + |r|];
    forall k | 0 <= k < lead ensures IsJsWhitespace(s[k]) {
      assert s[k] == s[..|s| - 1][k];
    }
    forall k | lead + |r| <= k < |s| ensures IsJsWhitespace(s[k]) {
      if k < |s| - 1 { assert s[k] == s[..|s| - 1][k]; }
    }
  }

  /** A string with no whitespace at either end is its own trim. */
  lemma TrimKeepsClean(s: string)
    requires s != [] && !IsJsWhitespace(s[0]) && !IsJsWhitespace(s[|s| - 1])
    ensures Trim(s) == s
  {
  }

  /** `s.indexOf(c)`: the position of the first `c` in `s`, or -1 when there is none. */
  function IndexOf(s: string, c: char): (i: int)
    ensures -1 <= i < |s|
    ensures i == -1 <==> c !in s
    ensures 0 <= i ==> s[i] == c && c !in s[..i]
  {
    if |s| == 0 then -1
    else if s[0] == c then 0
    else
      var j := IndexOf(s[1..], c);
      if j == -1 then -1
      else
        assert s[..j + 1] == [s[0]] + s[1..][..j];
        j + 1
  }

  /** `s.startsWith("www.") ? s.slice(4) : s`, which is also `s.replace(/^www\./, "")`:
      at most one leading "www." is removed. */
  function StripWww(s: string): (r: string)
    ensures "www." <= s ==> s == "www." + r
    ensures !("www." <= s) ==> r == s
  {
    if "www." <= s then s[4..] else s
  }

  predicate IsUpperAscii(c: char) { 'A' <= c <= 'Z' }

  predicate IsAsciiLetter(c: char) { 'A' <= c <= 'Z' || 'a' <= c <= 'z' }

  predicate IsDigit(c: char) { '0' <= c <= '9' }

  /** KELVIN SIGN, the one character outside ASCII whose lower case under `toLowerCase`
      is a single ASCII letter. */
  const KelvinSign: char := '\U{212A}'

  function LowerChar(c: char): char {
    if IsUpperAscii(c) then (c as int + 32) as char
    else if c == KelvinSign then 'k'
    else c
  }

  /** `s.toLowerCase()` on the characters whose lower case is ASCII: the upper-case ASCII
      letters and KELVIN SIGN; every other character is kept. */
  function ToLower(s: string): (r: string)
    ensures |r| == |s|
    ensures forall i :: 0 <= i < |r| ==> !IsUpperAscii(r[i])
    ensures forall i :: 0 <= i < |s| && IsUpperAscii(s[i]) ==> r[i] as int == s[i] as int + 32
    ensures forall i :: 0 <= i < |s| && s[i] == KelvinSign ==> r[i] == 'k'
    ensures forall i :: 0 <= i < |s| && !IsUpperAscii(s[i]) && s[i] != KelvinSign ==> r[i] == s[i]
  {
    seq(|s|, i requires 0 <= i < |s| => LowerChar(s[i]))
  }

  /** Lower-casing twice is lower-casing once. */
  lemma ToLowerIdempotent(s: string)
    ensures ToLower(ToLower(s)) == ToLower(s)
  {
    var r := ToLower(s);
    assert forall i :: 0 <= i < |r| ==> LowerChar(r[i]) == r[i];
  }

  /** KELVIN SIGN lowers to the ASCII letter `k`. */
  lemma KelvinSignLowered()
    ensures ToLower([KelvinSign]) == "k"
  {
  }

  /** The pieces between the occurrences of `sep`, always at least one (as `s.split(sep)`
      would give them). */
  function Split(s: string, sep: char): (parts: seq<string>)
    ensures |parts| >= 1
    ensures forall i :: 0 <= i < |parts| ==> sep !in parts[i]
    decreases |s|
  {
    var i := IndexOf(s, sep);
    if i == -1 then [s] else [s[..i]] + Split(s[i + 1..], sep)
  }

  /** The parts with `sep` between each two (as `parts.join(sep)`), for a non-empty list. */
  function JoinWith(parts: seq<string>, sep: char): string
    requires |parts| >= 1
  {
    if |parts| == 1 then parts[0] else parts[0] + [sep] + JoinWith(parts[1..], sep)
  }

  /** Joining the pieces of a split gives the string back. */
  lemma {:induction false} JoinSplit(s: string, sep: char)
    ensures JoinWith(Split(s, sep), sep) == s
    decreases |s|
  {
    var i := IndexOf(s, sep);
    if i == -1 {
      assert Split(s, sep) == [s];
    } else {
      var head, rest := s[..i], s[i + 1..];
      var tail := Split(rest, sep);
      assert Split(s, sep) == [head] + tail;
      assert JoinWith(tail, sep) == rest by { JoinSplit(rest, sep); }
      assert JoinWith([head] + tail, sep) == head + [sep] + JoinWith(tail, sep) by {
        JoinWithCons(head, tail, sep);
      }
      assert s == head + [sep] + rest by { CutAt(s, i); }
    }
  }

  /** A string is the part before position `i`, the character there and the part after. */
  lemma CutAt(s: string, i: int)
    requires 0 <= i < |s|
    ensures s == s[..i] + [s[i]] + s[i + 1..]
  {
  }

  /** One unfolding of `join` on a list with a head and a non-empty tail. */
  lemma JoinWithCons(a: string, tail: seq<string>, sep: char)
    requires |tail| >= 1
    ensures JoinWith([a] + tail, sep) == a + [sep] + JoinWith(tail, sep)
  {
    assert ([a] + tail)[1..] == tail;
  }

  /** Splitting a join gives the pieces back, provided no piece holds the separator. */
  lemma {:induction false} SplitJoin(parts: seq<string>, sep: char)
    requires |parts| >= 1
    requires forall i :: 0 <= i < |parts| ==> sep !in parts[i]
    ensures Split(JoinWith(parts, sep), sep) == parts
  {
    if |parts| > 1 {
      var tail := JoinWith(parts[1..], sep);
      var s := parts[0] + [sep] + tail;
      assert JoinWith(parts, sep) == s;
      IndexOfAfter(parts[0], sep, tail);
      assert s[..|parts[0]|] == parts[0];
      assert s[|parts[0]| + 1..] == tail;
      SplitJoin(parts[1..], sep);
    }
  }

  /** The first separator of `a + [sep] + b` is the one right after `a` when `a` has none. */
  lemma IndexOfAfter(a: string, sep: char, b: string)
    requires sep !in a
    ensures IndexOf(a + [sep] + b, sep) == |a|
  {
    var s := a + [sep] + b;
    assert s[|a|] == sep;
    assert s[..|a|] == a;
  }
}
