/** Rust's `str::trim`, which the iterator applies to every unescaped text run:
    it strips leading and trailing characters for which `char::is_whitespace`
    holds, i.e. those with the Unicode White_Space property. */
module Whitespace {

  /** The code points with the Unicode White_Space property, as inclusive
      ranges: ASCII tab, line feed, vertical tab, form feed, carriage return
      and space, then the non-ASCII ones. */
  const WhiteSpaceRanges: seq<(char, char)> := [
    ('\t', '\r'), (' ', ' '), ('\U{85}', '\U{85}'), ('\U{A0}', '\U{A0}'),
    ('\U{1680}', '\U{1680}'), ('\U{2000}', '\U{200A}'), ('\U{2028}', '\U{2029}'),
    ('\U{202F}', '\U{202F}'), ('\U{205F}', '\U{205F}'), ('\U{3000}', '\U{3000}')
  ]

  predicate InRanges(c: char, ranges: seq<(char, char)>) {
    ranges != [] && (ranges[0].0 <= c <= ranges[0].1 || InRanges(c, ranges[1..]))
  }

  /** `char::is_whitespace`. */
  predicate IsWhitespace(c: char) {
    InRanges(c, WhiteSpaceRanges)
  }

  predicate AllWhitespace(s: string) {
    forall k :: 0 <= k < |s| ==> IsWhitespace(s[k])
  }

  /** The number of whitespace characters `s` starts with. */
  function Lead(s: string): (n: nat)
    ensures n <= |s|
  {
    if s == [] || !IsWhitespace(s[0]) then 0 else 1 + Lead(s[1..])
  }

  /** The number of whitespace characters `s` ends with. */
  function Trail(s: string): (n: nat)
    ensures n <= |s|
  {
    if s == [] || !IsWhitespace(s[|s| - 1]) then 0 else 1 + Trail(s[..|s| - 1])
  }

  /** Lead counts the whitespace prefix and stops at the first other character. */
  lemma {:induction false} LeadSpec(s: string)
    ensures forall k :: 0 <= k < Lead(s) ==> IsWhitespace(s[k])
    ensures Lead(s) < |s| ==> !IsWhitespace(s[Lead(s)])
  {
    if s != [] && IsWhitespace(s[0]) {
      LeadSpec(s[1..]);
      forall k | 1 <= k < Lead(s)
        ensures IsWhitespace(s[k])
      {
        assert s[k] == s[1..][k - 1];
      }
    }
  }

  /** Trail counts the whitespace suffix and stops at the last other character. */
  lemma {:induction false} TrailSpec(s: string)
    ensures forall k :: |s| - Trail(s) <= k < |s| ==> IsWhitespace(s[k])
    ensures Trail(s) < |s| ==> !IsWhitespace(s[|s| - 1 - Trail(s)])
  {
    if s != [] && IsWhitespace(s[|s| - 1]) {
      TrailSpec(s[..|s| - 1]);
    }
  }

  /** `str::trim`: the middle of `s` once the whitespace at both ends is removed. */
  function Trim(s: string): (r: string)
    ensures Lead(s) + |r| <= |s| && r == s[Lead(s)..Lead(s) + |r|]
    ensures r != [] ==> !IsWhitespace(r[0]) && !IsWhitespace(r[|r| - 1])
  {
    var a := Lead(s);
    var t := s[a..];
    LeadSpec(s);
    TrailSpec(t);
    assert a < |s| ==> t[0] == s[a];
    s[a..|s| - Trail(t)]
  }

  /** The trimmed string is the part of `s` between a whitespace prefix and a
      whitespace suffix, and it neither starts nor ends with whitespace; it is
      empty exactly when `s` is all whitespace. */
  lemma TrimSpec(s: string)
    ensures var r := Trim(s);
      && Lead(s) + |r| <= |s|
      && r == s[Lead(s)..Lead(s) + |r|]
      && (forall k :: 0 <= k < Lead(s) ==> IsWhitespace(s[k]))
      && (forall k :: Lead(s) + |r| <= k < |s| ==> IsWhitespace(s[k]))
      && (r != [] ==> !IsWhitespace(r[0]) && !IsWhitespace(r[|r| - 1]))
      && (r == [] <==> AllWhitespace(s))
  {
    LeadSpec(s);
    TrimSlice(s);
    TrimSuffix(s);
    TrimEnds(s);
    TrimEmpty(s);
  }

  lemma TrimSlice(s: string)
    ensures Lead(s) + |Trim(s)| <= |s| && Trim(s) == s[Lead(s)..Lead(s) + |Trim(s)|]
  {
  }

  lemma TrimSuffix(s: string)
    ensures forall k :: Lead(s) + |Trim(s)| <= k < |s| ==> IsWhitespace(s[k])
  {
    var a := Lead(s);
    var t := s[a..];
    TrailSpec(t);
    forall k | a + |Trim(s)| <= k < |s|
      ensures IsWhitespace(s[k])
    {
      assert s[k] == t[k - a];
    }
  }

  lemma TrimEnds(s: string)
    ensures var r := Trim(s);
      r != [] ==> !IsWhitespace(r[0]) && !IsWhitespace(r[|r| - 1])
  {
    var a := Lead(s);
    var t := s[a..];
    var b := Trail(t);
    LeadSpec(s);
    TrailSpec(t);
    var r := Trim(s);
    if r != [] {
      assert r[0] == s[a];
      assert r[|r| - 1] == t[|t| - 1 - b];
    }
  }

  lemma TrimEmpty(s: string)
    ensures Trim(s) == [] <==> AllWhitespace(s)
  {
    var a := Lead(s);
    var t := s[a..];
    LeadSpec(s);
    TrailSpec(t);
    if a < |s| {
      assert t[0] == s[a];
      assert Trail(t) < |t|;
    }
  }

  /** Trimming twice trims nothing more. */
  lemma TrimIdempotent(s: string)
    ensures Trim(Trim(s)) == Trim(s)
  {
    TrimSpec(s);
    var r := Trim(s);
    if r != [] {
      assert Lead(r) == 0;
      assert Trail(r) == 0;
    }
  }
}
