/**
 String helpers shared by the prompt composer, the think-marker scanner and
 the conversation memory. Each one is the `seq<char>` counterpart of a Python
 `str` method the client relies on: `strip`, `find`, `join` and (for the
 quit command) ASCII `lower`.
 */
module Text {

  /** The characters Python's `str.isspace` accepts; `str.strip()` with no
      argument removes exactly these from both ends. */
  const Whitespace: set<char> := {
    ' ', '\t', '\n', '\r', '\U{000B}', '\U{000C}',
    '\U{001C}', '\U{001D}', '\U{001E}', '\U{001F}', '\U{0085}', '\U{00A0}',
    '\U{1680}', '\U{2000}', '\U{2001}', '\U{2002}', '\U{2003}', '\U{2004}',
    '\U{2005}', '\U{2006}', '\U{2007}', '\U{2008}', '\U{2009}', '\U{200A}',
    '\U{2028}', '\U{2029}', '\U{202F}', '\U{205F}', '\U{3000}'
  }

  /** The end of the run of `cs` characters that starts at `i`. */
  function LeadEnd(s: string, cs: set<char>, i: nat): (r: nat)
    requires i <= |s|
    ensures i <= r <= |s|
    ensures forall k :: i <= k < r ==> s[k] in cs
    ensures r == |s| || s[r] !in cs
    decreases |s| - i
  {
    if i < |s| && s[i] in cs then LeadEnd(s, cs, i + 1) else i
  }

  /** The start of the run of `cs` characters that ends at `j`, looking no
      further back than `lo`. */
  function TrailStart(s: string, cs: set<char>, lo: nat, j: nat): (r: nat)
    requires lo <= j <= |s|
    ensures lo <= r <= j
    ensures forall k :: r <= k < j ==> s[k] in cs
    ensures r == lo || s[r - 1] !in cs
    decreases j - lo
  {
    if j > lo && s[j - 1] in cs then TrailStart(s, cs, lo, j - 1) else j
  }

  /** `r` is what is left of `s` once the run of `cs` characters before
      position `i` and the run after `r` are cut off. */
  ghost predicate TrimmedAt(s: string, cs: set<char>, i: int, r: string)
  {
    && 0 <= i && i + |r| <= |s|
    && r == s[i..i + |r|]
    && (forall k :: 0 <= k < i ==> s[k] in cs)
    && (forall k :: i + |r| <= k < |s| ==> s[k] in cs)
    && (r == [] || (r[0] !in cs && r[|r| - 1] !in cs))
  }

  /** Python's `s.strip(chars)`: the longest middle slice of `s` that neither
      starts nor ends with a character of `cs`. */
  function StripSet(s: string, cs: set<char>): (r: string)
    ensures TrimmedAt(s, cs, LeadEnd(s, cs, 0), r)
    ensures r == [] <==> forall k :: 0 <= k < |s| ==> s[k] in cs
    ensures r == [] || (r[0] !in cs && r[|r| - 1] !in cs)
  {
    var lo := LeadEnd(s, cs, 0);
    var hi := TrailStart(s, cs, lo, |s|);
    assert lo < |s| ==> hi > lo;
    s[lo..hi]
  }

  /** Python's `s.strip()`. */
  function Strip(s: string): string
  {
    StripSet(s, Whitespace)
  }

  /** Stripping twice removes nothing more than stripping once. */
  lemma StripSetIdempotent(s: string, cs: set<char>)
    ensures StripSet(StripSet(s, cs), cs) == StripSet(s, cs)
  {
    var r := StripSet(s, cs);
    if r != [] {
      StripSetKeeps(r, cs);
    }
  }

  /** A string that neither starts nor ends with a character of `cs` is its
      own strip. */
  lemma StripSetKeeps(s: string, cs: set<char>)
    requires s != [] && s[0] !in cs && s[|s| - 1] !in cs
    ensures StripSet(s, cs) == s
  {
    assert LeadEnd(s, cs, 0) == 0;
    assert TrailStart(s, cs, 0, |s|) == |s|;
    assert s[0..|s|] == s;
  }

  /** Python's `"".join(parts)`. */
  function Concat(parts: seq<string>): string
  {
    if parts == [] then "" else parts[0] + Concat(parts[1..])
  }

  lemma {:induction false} ConcatAppend(a: seq<string>, b: seq<string>)
    ensures Concat(a + b) == Concat(a) + Concat(b)
    decreases |a|
  {
    if a == [] {
      assert a + b == b;
    } else {
      assert (a + b)[1..] == a[1..] + b;
      ConcatAppend(a[1..], b);
    }
  }

  /** Python's `sep.join(parts)`. */
  function Join(parts: seq<string>, sep: string): (r: string)
    ensures parts != [] ==> |parts[0]| <= |r| && r[..|parts[0]|] == parts[0]
    ensures parts != [] ==>
              |parts[|parts| - 1]| <= |r| && r[|r| - |parts[|parts| - 1]|..] == parts[|parts| - 1]
    ensures parts != [] ==> |r| == |Concat(parts)| + (|parts| - 1) * |sep|
  {
    if parts == [] then ""
    else if |parts| == 1 then parts[0]
    else parts[0] + sep + Join(parts[1..], sep)
  }

  /** With a non-empty separator, a join of non-empty parts is empty exactly
      when there are no parts. */
  lemma JoinEmptyIff(parts: seq<string>, sep: string)
    requires sep != []
    requires forall k :: 0 <= k < |parts| ==> parts[k] != []
    ensures Join(parts, sep) == [] <==> parts == []
  {
    if parts != [] {
      assert |Join(parts, sep)| >= |parts[0]| > 0;
    }
  }

  /** `pat[k..]` matches `text` from position `p + k` on, character by
      character. */
  predicate MatchesFrom(text: string, pat: string, p: int, k: nat)
    decreases |pat| - k
  {
    k >= |pat| || (0 <= p + k < |text| && text[p + k] == pat[k] && MatchesFrom(text, pat, p, k + 1))
  }

  /** `pat` occurs in `text` starting at position `p`. */
  ghost predicate OccursAt(text: string, pat: string, p: int)
  {
    0 <= p && p + |pat| <= |text| && MatchesFrom(text, pat, p, 0)
  }

  /** `pat` occurs somewhere in `text` (Python's `pat in text`). */
  ghost predicate Contains(text: string, pat: string)
  {
    exists p :: OccursAt(text, pat, p)
  }

  lemma {:induction false} MatchesFromIff(text: string, pat: string, p: int, k: nat)
    requires 0 <= p && p + |pat| <= |text| && k <= |pat|
    ensures MatchesFrom(text, pat, p, k) <==> forall i :: k <= i < |pat| ==> text[p + i] == pat[i]
    decreases |pat| - k
  {
    if k < |pat| {
      MatchesFromIff(text, pat, p, k + 1);
    }
  }

  /** An occurrence is a slice equal to the pattern. */
  lemma OccursAtIff(text: string, pat: string, p: int)
    ensures OccursAt(text, pat, p) <==> 0 <= p && p + |pat| <= |text| && text[p..p + |pat|] == pat
  {
    if 0 <= p && p + |pat| <= |text| {
      MatchesFromIff(text, pat, p, 0);
      if text[p..p + |pat|] == pat {
        forall i | 0 <= i < |pat|
          ensures text[p + i] == pat[i]
        {
          assert text[p..p + |pat|][i] == text[p + i];
        }
      }
      if forall i :: 0 <= i < |pat| ==> text[p + i] == pat[i] {
        assert text[p..p + |pat|] == pat;
      }
    }
  }

  /** An occurrence is a run of matching characters. */
  lemma OccursAtChars(text: string, pat: string, p: int)
    ensures OccursAt(text, pat, p)
            <==> 0 <= p && p + |pat| <= |text| && forall i :: 0 <= i < |pat| ==> text[p + i] == pat[i]
  {
    if 0 <= p && p + |pat| <= |text| {
      MatchesFromIff(text, pat, p, 0);
    }
  }

  /** Python's `text.find(pat, start)`: a position at or after `start`
      where `pat` occurs, or -1; `FindIsFirst` shows it is the first one. */
  function Find(text: string, pat: string, start: nat): (r: int)
    ensures r == -1 || (start <= r && OccursAt(text, pat, r))
    decreases |text| - start
  {
    if start + |pat| > |text| then -1
    else if MatchesFrom(text, pat, start, 0) then start
    else Find(text, pat, start + 1)
  }

  /** `Find` returns the first occurrence at or after `start`, and -1 only
      when there is none. */
  lemma {:induction false} FindIsFirst(text: string, pat: string, start: nat)
    ensures var r := Find(text, pat, start);
      forall p :: start <= p && (r == -1 || p < r) ==> !OccursAt(text, pat, p)
    decreases |text| - start
  {
    if start + |pat| <= |text| && !MatchesFrom(text, pat, start, 0) {
      FindIsFirst(text, pat, start + 1);
    }
  }

  /** An occurrence inside a slice is an occurrence in the whole string,
      shifted by the slice's start. */
  lemma OccursInSlice(text: string, lo: int, hi: int, pat: string, q: int)
    requires 0 <= lo <= hi <= |text|
    requires OccursAt(text[lo..hi], pat, q)
    ensures OccursAt(text, pat, lo + q)
  {
    OccursAtChars(text[lo..hi], pat, q);
    OccursAtChars(text, pat, lo + q);
    forall k | 0 <= k < |pat|
      ensures text[lo + q + k] == pat[k]
    {
      assert text[lo..hi][q + k] == pat[k];
    }
  }

  /** An occurrence that lies inside a slice is an occurrence in the slice. */
  lemma OccursToSlice(text: string, lo: int, hi: int, pat: string, p: int)
    requires 0 <= lo <= p && p + |pat| <= hi <= |text|
    requires OccursAt(text, pat, p)
    ensures OccursAt(text[lo..hi], pat, p - lo)
  {
    OccursAtChars(text[lo..hi], pat, p - lo);
    OccursAtChars(text, pat, p);
    forall k | 0 <= k < |pat|
      ensures text[lo..hi][p - lo + k] == pat[k]
    {
      assert text[p + k] == pat[k];
    }
  }

  /** A slice that starts and ends where the whole string has no occurrence
      of a non-empty pattern does not contain the pattern. This is what a
      first-occurrence search leaves behind it. */
  lemma SliceAvoids(text: string, pat: string, lo: int, hi: int)
    requires pat != []
    requires 0 <= lo <= hi <= |text|
    requires forall p :: lo <= p < hi ==> !OccursAt(text, pat, p)
    ensures !Contains(text[lo..hi], pat)
  {
    forall q | OccursAt(text[lo..hi], pat, q)
      ensures OccursAt(text, pat, lo + q) && lo + q < hi
    {
      OccursInSlice(text, lo, hi, pat, q);
    }
  }

  /** A string whose characters never equal the pattern's first one does
      not contain the pattern. */
  lemma NoLeadNoOccurrence(text: string, pat: string)
    requires pat != []
    requires forall k :: 0 <= k < |text| ==> text[k] != pat[0]
    ensures !Contains(text, pat)
  {
    forall p | 0 <= p
      ensures !OccursAt(text, pat, p)
    {
      OccursAtChars(text, pat, p);
      if p + |pat| <= |text| {
        assert text[p + 0] != pat[0];
      }
    }
  }

  /** ASCII lower-casing of one character. */
  function LowerChar(c: char): char
  {
    if 'A' <= c <= 'Z' then (c as int + 32) as char else c
  }

  /** Python's `s.lower()`, restricted to the ASCII letters. */
  function Lower(s: string): (r: string)
    ensures |r| == |s|
    ensures forall k :: 0 <= k < |s| ==> r[k] == LowerChar(s[k])
  {
    seq(|s|, k requires 0 <= k < |s| => LowerChar(s[k]))
  }
}
