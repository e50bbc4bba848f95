/** The few Python `str` operations the analyser relies on, over the ASCII
    subset: `strip()`, `lower()`, `replace(old, new)` and `endswith(suffix)`. */
module Strings {

  /** Python's `str.isspace()` restricted to ASCII: tab, line feed, vertical
      tab, form feed, carriage return, the four separators 0x1C-0x1F, space. */
  predicate IsSpace(c: char) {
    9 <= c as int <= 13 || 28 <= c as int <= 32
  }

  predicate AllSpace(s: string) {
    forall i :: 0 <= i < |s| ==> IsSpace(s[i])
  }

  /** Neither end of `s` is whitespace. */
  predicate Trimmed(s: string) {
    s == [] || (!IsSpace(s[0]) && !IsSpace(s[|s| - 1]))
  }

  predicate StartsWith(s: string, prefix: string) {
    |prefix| <= |s| && s[..|prefix|] == prefix
  }

  /** Python's `s.endswith(suffix)`. */
  predicate EndsWith(s: string, suffix: string) {
    |suffix| <= |s| && s[|s| - |suffix|..] == suffix
  }

  /** `pat` occurs in `s` starting at index `i`. */
  predicate OccursAt(s: string, pat: string, i: nat) {
    i + |pat| <= |s| && s[i..i + |pat|] == pat
  }

  /** Python's `s.lstrip()`: the longest suffix of `s` not starting with whitespace. */
  function TrimStart(s: string): (r: string)
    ensures |r| <= |s| && r == s[|s| - |r|..]
    ensures AllSpace(s[..|s| - |r|])
    ensures r == [] || !IsSpace(r[0])
  {
    if s != [] && IsSpace(s[0]) then TrimStart(s[1..]) else s
  }

  /** Python's `s.rstrip()`: the longest prefix of `s` not ending with whitespace. */
  function TrimEnd(s: string): (r: string)
    ensures |r| <= |s| && r == s[..|r|]
    ensures AllSpace(s[|r|..])
    ensures r == [] || !IsSpace(r[|r| - 1])
  {
    if s != [] && IsSpace(s[|s| - 1]) then TrimEnd(s[..|s| - 1]) else s
  }

  /** Python's `s.strip()`: `s` without its leading and trailing whitespace. */
  function Strip(s: string): (r: string)
    ensures Trimmed(r) && |r| <= |s|
  {
    TrimEnd(TrimStart(s))
  }

  /** What `strip()` removes is whitespace, from both ends only: the result is
      the text between a whitespace prefix and a whitespace suffix of `s`. */
  lemma StripRemovesPadding(s: string)
    ensures exists lead: nat :: lead + |Strip(s)| <= |s| && s[lead..lead + |Strip(s)|] == Strip(s)
                                && AllSpace(s[..lead]) && AllSpace(s[lead + |Strip(s)|..])
  {
    var t := TrimStart(s);
    var r := TrimEnd(t);
    assert r == Strip(s);
    var lead := |s| - |t|;
    assert AllSpace(s[..lead]);
    assert s[lead..lead + |r|] == r by {
      assert t == s[lead..];
      assert r == t[..|r|];
    }
    assert AllSpace(s[lead + |r|..]) by {
      assert s[lead + |r|..] == t[|r|..];
    }
  }

  /** Stripping undoes exactly whitespace padding around a trimmed text. */
  lemma {:induction false} StripPadded(lead: string, core: string, trail: string)
    requires AllSpace(lead) && AllSpace(trail) && Trimmed(core)
    ensures Strip(lead + core + trail) == core
  {
    if core == [] {
      assert lead + core + trail == (lead + trail) + [];
      TrimStartPadded(lead + trail, []);
    } else {
      assert lead + core + trail == lead + (core + trail);
      TrimStartPadded(lead, core + trail);
      TrimEndPadded(core, trail);
    }
  }

  lemma {:induction false} TrimStartPadded(lead: string, rest: string)
    requires AllSpace(lead) && (rest == [] || !IsSpace(rest[0]))
    ensures TrimStart(lead + rest) == rest
  {
    if lead != [] {
      assert (lead + rest)[1..] == lead[1..] + rest;
      TrimStartPadded(lead[1..], rest);
    }
  }

  lemma {:induction false} TrimEndPadded(core: string, trail: string)
    requires AllSpace(trail) && Trimmed(core)
    ensures TrimEnd(core + trail) == core
  {
    if trail == [] {
      assert core + trail == core;
    } else {
      var t := trail[..|trail| - 1];
      assert (core + trail)[..|core + trail| - 1] == core + t;
      TrimEndPadded(core, t);
    }
  }

  /** `strip()` is idempotent. */
  lemma StripIdempotent(s: string)
    ensures Strip(Strip(s)) == Strip(s)
  {
    var r := Strip(s);
    calc {
      Strip(r);
      { assert [] + r + [] == r; }
      Strip([] + r + []);
      { StripPadded([], r, []); }
      r;
    }
  }

  /** ASCII part of Python's `str.lower()` on one character. */
  function LowerChar(c: char): char {
    if 'A' <= c <= 'Z' then (c as int + 32) as char else c
  }

  /** Python's `s.lower()` over ASCII: every upper-case letter lowered, in place. */
  function Lower(s: string): (r: string)
    ensures |r| == |s|
    ensures forall i :: 0 <= i < |s| ==> r[i] == LowerChar(s[i])
  {
    if s == [] then [] else [LowerChar(s[0])] + Lower(s[1..])
  }

  /** Python's `s.replace(pat, rep)`: scanning left to right, every
      non-overlapping occurrence of `pat` is replaced by `rep`. */
  function ReplaceAll(s: string, pat: string, rep: string): string
    requires pat != []
    decreases |s|
  {
    if |s| < |pat| then s
    else
      var found := s[..|pat|] == pat;
      var skip := if found then |pat| else 1;
      (if found then rep else [s[0]]) + ReplaceAll(s[skip..], pat, rep)
  }

  /** A text without an occurrence of the pattern comes back unchanged. */
  lemma {:induction false} ReplaceAllAbsent(s: string, pat: string, rep: string)
    requires pat != []
    requires forall i: nat :: !OccursAt(s, pat, i)
    ensures ReplaceAll(s, pat, rep) == s
  {
    if |s| >= |pat| {
      assert !OccursAt(s, pat, 0);
      forall i: nat ensures !OccursAt(s[1..], pat, i) {
        assert !OccursAt(s, pat, i + 1);
      }
      ReplaceAllAbsent(s[1..], pat, rep);
    }
  }

  /** The leftmost occurrence is replaced and scanning resumes right after it:
      replacements are left to right and never overlap. */
  lemma {:induction false} ReplaceAllFirst(before: string, pat: string, after: string, rep: string)
    requires pat != []
    requires forall i: nat :: i < |before| ==> !OccursAt(before + pat + after, pat, i)
    ensures ReplaceAll(before + pat + after, pat, rep) == before + rep + ReplaceAll(after, pat, rep)
  {
    var s := before + pat + after;
    if before == [] {
      assert s == pat + after;
      assert s[..|pat|] == pat;
      assert s[|pat|..] == after;
    } else {
      assert !OccursAt(s, pat, 0);
      assert s[1..] == before[1..] + pat + after;
      forall i: nat | i < |before[1..]| ensures !OccursAt(before[1..] + pat + after, pat, i) {
        assert !OccursAt(s, pat, i + 1);
      }
      ReplaceAllFirst(before[1..], pat, after, rep);
      assert [s[0]] + (before[1..] + rep + ReplaceAll(after, pat, rep))
          == before + rep + ReplaceAll(after, pat, rep);
    }
  }

  /** Replacing one character by another keeps the length and rewrites each
      position independently. */
  lemma {:induction false} ReplaceCharAt(s: string, c: char, d: char)
    ensures |ReplaceAll(s, [c], [d])| == |s|
    ensures forall i :: 0 <= i < |s| ==>
              ReplaceAll(s, [c], [d])[i] == if s[i] == c then d else s[i]
  {
    if s != [] {
      ReplaceCharAt(s[1..], c, d);
      assert s[..1] == [s[0]];
    }
  }
}
