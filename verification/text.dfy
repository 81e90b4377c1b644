/** The string normalisations the handlers apply to form and header fields:
    Python's `str.strip()`, `str.lower()` and `str.replace(pattern, "")`. */
module Text {

  /** The characters Python's `str.isspace()` accepts, which `str.strip()` removes. */
  predicate IsSpace(c: char) {
    || c == ' '
    || ('\t' <= c <= '\r')
    || ('\U{1C}' <= c <= '\U{1F}')
    || c == '\U{85}' || c == '\U{A0}' || c == '\U{1680}'
    || ('\U{2000}' <= c <= '\U{200A}')
    || c == '\U{2028}' || c == '\U{2029}' || c == '\U{202F}' || c == '\U{205F}' || c == '\U{3000}'
  }

  /** No whitespace anywhere in `s` (true of every JWT, whose text is base64url and dots). */
  predicate NoSpace(s: string) {
    forall k :: 0 <= k < |s| ==> !IsSpace(s[k])
  }

  /** Leading whitespace removed: a suffix of `s` that starts with a non-space,
      and everything dropped was whitespace. */
  function StripStart(s: string): (r: string)
    ensures |r| <= |s| && r == s[|s| - |r|..]
    ensures forall k :: 0 <= k < |s| - |r| ==> IsSpace(s[k])
    ensures r == [] || !IsSpace(r[0])
  {
    if |s| > 0 && IsSpace(s[0]) then StripStart(s[1..]) else s
  }

  /** Trailing whitespace removed: a prefix of `s` that ends with a non-space,
      and everything dropped was whitespace. */
  function StripEnd(s: string): (r: string)
    ensures |r| <= |s| && r == s[..|r|]
    ensures forall k :: |r| <= k < |s| ==> IsSpace(s[k])
    ensures r == [] || !IsSpace(r[|r| - 1])
  {
    if |s| > 0 && IsSpace(s[|s| - 1]) then StripEnd(s[..|s| - 1]) else s
  }

  /** Python's `s.strip()`: neither end of the result is whitespace (StripTrims
      states that it is the input with its surrounding whitespace cut off). */
  function Strip(s: string): (r: string)
    ensures r == [] || (!IsSpace(r[0]) && !IsSpace(r[|r| - 1]))
    ensures |r| <= |s|
  {
    StripEnd(StripStart(s))
  }

  /** What `strip()` means: the result is a slice of the input and everything
      cut off on either side is whitespace. */
  lemma StripTrims(s: string)
    ensures exists i :: TrimmedAt(s, Strip(s), i)
  {
    StripSlice(s);
    assert TrimmedAt(s, Strip(s), |s| - |StripStart(s)|);
  }

  lemma StripSlice(s: string)
    ensures TrimmedAt(s, StripEnd(StripStart(s)), |s| - |StripStart(s)|)
  {
    var t := StripStart(s);
    TrimmedFrom(s, t, StripEnd(t), |s| - |t|);
  }

  lemma TrimmedFrom(s: string, t: string, r: string, i: int)
    requires 0 <= i <= |s| && t == s[i..] && |r| <= |t| && r == t[..|r|]
    requires forall k :: 0 <= k < i ==> IsSpace(s[k])
    requires forall k :: |r| <= k < |t| ==> IsSpace(t[k])
    ensures TrimmedAt(s, r, i)
  {
    forall k | 0 <= k < |r|
      ensures r[k] == s[i + k]
    {
    }
    StripSliceTail(s, t, r, i);
  }

  lemma StripSliceTail(s: string, t: string, r: string, i: int)
    requires 0 <= i <= |s| && t == s[i..] && |r| <= |t|
    requires forall k :: |r| <= k < |t| ==> IsSpace(t[k])
    ensures forall k :: i + |r| <= k < |s| ==> IsSpace(s[k])
  {
    forall k | i + |r| <= k < |s|
      ensures IsSpace(s[k])
    {
      assert s[k] == t[k - i];
    }
  }

  /** `r` is the slice of `s` starting at `i`, and everything around it is whitespace. */
  predicate TrimmedAt(s: string, r: string, i: int) {
    && 0 <= i && i + |r| <= |s|
    && (forall k :: 0 <= k < |r| ==> r[k] == s[i + k])
    && (forall k :: 0 <= k < i ==> IsSpace(s[k]))
    && (forall k :: i + |r| <= k < |s| ==> IsSpace(s[k]))
  }

  /** Python's `str.lower()` on one character, for the ASCII capitals A–Z and the
      Cyrillic capitals U+0400–U+042F; every other character is left as it is. */
  function LowerChar(c: char): char {
    if 'A' <= c <= 'Z' then (c as int + 32) as char
    else if '\U{410}' <= c <= '\U{42F}' then (c as int + 32) as char
    else if '\U{400}' <= c <= '\U{40F}' then (c as int + 80) as char
    else c
  }

  /** Python's `str.upper()` on one character, written independently of LowerChar:
      the ASCII small letters a–z and the Cyrillic small letters U+0430–U+045F go to
      their capitals; every other character is left as it is. */
  function UpperChar(c: char): char {
    if 'a' <= c <= 'z' then (c as int - 32) as char
    else if '\U{430}' <= c <= '\U{44F}' then (c as int - 32) as char
    else if '\U{450}' <= c <= '\U{45F}' then (c as int - 80) as char
    else c
  }

  predicate IsUpper(c: char) {
    ('A' <= c <= 'Z') || ('\U{400}' <= c <= '\U{42F}')
  }

  /** Python's `s.lower()`. */
  function Lower(s: string): (r: string)
    ensures |r| == |s|
    ensures forall k :: 0 <= k < |r| ==> !IsUpper(r[k])
    ensures forall k :: 0 <= k < |r| ==> (r[k] == s[k] <==> !IsUpper(s[k]))
    ensures forall k :: 0 <= k < |r| ==> UpperChar(r[k]) == UpperChar(s[k])
  {
    seq(|s|, k requires 0 <= k < |s| => LowerChar(s[k]))
  }

  /** `s.strip().lower()`, the normalisation of logins and of requested statuses:
      the result has no whitespace at either end and no capitals, so it is its
      own normalisation (StripLowerIdempotent). */
  function StripLower(s: string): (r: string)
    ensures |r| <= |s|
    ensures r == [] || (!IsSpace(r[0]) && !IsSpace(r[|r| - 1]))
    ensures forall k :: 0 <= k < |r| ==> !IsUpper(r[k])
  {
    LowerKeepsEnds(Strip(s));
    Lower(Strip(s))
  }

  /** Lower-casing a stripped string leaves it stripped. */
  lemma LowerKeepsEnds(t: string)
    requires t == [] || (!IsSpace(t[0]) && !IsSpace(t[|t| - 1]))
    ensures Lower(t) == [] || (!IsSpace(Lower(t)[0]) && !IsSpace(Lower(t)[|t| - 1]))
  {
    if t != [] {
      LowerKeepsSpace(t[0]);
      LowerKeepsSpace(t[|t| - 1]);
    }
  }

  /** `pattern` occurs in `s` at position `k`. */
  predicate OccursAt(s: string, pattern: string, k: int) {
    0 <= k && k + |pattern| <= |s| && s[k..k + |pattern|] == pattern
  }

  /** Python's `s.replace(pattern, "")`: every occurrence found scanning left to
      right, not overlapping the previous one, is deleted. */
  function RemoveAll(s: string, pattern: string): (r: string)
    requires |pattern| > 0
    ensures |r| <= |s|
    ensures (forall k :: !OccursAt(s, pattern, k)) ==> r == s
    decreases |s|
  {
    if |s| < |pattern| then s
    else if s[..|pattern|] == pattern then
      assert OccursAt(s, pattern, 0);
      RemoveAll(s[|pattern|..], pattern)
    else
      assert forall k :: OccursAt(s[1..], pattern, k) ==> OccursAt(s, pattern, k + 1) by {
        forall k | OccursAt(s[1..], pattern, k) ensures OccursAt(s, pattern, k + 1) {
          assert s[1..][k..k + |pattern|] == s[k + 1..k + 1 + |pattern|];
        }
      }
      assert [s[0]] + s[1..] == s;
      [s[0]] + RemoveAll(s[1..], pattern)
  }

  /** Stripping is idempotent: a stripped field strips to itself. */
  lemma StripIdempotent(s: string)
    ensures Strip(Strip(s)) == Strip(s)
  {
    StripFixpoint(Strip(s));
  }

  /** A string without whitespace at either end is its own strip. */
  lemma StripFixpoint(s: string)
    requires s == [] || (!IsSpace(s[0]) && !IsSpace(s[|s| - 1]))
    ensures Strip(s) == s
  {
    assert StripStart(s) == s;
  }

  /** A field is empty after stripping exactly when it is all whitespace. */
  lemma StripEmptyIff(s: string)
    ensures Strip(s) == [] <==> forall k :: 0 <= k < |s| ==> IsSpace(s[k])
  {
    var t := StripStart(s);
    if Strip(s) == [] {
      forall k | 0 <= k < |s| ensures IsSpace(s[k]) {
        if k >= |s| - |t| {
          assert s[k] == t[k - (|s| - |t|)];
        }
      }
    } else {
      var c := Strip(s)[0];
      assert c == t[0] && t[0] == s[|s| - |t|];
    }
  }

  /** A string with no whitespace at all is unchanged by stripping. */
  lemma StripNoSpace(s: string)
    requires NoSpace(s)
    ensures Strip(s) == s
  {
    StripFixpoint(s);
  }

  /** Lower-casing is idempotent. */
  lemma LowerIdempotent(s: string)
    ensures Lower(Lower(s)) == Lower(s)
  {
  }

  /** The two case mappings agree on which characters are the same letter. */
  lemma CaseFold(c: char)
    ensures LowerChar(UpperChar(c)) == LowerChar(c)
    ensures UpperChar(LowerChar(c)) == UpperChar(c)
  {
  }

  /** Lower-casing identifies exactly the texts that differ only in letter case:
      two logins normalise alike iff they agree letter by letter once both are
      upper-cased. */
  lemma {:induction false} LowerCaseInsensitive(a: string, b: string)
    ensures Lower(a) == Lower(b) <==>
      |a| == |b| && forall k :: 0 <= k < |a| ==> UpperChar(a[k]) == UpperChar(b[k])
  {
    if Lower(a) == Lower(b) {
      forall k | 0 <= k < |a| ensures UpperChar(a[k]) == UpperChar(b[k]) {
        assert Lower(a)[k] == Lower(b)[k];
      }
    }
    if |a| == |b| && forall k :: 0 <= k < |a| ==> UpperChar(a[k]) == UpperChar(b[k]) {
      forall k | 0 <= k < |a| ensures Lower(a)[k] == Lower(b)[k] {
        CaseFold(a[k]);
        CaseFold(b[k]);
      }
    }
  }

  /** Lower-casing keeps whitespace where it was, so it commutes with stripping. */
  lemma LowerKeepsSpace(c: char)
    ensures IsSpace(LowerChar(c)) <==> IsSpace(c)
  {
  }

  /** Text without capitals is unchanged by lower-casing. */
  lemma LowerFixpoint(s: string)
    requires forall k :: 0 <= k < |s| ==> !IsUpper(s[k])
    ensures Lower(s) == s
  {
  }

  /** `strip().lower()` is idempotent: a normalised login normalises to itself. */
  lemma StripLowerIdempotent(s: string)
    ensures StripLower(StripLower(s)) == StripLower(s)
  {
    var t := Strip(s);
    var u := Lower(t);
    if u != [] {
      LowerKeepsSpace(t[0]);
      LowerKeepsSpace(t[|t| - 1]);
    }
    StripFixpoint(u);
    LowerIdempotent(t);
  }

  /** Deleting a pattern that contains whitespace leaves whitespace-free text unchanged. */
  lemma {:induction false} RemoveAllNoSpace(s: string, pattern: string, j: nat)
    requires |pattern| > 0 && j < |pattern| && IsSpace(pattern[j])
    requires NoSpace(s)
    ensures RemoveAll(s, pattern) == s
    decreases |s|
  {
    if |s| < |pattern| {
    } else {
      assert s[..|pattern|][j] == s[j];
      assert s[..|pattern|] != pattern;
      RemoveAllNoSpace(s[1..], pattern, j);
      assert [s[0]] + s[1..] == s;
    }
  }

  /** Deleting a pattern from text that starts with it deletes that prefix first. */
  lemma RemoveAllPrefix(pattern: string, s: string)
    requires |pattern| > 0
    ensures RemoveAll(pattern + s, pattern) == RemoveAll(s, pattern)
  {
    assert (pattern + s)[..|pattern|] == pattern;
    assert (pattern + s)[|pattern|..] == s;
  }
}
