/** Character-level behaviour of Python's `str` that both core files rely on,
    restricted to ASCII: the whitespace that `str.split()` and `str.strip()`
    skip, the case mapping of `str.lower()`, and substring search (`p in t`). */
module Chars {

  /** The ASCII characters `str.split()` and `str.strip()` treat as
      whitespace: space, the five controls \t \n \v \f \r, and the four
      separators \x1c to \x1f. */
  const Whitespace: string := " \t\n\U{B}\U{C}\r\U{1C}\U{1D}\U{1E}\U{1F}"

  /** `str.isspace()` on one ASCII character, by code ranges. */
  predicate IsSpace(c: char) {
    c == ' ' || ('\t' <= c <= '\r') || ('\U{1C}' <= c <= '\U{1F}')
  }

  /** The code ranges of IsSpace hold exactly the ten whitespace
      characters. */
  lemma IsSpaceExactly(c: char)
    ensures IsSpace(c) <==> c in Whitespace
  {
  }

  predicate NoSpace(s: string) {
    forall i :: 0 <= i < |s| ==> !IsSpace(s[i])
  }

  predicate AllSpace(s: string) {
    forall i :: 0 <= i < |s| ==> IsSpace(s[i])
  }

  /** `str.lower()` on one ASCII character. */
  function Lower(c: char): char {
    if 'A' <= c <= 'Z' then (c as int + 32) as char else c
  }

  predicate IsUpper(c: char) {
    'A' <= c <= 'Z'
  }

  /** `str.lower()`: every character mapped by Lower, nothing else changed. */
  function LowerStr(s: string): (r: string)
    ensures |r| == |s|
    ensures forall i :: 0 <= i < |s| ==> r[i] == Lower(s[i])
  {
    seq(|s|, i requires 0 <= i < |s| => Lower(s[i]))
  }

  const UpperLetters: string := "ABCDEFGHIJKLMNOPQRSTUVWXYZ"
  const LowerLetters: string := "abcdefghijklmnopqrstuvwxyz"

  /** The k-th letter of each alphabet table has code 'A' + k, resp. 'a' + k. */
  lemma AlphabetCodes(k: int)
    requires 0 <= k < 26
    ensures UpperLetters[k] as int == 'A' as int + k
    ensures LowerLetters[k] as int == 'a' as int + k
  {
    // narrow k down to at most two literal positions per branch
    if k < 8 {
      if k < 4 { if k < 2 {} else {} } else { if k < 6 {} else {} }
    } else if k < 16 {
      if k < 12 { if k < 10 {} else {} } else { if k < 14 {} else {} }
    } else {
      if k < 20 { if k < 18 {} else {} } else if k < 23 { if k < 22 {} else {} } else { if k < 24 {} else {} }
    }
  }

  /** Lower maps the k-th capital of the alphabet to the k-th small letter
      and leaves every other character alone. */
  lemma LowerByAlphabet(c: char)
    ensures c in UpperLetters <==> IsUpper(c)
    ensures c in UpperLetters ==> Lower(c) == LowerLetters[c as int - 'A' as int]
    ensures c !in UpperLetters ==> Lower(c) == c
  {
    if IsUpper(c) {
      var k := c as int - 'A' as int;
      AlphabetCodes(k);
      assert UpperLetters[k] == c;
    } else if c in UpperLetters {
      var k :| 0 <= k < |UpperLetters| && UpperLetters[k] == c;
      AlphabetCodes(k);
    }
  }

  /** `str.lower()` on ASCII, stated against the alphabet: capitals become
      the matching small letters, every other character is kept, and no
      capital is left. */
  lemma LowerStrLetters(s: string)
    ensures forall i :: 0 <= i < |s| && s[i] in UpperLetters
              ==> LowerStr(s)[i] == LowerLetters[s[i] as int - 'A' as int]
    ensures forall i :: 0 <= i < |s| && s[i] !in UpperLetters ==> LowerStr(s)[i] == s[i]
    ensures forall i :: 0 <= i < |s| ==> LowerStr(s)[i] !in UpperLetters
  {
    forall i | 0 <= i < |s|
      ensures s[i] in UpperLetters ==> LowerStr(s)[i] == LowerLetters[s[i] as int - 'A' as int]
      ensures s[i] !in UpperLetters ==> LowerStr(s)[i] == s[i]
      ensures LowerStr(s)[i] !in UpperLetters
    {
      LowerByAlphabet(s[i]);
      LowerByAlphabet(LowerStr(s)[i]);
    }
  }

  lemma LowerStrIdempotent(s: string)
    ensures LowerStr(LowerStr(s)) == LowerStr(s)
  {
  }

  lemma LowerStrAppend(a: string, b: string)
    ensures LowerStr(a + b) == LowerStr(a) + LowerStr(b)
  {
  }

  /** A string without upper-case letters is its own lower-case form. */
  lemma LowerStrOfLower(s: string)
    requires forall i :: 0 <= i < |s| ==> !IsUpper(s[i])
    ensures LowerStr(s) == s
  {
  }

  // ---------------------------------------------------------------------------
  // Substrings
  // ---------------------------------------------------------------------------

  /** p occurs in t starting at position i. */
  predicate OccursAt(p: string, t: string, i: int) {
    0 <= i <= |t| - |p| && t[i..i + |p|] == p
  }

  /** p occurs in t as a contiguous block. */
  ghost predicate IsSubstring(p: string, t: string) {
    exists i :: OccursAt(p, t, i)
  }

  /** Either p starts t, or it occurs in the tail of t. */
  lemma SubstringStep(p: string, t: string)
    requires |p| <= |t|
    ensures IsSubstring(p, t) <==> t[..|p|] == p || (t != [] && IsSubstring(p, t[1..]))
  {
    if IsSubstring(p, t) && t[..|p|] != p {
      var i :| OccursAt(p, t, i);
      assert i != 0;
      assert t[1..][i - 1..i - 1 + |p|] == p;
      assert OccursAt(p, t[1..], i - 1);
    }
    if t[..|p|] == p {
      assert OccursAt(p, t, 0);
    }
    if t != [] && IsSubstring(p, t[1..]) {
      var i :| OccursAt(p, t[1..], i);
      assert t[i + 1..i + 1 + |p|] == p;
      assert OccursAt(p, t, i + 1);
    }
  }

  /** Python's `p in t` on strings, by trying each start position in turn. */
  function Contains(t: string, p: string): (b: bool)
    ensures b <==> IsSubstring(p, t)
    decreases |t|
  {
    if |p| > |t| then false
    else
      SubstringStep(p, t);
      if t[..|p|] == p then true else t != [] && Contains(t[1..], p)
  }

  lemma SubstringTransitive(p: string, q: string, t: string)
    requires IsSubstring(p, q) && IsSubstring(q, t)
    ensures IsSubstring(p, t)
  {
    var i :| OccursAt(p, q, i);
    var j :| OccursAt(q, t, j);
    forall k | 0 <= k < |p| ensures t[j + i..j + i + |p|][k] == p[k] {
      assert p[k] == q[i + k] == t[j + i + k];
    }
    assert OccursAt(p, t, j + i);
  }

  /** Every piece t[i..j] is a substring of t. */
  lemma SliceIsSubstring(t: string, i: nat, j: nat)
    requires i <= j <= |t|
    ensures IsSubstring(t[i..j], t)
  {
    assert OccursAt(t[i..j], t, i);
  }

  /** Lower-casing preserves occurrence. */
  lemma LowerPreservesSubstring(p: string, t: string)
    requires IsSubstring(p, t)
    ensures IsSubstring(LowerStr(p), LowerStr(t))
  {
    var i :| OccursAt(p, t, i);
    assert LowerStr(t)[i..i + |p|] == LowerStr(p);
    assert OccursAt(LowerStr(p), LowerStr(t), i);
  }

  /** Every character an occurrence of p covers is a character of p. */
  lemma OccurrenceCovers(p: string, t: string, i: int)
    requires OccursAt(p, t, i)
    ensures forall k :: i <= k < i + |p| ==> t[k] in p
  {
    forall k | i <= k < i + |p| ensures t[k] in p {
      assert t[k] == t[i..i + |p|][k - i];
    }
  }

  /** A pattern containing no c cannot straddle a boundary that ends in c:
      an occurrence in a + b lies inside a or inside b. */
  lemma NoStraddle(p: string, a: string, b: string, c: char)
    requires c !in p
    requires a != [] && a[|a| - 1] == c
    ensures IsSubstring(p, a + b) <==> IsSubstring(p, a) || IsSubstring(p, b)
  {
    var t := a + b;
    if IsSubstring(p, t) {
      var i :| OccursAt(p, t, i);
      OccurrenceCovers(p, t, i);
      var last := t[|a| - 1];
      assert last == c && c !in p;
      assert !(i < |a| < i + |p|);
      if i + |p| <= |a| {
        assert a[i..i + |p|] == p;
        assert OccursAt(p, a, i);
      } else if i >= |a| {
        assert b[i - |a|..i - |a| + |p|] == p;
        assert OccursAt(p, b, i - |a|);
      }
    }
    if IsSubstring(p, a) {
      var i :| OccursAt(p, a, i);
      assert t[i..i + |p|] == p;
      assert OccursAt(p, t, i);
    }
    if IsSubstring(p, b) {
      var i :| OccursAt(p, b, i);
      assert t[|a| + i..|a| + i + |p|] == b[i..i + |p|];
      assert OccursAt(p, t, |a| + i);
    }
  }

  // ---------------------------------------------------------------------------
  // Leading and trailing whitespace
  // ---------------------------------------------------------------------------

  /** The suffix of s left after its leading whitespace. */
  function TrimStart(s: string): (t: string)
    ensures |t| <= |s| && t == s[|s| - |t|..]
    ensures AllSpace(s[..|s| - |t|])
    ensures t == [] || !IsSpace(t[0])
  {
    if s != [] && IsSpace(s[0]) then TrimStart(s[1..]) else s
  }

  /** The prefix of s left after its trailing whitespace. */
  function TrimEnd(s: string): (t: string)
    ensures |t| <= |s| && t == s[..|t|]
    ensures AllSpace(s[|t|..])
    ensures t == [] || !IsSpace(t[|t| - 1])
  {
    if s != [] && IsSpace(s[|s| - 1]) then
      var init := s[..|s| - 1];
      var t := TrimEnd(init);
      assert init[..|t|] == s[..|t|];
      assert s[|t|..] == init[|t|..] + [s[|s| - 1]];
      t
    else s
  }

  /** `str.strip()`: s without its leading and trailing whitespace. The
      result is empty exactly when s is all whitespace; otherwise it starts
      and ends with a non-whitespace character and sits in s between two
      runs of whitespace. */
  function Strip(s: string): (r: string)
    ensures r == [] <==> AllSpace(s)
    ensures r == [] || (!IsSpace(r[0]) && !IsSpace(r[|r| - 1]))
    ensures Trimmed(r, s)
  {
    var t := TrimStart(s);
    var r := TrimEnd(t);
    StripFacts(s, t, r);
    r
  }

  /** r is s with some whitespace prefix and some whitespace suffix cut off. */
  predicate Trimmed(r: string, s: string) {
    exists i :: 0 <= i <= |s| && OccursAt(r, s, i) && AllSpace(s[..i]) && AllSpace(s[i + |r|..])
  }

  /** Trimming the front of s to t and then the end of t to r leaves r
      between two runs of whitespace of s. */
  lemma StripFacts(s: string, t: string, r: string)
    requires |t| <= |s| && t == s[|s| - |t|..] && AllSpace(s[..|s| - |t|])
    requires t == [] || !IsSpace(t[0])
    requires |r| <= |t| && r == t[..|r|] && AllSpace(t[|r|..])
    requires r == [] || !IsSpace(r[|r| - 1])
    ensures r == [] <==> AllSpace(s)
    ensures r == [] || (!IsSpace(r[0]) && !IsSpace(r[|r| - 1]))
    ensures Trimmed(r, s)
  {
    StripPlace(s, t, r);
    StripEmpty(s, t, r);
    var i := |s| - |t|;
    assert OccursAt(r, s, i) && AllSpace(s[..i]) && AllSpace(s[i + |r|..]);
  }

  /** Where the stripped text sits: after the leading whitespace, before the
      trailing whitespace. */
  lemma StripPlace(s: string, t: string, r: string)
    requires |t| <= |s| && t == s[|s| - |t|..]
    requires |r| <= |t| && r == t[..|r|] && AllSpace(t[|r|..])
    ensures OccursAt(r, s, |s| - |t|)
    ensures AllSpace(s[|s| - |t| + |r|..])
  {
    SliceOfSuffix(s, t, |s| - |t|, |r|);
  }

  /** The stripped text is empty exactly when s is all whitespace, and
      otherwise has non-whitespace at both ends. */
  lemma StripEmpty(s: string, t: string, r: string)
    requires |t| <= |s| && t == s[|s| - |t|..] && AllSpace(s[..|s| - |t|])
    requires t == [] || !IsSpace(t[0])
    requires |r| <= |t| && r == t[..|r|] && AllSpace(t[|r|..])
    requires r == [] || !IsSpace(r[|r| - 1])
    ensures r == [] <==> AllSpace(s)
    ensures r == [] || !IsSpace(r[0])
  {
    if r == [] {
      assert t[0..] == t;
      assert t == [];
      assert s[..|s| - |t|] == s;
    } else {
      assert r[0] == t[0] == s[|s| - |t|];
    }
  }

  /** Cutting a suffix of s at n is cutting s at i + n. */
  lemma SliceOfSuffix(s: string, t: string, i: nat, n: nat)
    requires i <= |s| && t == s[i..] && n <= |t|
    ensures s[i..i + n] == t[..n]
    ensures s[i + n..] == t[n..]
  {
  }
}
