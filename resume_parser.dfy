/** The text utilities of `ResumeParser`: `clean_text`, which normalises the
    whitespace of extracted resume text, and `extract_skills`, which looks the
    text up against a fixed catalog of skill labels. */
module ResumeParser {
  import opened Chars

  // ===========================================================================
  // clean_text: " ".join(text.split())
  // ===========================================================================

  /** The leading run of non-whitespace characters of s. */
  function Word(s: string): (w: string)
    ensures |w| <= |s| && w == s[..|w|]
    ensures NoSpace(w)
    ensures |w| == |s| || IsSpace(s[|w|])
  {
    if s == [] || IsSpace(s[0]) then [] else [s[0]] + Word(s[1..])
  }

  /** `str.split()` with no separator: the maximal runs of non-whitespace,
      left to right; leading, trailing and repeated whitespace yield no
      empty words. */
  function Split(s: string): (words: seq<string>)
    ensures forall k :: 0 <= k < |words| ==> words[k] != [] && NoSpace(words[k])
    decreases |s|
  {
    var t := TrimStart(s);
    if t == [] then []
    else
      var w := Word(t);
      WordNonEmpty(t);
      var rest := Split(t[|w|..]);
      ConsWords(w, rest);
      [w] + rest
  }

  /** A string that starts with non-whitespace has a non-empty first word. */
  lemma WordNonEmpty(t: string)
    requires t != [] && !IsSpace(t[0])
    ensures Word(t) != []
  {
  }

  /** Prepending a non-empty word without whitespace keeps a list of such
      words. */
  lemma ConsWords(w: string, rest: seq<string>)
    requires w != [] && NoSpace(w)
    requires forall k :: 0 <= k < |rest| ==> rest[k] != [] && NoSpace(rest[k])
    ensures forall k :: 0 <= k < |[w] + rest| ==> ([w] + rest)[k] != [] && NoSpace(([w] + rest)[k])
  {
    forall k | 0 <= k < |[w] + rest|
      ensures ([w] + rest)[k] != [] && NoSpace(([w] + rest)[k])
    {
      if k > 0 {
        assert ([w] + rest)[k] == rest[k - 1];
      }
    }
  }

  /** Every entry is a non-empty run of non-whitespace characters. */
  predicate IsWordList(words: seq<string>) {
    forall k :: 0 <= k < |words| ==> words[k] != [] && NoSpace(words[k])
  }

  /** `" ".join(words)`. Joining non-empty words without whitespace gives
      normalised text, which is non-empty when there is a word. */
  function Join(words: seq<string>): (r: string)
    ensures IsWordList(words)
            ==> Normalized(r) && (words != [] ==> r != [])
  {
    if words == [] then ""
    else if |words| == 1 then words[0]
    else
      var rest := Join(words[1..]);
      assert forall k :: 1 <= k < |words| ==> words[1..][k - 1] == words[k];
      JoinStep(words[0], rest);
      words[0] + " " + rest
  }

  /** A word, one space and a non-empty normalised text make a normalised
      text. */
  lemma JoinStep(w: string, rest: string)
    ensures w != [] && NoSpace(w) && Normalized(rest) && rest != []
            ==> Normalized(w + " " + rest)
  {
    if w != [] && NoSpace(w) && Normalized(rest) && rest != [] {
      var r := w + " " + rest;
      forall i | 0 <= i < |r| && IsSpace(r[i]) ensures r[i] == ' ' {
        if i > |w| {
          assert r[i] == rest[i - |w| - 1];
        }
      }
      forall i | 0 <= i < |r| - 1 ensures !SpacePairAt(r, i) {
        if i > |w| {
          assert r[i] == rest[i - |w| - 1] && r[i + 1] == rest[i - |w|];
          assert !SpacePairAt(rest, i - |w| - 1);
        } else if i == |w| {
          assert r[i + 1] == rest[0];
        } else {
          assert r[i] == w[i];
        }
      }
    }
  }

  /** The text with its whitespace normalised: at most one space between
      non-whitespace characters, none at either end, and no other
      whitespace character. */
  predicate Normalized(r: string) {
    && (r != [] ==> !IsSpace(r[0]) && !IsSpace(r[|r| - 1]))
    && (forall i :: 0 <= i < |r| && IsSpace(r[i]) ==> r[i] == ' ')
    && (forall i :: 0 <= i < |r| - 1 ==> !SpacePairAt(r, i))
  }

  /** Positions i and i + 1 of r are both whitespace. */
  predicate SpacePairAt(r: string, i: nat)
    requires i < |r| - 1
  {
    IsSpace(r[i]) && IsSpace(r[i + 1])
  }

  /** The non-whitespace characters of s, in order. */
  function RemoveSpaces(s: string): string {
    if s == [] then []
    else if IsSpace(s[0]) then RemoveSpaces(s[1..])
    else [s[0]] + RemoveSpaces(s[1..])
  }

  /** The words concatenated without separators. */
  function Concat(words: seq<string>): string {
    if words == [] then [] else words[0] + Concat(words[1..])
  }

  /** `clean_text`: the output is normalised, has the same words as the
      input, and so has exactly the input's non-whitespace characters, in the
      same order. */
  function CleanText(text: string): (r: string)
    ensures Normalized(r)
    ensures Split(r) == Split(text)
    ensures RemoveSpaces(r) == RemoveSpaces(text)
  {
    SplitJoin(Split(text));
    JoinKeepsWords(Split(text));
    SplitKeepsNonSpace(text);
    Join(Split(text))
  }

  lemma {:induction false} RemoveSpacesAppend(a: string, b: string)
    ensures RemoveSpaces(a + b) == RemoveSpaces(a) + RemoveSpaces(b)
    decreases |a|
  {
    if a == [] {
      assert a + b == b;
    } else {
      assert (a + b)[1..] == a[1..] + b;
      RemoveSpacesAppend(a[1..], b);
    }
  }

  lemma {:induction false} RemoveSpacesOfWord(w: string)
    requires NoSpace(w)
    ensures RemoveSpaces(w) == w
    decreases |w|
  {
    if w != [] {
      RemoveSpacesOfWord(w[1..]);
    }
  }

  /** Only whitespace strings lose everything. */
  lemma {:induction false} RemoveSpacesEmpty(s: string)
    ensures RemoveSpaces(s) == [] <==> AllSpace(s)
    decreases |s|
  {
    if s != [] {
      RemoveSpacesEmpty(s[1..]);
      if AllSpace(s[1..]) && IsSpace(s[0]) {
        assert forall i :: 1 <= i < |s| ==> s[i] == s[1..][i - 1];
      }
    }
  }

  lemma {:induction false} JoinKeepsWords(words: seq<string>)
    requires forall k :: 0 <= k < |words| ==> NoSpace(words[k])
    ensures RemoveSpaces(Join(words)) == Concat(words)
  {
    if words != [] {
      var w := words[0];
      RemoveSpacesOfWord(w);
      if |words| == 1 {
        assert Concat(words) == w + Concat([]);
      } else {
        var rest := Join(words[1..]);
        JoinKeepsWords(words[1..]);
        RemoveSpacesAppend(w + " ", rest);
        RemoveSpacesAppend(w, " ");
        assert RemoveSpaces(" ") == [] by {
          assert " "[1..] == [];
        }
        calc {
          RemoveSpaces(Join(words));
          RemoveSpaces(w + " " + rest);
          RemoveSpaces(w + " ") + RemoveSpaces(rest);
          RemoveSpaces(w) + RemoveSpaces(" ") + Concat(words[1..]);
          w + Concat(words[1..]);
        }
      }
    }
  }

  /** Leading whitespace carries no non-whitespace character. */
  lemma {:induction false} RemoveSpacesTrimStart(s: string)
    ensures RemoveSpaces(TrimStart(s)) == RemoveSpaces(s)
    decreases |s|
  {
    if s != [] && IsSpace(s[0]) {
      RemoveSpacesTrimStart(s[1..]);
    }
  }

  lemma ConcatCons(w: string, words: seq<string>)
    ensures Concat([w] + words) == w + Concat(words)
  {
    assert ([w] + words)[1..] == words;
  }

  lemma {:induction false} SplitKeepsNonSpace(s: string)
    ensures Concat(Split(s)) == RemoveSpaces(s)
    decreases |s|
  {
    var t := TrimStart(s);
    RemoveSpacesTrimStart(s);
    SplitUnfold(s);
    if t != [] {
      var w := Word(t);
      var rest := t[|w|..];
      SplitKeepsNonSpace(rest);
      CutAt(t, |w|);
      KeepsNonSpaceStep(t, w, rest, Split(rest));
    }
  }

  /** One step of Split: skip the leading whitespace, take the first word,
      split what follows it. */
  lemma SplitUnfold(s: string)
    ensures TrimStart(s) == [] ==> Split(s) == []
    ensures TrimStart(s) != [] ==>
      Split(s) == [Word(TrimStart(s))] + Split(TrimStart(s)[|Word(TrimStart(s))|..])
  {
  }

  lemma CutAt(t: string, n: nat)
    requires n <= |t|
    ensures t == t[..n] + t[n..]
  {
  }

  /** One word more: if the words of the rest keep its non-whitespace
      characters, the word in front of them keeps those of the whole. */
  lemma KeepsNonSpaceStep(t: string, w: string, rest: string, words: seq<string>)
    requires t == w + rest && NoSpace(w)
    requires Concat(words) == RemoveSpaces(rest)
    ensures Concat([w] + words) == RemoveSpaces(t)
  {
    ConcatCons(w, words);
    RemoveSpacesAppend(w, rest);
    RemoveSpacesOfWord(w);
  }

  /** Split skips leading whitespace, so a text that starts with one space
      splits like the text after it. */
  lemma SplitAfterSpace(r: string)
    requires r != [] && !IsSpace(r[0])
    ensures Split([' '] + r) == Split(r)
  {
    assert ([' '] + r)[1..] == r;
  }

  /** A text that starts with a non-whitespace character splits into its
      first word followed by the words of what comes after it. */
  lemma SplitFirstWord(r: string)
    requires r != [] && !IsSpace(r[0])
    ensures Split(r) == [Word(r)] + Split(r[|Word(r)|..])
  {
    assert TrimStart(r) == r;
  }

  lemma JoinCons(w: string, words: seq<string>)
    requires words != []
    ensures Join([w] + words) == w + " " + Join(words)
  {
    assert ([w] + words)[1..] == words;
  }

  /** In a normalised text, the first word is either everything or is
      followed by one space and a normalised, non-empty remainder. */
  lemma NormalizedTail(r: string)
    requires Normalized(r) && r != [] && |Word(r)| < |r|
    ensures r[|Word(r)|] == ' '
    ensures |Word(r)| + 1 < |r|
    ensures r[|Word(r)|..] == [' '] + r[|Word(r)| + 1..]
    ensures !IsSpace(r[|Word(r)| + 1])
    ensures Normalized(r[|Word(r)| + 1..])
  {
    var w := Word(r);
    var rest := r[|w| + 1..];
    assert !SpacePairAt(r, |w|);
    forall i | 0 <= i < |rest| - 1 ensures !SpacePairAt(rest, i) {
      assert !SpacePairAt(r, |w| + 1 + i);
    }
  }

  lemma SplitNormalizedStep(r: string)
    requires Normalized(r) && r != [] && |Word(r)| < |r|
    ensures Split(r) == [Word(r)] + Split(r[|Word(r)| + 1..])
    ensures Split(r[|Word(r)| + 1..]) != []
  {
    NormalizedTail(r);
    var rest := r[|Word(r)| + 1..];
    SplitFirstWord(r);
    SplitAfterSpace(rest);
    SplitFirstWord(rest);
  }

  lemma SplitAround(r: string, k: nat)
    requires k < |r|
    ensures r == r[..k] + [r[k]] + r[k + 1..]
  {
  }

  /** A normalised text is left unchanged by CleanText. */
  lemma {:induction false} NormalizedIsFixed(r: string)
    requires Normalized(r)
    ensures Join(Split(r)) == r
    decreases |r|, 1
  {
    if r == [] {
      JoinSplitEmpty();
    } else if |Word(r)| == |r| {
      SingleWordFixed(r);
    } else {
      NormalizedManyWords(r);
    }
  }

  /** The inductive step: a normalised text of several words. */
  lemma {:induction false} NormalizedManyWords(r: string)
    requires Normalized(r) && r != [] && |Word(r)| < |r|
    ensures Join(Split(r)) == r
    decreases |r|, 0
  {
    NormalizedAfterWord(r);
    NormalizedIsFixed(r[|Word(r)| + 1..]);
    JoinSplitStep(r);
  }

  lemma JoinSplitEmpty()
    ensures Join(Split([])) == []
  {
    assert Split([]) == [];
  }

  /** What follows the first word and its space is normalised too. */
  lemma NormalizedAfterWord(r: string)
    requires Normalized(r) && r != [] && |Word(r)| < |r|
    ensures |Word(r)| + 1 < |r| && Normalized(r[|Word(r)| + 1..])
  {
    NormalizedTail(r);
  }

  /** A non-empty text without whitespace is one word. */
  lemma SingleWordFixed(r: string)
    requires r != [] && !IsSpace(r[0]) && |Word(r)| == |r|
    ensures Join(Split(r)) == r
  {
    var w := Word(r);
    SplitFirstWord(r);
    assert r[|w|..] == [] && w == r;
    assert Split([]) == [];
  }

  /** The first word, one space, and the rest put back together. */
  lemma JoinSplitStep(r: string)
    requires Normalized(r) && r != [] && |Word(r)| < |r|
    requires Join(Split(r[|Word(r)| + 1..])) == r[|Word(r)| + 1..]
    ensures Join(Split(r)) == r
  {
    var w := Word(r);
    var rest := r[|w| + 1..];
    NormalizedTail(r);
    SplitNormalizedStep(r);
    JoinCons(w, Split(rest));
    calc {
      Join(Split(r));
      Join([w] + Split(rest));
      w + " " + Join(Split(rest));
      w + " " + rest;
      { SplitAround(r, |w|); }
      r;
    }
  }

  /** Leading whitespace does not change the words. */
  lemma SplitSpaceHead(s: string)
    requires s != [] && IsSpace(s[0])
    ensures Split(s) == Split(s[1..])
  {
    assert TrimStart(s) == TrimStart(s[1..]);
  }

  /** A word followed by whitespace or by nothing is the first word. */
  lemma {:induction false} WordOfWord(w: string, x: string)
    requires NoSpace(w)
    requires x == [] || IsSpace(x[0])
    ensures Word(w + x) == w
    decreases |w|
  {
    if w == [] {
      assert w + x == x;
    } else {
      assert (w + x)[1..] == w[1..] + x;
      WordOfWord(w[1..], x);
    }
  }

  /** A non-empty text without whitespace is a single word. */
  lemma SplitOneWord(w: string)
    requires w != [] && NoSpace(w)
    ensures Split(w) == [w]
  {
    WordOfWord(w, []);
    assert w + [] == w;
    SplitFirstWord(w);
    assert w[|w|..] == [];
    assert Split([]) == [];
  }

  /** A word followed by a space is the first word, whatever follows. */
  lemma SplitWordSpace(w: string, rest: string)
    requires w != [] && NoSpace(w)
    ensures Split(w + " " + rest) == [w] + Split(rest)
  {
    var r := w + " " + rest;
    var tail := [' '] + rest;
    assert r == w + tail;
    WordOfWord(w, tail);
    SplitFirstWord(r);
    assert r[|w|..] == tail;
    SplitSpaceHead(tail);
    assert tail[1..] == rest;
  }

  /** `str.split()` undoes `" ".join` on non-empty words without
      whitespace. */
  lemma {:induction false} SplitJoin(words: seq<string>)
    requires IsWordList(words)
    ensures Split(Join(words)) == words
  {
    if words == [] {
      assert Split([]) == [];
    } else if |words| == 1 {
      SplitOneWord(words[0]);
    } else {
      SplitJoin(words[1..]);
      SplitWordSpace(words[0], Join(words[1..]));
      HeadTail(words);
    }
  }

  lemma HeadTail(words: seq<string>)
    requires words != []
    ensures [words[0]] + words[1..] == words
  {
  }

  /** CleanText is the only normalised text with the input's words. */
  lemma CleanTextUnique(text: string, r: string)
    requires Normalized(r) && Split(r) == Split(text)
    ensures r == CleanText(text)
  {
    NormalizedIsFixed(r);
  }

  // ---------------------------------------------------------------------------
  // A character-by-character reading of clean_text
  // ---------------------------------------------------------------------------

  /** Copy non-whitespace characters, drop whitespace, and put one space
      before a non-whitespace character that follows whitespace, unless
      nothing has been written yet. `started`: something was written; `gap`:
      whitespace was seen since then. */
  function Squeeze(s: string, started: bool, gap: bool): string
    decreases |s|
  {
    if s == [] then []
    else if IsSpace(s[0]) then Squeeze(s[1..], started, started)
    else (if gap then " " else "") + [s[0]] + Squeeze(s[1..], true, false)
  }

  /** Every whitespace run between two words becomes one space; leading and
      trailing whitespace goes. */
  function Collapse(s: string): string {
    Squeeze(s, false, false)
  }

  /** Prepending a character to the first word prepends it to the joined
      text. */
  lemma JoinPrependChar(c: char, w: string, rest: seq<string>)
    ensures Join([[c] + w] + rest) == [c] + Join([w] + rest)
  {
    if rest == [] {
      assert [[c] + w] + rest == [[c] + w];
      assert [w] + rest == [w];
    } else {
      JoinCons([c] + w, rest);
      JoinCons(w, rest);
    }
  }

  /** Joining a first word in front of other words. */
  lemma JoinFront(w: string, words: seq<string>)
    ensures Join([w] + words) == w + (if words == [] then "" else " ") + Join(words)
  {
    if words == [] {
      assert [w] + words == [w];
    } else {
      JoinCons(w, words);
    }
  }

  /** A non-whitespace character followed by whitespace or by nothing is a
      word of its own. */
  lemma SplitSingleChar(s: string)
    requires s != [] && !IsSpace(s[0]) && (|s| == 1 || IsSpace(s[1]))
    ensures Split(s) == [[s[0]]] + Split(s[1..])
  {
    WordSingleChar(s);
    SplitFirstWord(s);
  }

  lemma WordSingleChar(s: string)
    requires s != [] && !IsSpace(s[0]) && (|s| == 1 || IsSpace(s[1]))
    ensures Word(s) == [s[0]]
  {
    assert Word(s[1..]) == [];
  }

  /** Two adjacent non-whitespace characters lie in the same word: the first
      word of s is s[0] followed by the first word of s[1..]. */
  lemma SplitLongerWord(s: string)
    requires |s| > 1 && !IsSpace(s[0]) && !IsSpace(s[1])
    ensures Split(s[1..]) != []
    ensures Split(s) == [[s[0]] + Split(s[1..])[0]] + Split(s[1..])[1..]
  {
    var t := s[1..];
    assert Word(s) == [s[0]] + Word(t);
    SplitFirstWord(s);
    SplitFirstWord(t);
    assert s[|Word(s)|..] == t[|Word(t)|..];
  }

  /** The joined words of a text that starts with a non-whitespace character:
      that character, one space if it ends a word that has another after it,
      then the joined words of the rest. */
  lemma SqueezeWordStep(s: string)
    requires s != [] && !IsSpace(s[0])
    ensures Join(Split(s))
         == [s[0]] + (if |s| > 1 && IsSpace(s[1]) && Split(s[1..]) != [] then " " else "")
            + Join(Split(s[1..]))
  {
    var words := Split(s[1..]);
    if |s| == 1 || IsSpace(s[1]) {
      SplitSingleChar(s);
      JoinFront([s[0]], words);
      if |s| == 1 {
        assert s[1..] == [];
        assert words == [];
      }
    } else {
      SplitLongerWord(s);
      assert Split(s) == [[s[0]] + words[0]] + words[1..];
      JoinPrependChar(s[0], words[0], words[1..]);
      assert Join(Split(s)) == [s[0]] + Join([words[0]] + words[1..]);
      HeadTail(words);
      assert Join(Split(s)) == [s[0]] + Join(words);
      assert [s[0]] + "" == [s[0]];
    }
  }

  /** Squeeze writes the joined words of what is left, after one space when
      it is in a gap (or about to enter one) after earlier output. */
  lemma {:induction false} SqueezeJoin(s: string, started: bool, gap: bool)
    requires gap ==> started
    ensures Squeeze(s, started, gap)
         == (if started && s != [] && Split(s) != [] && (gap || IsSpace(s[0])) then " " else "")
            + Join(Split(s))
    decreases |s|
  {
    if s == [] {
      assert Split([]) == [];
    } else if IsSpace(s[0]) {
      SplitSpaceHead(s);
      SqueezeJoin(s[1..], started, started);
      if s[1..] == [] {
        assert Split(s[1..]) == [];
      }
    } else {
      var rest := s[1..];
      var lead := if gap then " " else "";
      var sep := if |s| > 1 && IsSpace(s[1]) && Split(rest) != [] then " " else "";
      var joined := Join(Split(rest));
      SqueezeJoin(rest, true, false);
      assert Squeeze(s, started, gap) == lead + [s[0]] + (sep + joined);
      SqueezeWordStep(s);
      assert Join(Split(s)) == [s[0]] + sep + joined;
      SplitFirstWord(s);
      Regroup(lead, [s[0]], sep, joined);
    }
  }

  lemma Regroup(a: string, b: string, c: string, d: string)
    ensures a + b + (c + d) == a + (b + c + d)
  {
  }

  /** `" ".join(text.split())` is the character-by-character collapse of the
      whitespace. */
  lemma CleanTextIsCollapse(text: string)
    ensures CleanText(text) == Collapse(text)
  {
    SqueezeJoin(text, false, false);
  }

  /** The words of a text are exactly the list of non-empty words without
      whitespace whose join is the collapsed text. */
  lemma SplitUnique(s: string, words: seq<string>)
    ensures words == Split(s) <==> IsWordList(words) && Join(words) == Collapse(s)
  {
    SplitIsWordList(s);
    if IsWordList(words) && Join(words) == Collapse(s) {
      SplitJoin(words);
      SplitJoin(Split(s));
    }
  }

  /** The words of a text are well formed and join to the collapsed text. */
  lemma SplitIsWordList(s: string)
    ensures IsWordList(Split(s)) && Join(Split(s)) == Collapse(s)
  {
    CleanTextIsCollapse(s);
  }

  /** The normalised strings are exactly the fixed points of CleanText. */
  lemma CleanTextFixedPoints(r: string)
    ensures CleanText(r) == r <==> Normalized(r)
  {
    if Normalized(r) {
      NormalizedIsFixed(r);
    }
  }

  /** clean_text is idempotent. */
  lemma CleanTextIdempotent(text: string)
    ensures CleanText(CleanText(text)) == CleanText(text)
  {
    CleanTextFixedPoints(CleanText(text));
  }

  /** clean_text gives "" exactly for empty or all-whitespace input. */
  lemma CleanTextEmpty(text: string)
    ensures CleanText(text) == "" <==> AllSpace(text)
  {
    RemoveSpacesEmpty(text);
    RemoveSpacesEmpty(CleanText(text));
    if AllSpace(text) {
      assert TrimStart(text) == [];
    }
  }

  // ===========================================================================
  // extract_skills
  // ===========================================================================

  /** The fixed, ordered list of skill labels `extract_skills` looks for. */
  const Catalog: seq<string> := [
    "Python", "Java", "C#", "JavaScript", "HTML", "CSS", "SQL",
    "Business Analysis", "Communication", "Teamwork", "Customer Service",
    "MS Office", "Database", "Project Management"
  ]

  /** `skill.lower() in text.lower()`: the test applied to each label. */
  predicate Mentions(text: string, skill: string) {
    Contains(LowerStr(text), LowerStr(skill))
  }

  /** The labels, in their own order, that the text mentions: what the loop
      over the catalog appends to `found_skills`. */
  function SkillsIn(labels: seq<string>, text: string): seq<string> {
    if labels == [] then []
    else
      var last := labels[|labels| - 1];
      var found := SkillsIn(labels[..|labels| - 1], text);
      if Mentions(text, last) then found + [last] else found
  }

  /** `extract_skills`: every catalog label whose lower-cased form occurs in
      the lower-cased text, in catalog order. */
  method ExtractSkills(text: string) returns (found: seq<string>)
    ensures found == SkillsIn(Catalog, text)
    ensures forall skill :: skill in found <==>
      skill in Catalog && IsSubstring(LowerStr(skill), LowerStr(text))
  {
    found := [];
    for i := 0 to |Catalog|
      invariant found == SkillsIn(Catalog[..i], text)
    {
      var skill := Catalog[i];
      assert Catalog[..i + 1][..i] == Catalog[..i];
      if Contains(LowerStr(text), LowerStr(skill)) {
        found := found + [skill];
      }
    }
    assert Catalog[..|Catalog|] == Catalog;
    forall skill ensures skill in found <==> skill in Catalog && IsSubstring(LowerStr(skill), LowerStr(text)) {
      SkillsInMembership(Catalog, text, skill);
    }
  }

  /** A label is reported exactly when it is one of the labels and the text
      mentions it. */
  lemma {:induction false} SkillsInMembership(labels: seq<string>, text: string, skill: string)
    ensures skill in SkillsIn(labels, text) <==> skill in labels && Mentions(text, skill)
  {
    if labels != [] {
      var init := labels[..|labels| - 1];
      SkillsInMembership(init, text, skill);
      assert labels == init + [labels[|labels| - 1]];
    }
  }

  /** a is b with some elements left out, the rest kept in order. */
  ghost predicate IsSubsequence(a: seq<string>, b: seq<string>)
    decreases |b|
  {
    if a == [] then true
    else if b == [] then false
    else
      || (a[|a| - 1] == b[|b| - 1] && IsSubsequence(a[..|a| - 1], b[..|b| - 1]))
      || IsSubsequence(a, b[..|b| - 1])
  }

  predicate Distinct(s: seq<string>) {
    forall i, j :: 0 <= i < j < |s| ==> s[i] != s[j]
  }

  /** The result keeps the labels' order. */
  lemma {:induction false} SkillsInSubsequence(labels: seq<string>, text: string)
    ensures IsSubsequence(SkillsIn(labels, text), labels)
  {
    if labels != [] {
      var init := labels[..|labels| - 1];
      SkillsInSubsequence(init, text);
      var found := SkillsIn(init, text);
      if Mentions(text, labels[|labels| - 1]) {
        assert (found + [labels[|labels| - 1]])[..|found|] == found;
      } else if found != [] {
        assert IsSubsequence(found, labels);
      }
    }
  }

  /** Distinct labels give a result without duplicates. */
  lemma {:induction false} SkillsInDistinct(labels: seq<string>, text: string)
    requires Distinct(labels)
    ensures Distinct(SkillsIn(labels, text))
  {
    if labels != [] {
      var init := labels[..|labels| - 1];
      var last := labels[|labels| - 1];
      assert Distinct(init);
      SkillsInDistinct(init, text);
      SkillsInMembership(init, text, last);
      assert last !in init;
    }
  }

  lemma CatalogDistinct()
    ensures Distinct(Catalog)
  {
  }

  /** What `extract_skills` promises about its output as a list: a
      duplicate-free selection from the catalog, in catalog order. */
  lemma ExtractSkillsOrder(text: string)
    ensures IsSubsequence(SkillsIn(Catalog, text), Catalog)
    ensures Distinct(SkillsIn(Catalog, text))
  {
    SkillsInSubsequence(Catalog, text);
    CatalogDistinct();
    SkillsInDistinct(Catalog, text);
  }

  /** Matching ignores case: lower-casing the text first changes nothing. */
  lemma {:induction false} SkillsInCaseInsensitive(labels: seq<string>, text: string)
    ensures SkillsIn(labels, LowerStr(text)) == SkillsIn(labels, text)
  {
    LowerStrIdempotent(text);
    if labels != [] {
      SkillsInCaseInsensitive(labels[..|labels| - 1], text);
    }
  }

  /** Adding text around the input never loses a skill. */
  lemma SkillsInMonotone(labels: seq<string>, text: string, larger: string)
    requires IsSubstring(text, larger)
    ensures forall skill :: skill in SkillsIn(labels, text) ==> skill in SkillsIn(labels, larger)
  {
    LowerPreservesSubstring(text, larger);
    forall skill | skill in SkillsIn(labels, text)
      ensures skill in SkillsIn(labels, larger)
    {
      SkillsInMembership(labels, text, skill);
      SkillsInMembership(labels, larger, skill);
      SubstringTransitive(LowerStr(skill), LowerStr(text), LowerStr(larger));
    }
  }

  /** There is no word-boundary test: "Java" is found inside "JavaScript". */
  lemma JavaInsideJavaScript(text: string)
    ensures "JavaScript" in SkillsIn(Catalog, text) ==> "Java" in SkillsIn(Catalog, text)
  {
    SkillsInMembership(Catalog, text, "JavaScript");
    SkillsInMembership(Catalog, text, "Java");
    if "JavaScript" in SkillsIn(Catalog, text) {
      assert LowerStr("JavaScript")[0..4] == LowerStr("Java");
      SliceIsSubstring(LowerStr("JavaScript"), 0, 4);
      SubstringTransitive(LowerStr("Java"), LowerStr("JavaScript"), LowerStr(text));
    }
  }
}
