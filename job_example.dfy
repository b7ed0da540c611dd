/** The sample job description that frontend/app.py sends to the scorer, and
    the skills that `extract_skills` finds in it. */
module JobExample {
  import opened Chars
  import opened ResumeParser

  /** The job description, cut after each space so that no search pattern
      without a space can straddle two pieces. */
  const Pieces: seq<string> := [
    "\n    ", "We ", "are ", "looking ", "for ", "a ", "Business ", "Analyst ",
    "with ", "strong ", "skills ", "in ", "SQL, ", "Python,\n    ",
    "communication, ", "teamwork, ", "and ", "project ", "management.\n    "
  ]

  /** The same pieces after `str.lower()`. */
  const LowerPieces: seq<string> := [
    "\n    ", "we ", "are ", "looking ", "for ", "a ", "business ", "analyst ",
    "with ", "strong ", "skills ", "in ", "sql, ", "python,\n    ",
    "communication, ", "teamwork, ", "and ", "project ", "management.\n    "
  ]

  const JobDescription: string := Concat(Pieces)

  predicate EndsInSpace(ps: seq<string>) {
    forall k :: 0 <= k < |ps| ==> ps[k] != [] && ps[k][|ps[k]| - 1] == ' '
  }

  lemma {:induction false} ConcatLower(ps: seq<string>, lower: seq<string>)
    requires |lower| == |ps|
    requires forall k :: 0 <= k < |ps| ==> lower[k] == LowerStr(ps[k])
    ensures LowerStr(Concat(ps)) == Concat(lower)
  {
    if ps != [] {
      ConcatLower(ps[1..], lower[1..]);
      LowerStrAppend(ps[0], Concat(ps[1..]));
    }
  }

  /** Pieces 0 to 9 of the lower-cased sample are the lower-cased pieces. */
  lemma LowerPiecesFront()
    ensures forall k :: 0 <= k < 10 ==> LowerPieces[k] == LowerStr(Pieces[k])
  {
    forall k | 0 <= k < 10 ensures LowerPieces[k] == LowerStr(Pieces[k]) {
      // cut k down to at most two pieces per branch, so that the literal
      // pieces are looked at one or two at a time
      if k < 4 { if k < 2 {} else {} } else if k < 7 { if k < 5 {} else {} } else { if k < 8 {} else {} }
    }
  }

  /** Pieces 10 to 18 of the lower-cased sample are the lower-cased pieces. */
  lemma LowerPiecesBack()
    ensures forall k :: 10 <= k < 19 ==> LowerPieces[k] == LowerStr(Pieces[k])
  {
    forall k | 10 <= k < 19 ensures LowerPieces[k] == LowerStr(Pieces[k]) {
      // cut k down to at most two pieces per branch, so that the literal
      // pieces are looked at one or two at a time
      if k < 14 { if k < 12 {} else {} } else if k < 16 { if k < 15 {} else {} } else { if k < 17 {} else {} }
    }
  }

  lemma LowerJobDescription()
    ensures LowerStr(JobDescription) == Concat(LowerPieces)
  {
    LowerPiecesFront();
    LowerPiecesBack();
    ConcatLower(Pieces, LowerPieces);
  }

  /** Every character of an occurrence of p is a character of t. */
  lemma CharOfOccurrence(p: string, t: string, i: int, j: nat)
    requires OccursAt(p, t, i) && j < |p|
    ensures p[j] in t
  {
    assert t[i + j] == t[i..i + |p|][j];
  }

  /** Some character of p is missing from t, so p does not occur in t. */
  lemma MissingChar(p: string, t: string, j: nat)
    requires j < |p| && p[j] !in t
    ensures !IsSubstring(p, t)
  {
    if IsSubstring(p, t) {
      var i :| OccursAt(p, t, i);
      CharOfOccurrence(p, t, i, j);
    }
  }

  /** A pattern without spaces that misses a character of every piece does
      not occur in their concatenation. */
  lemma {:induction false} AbsentFromConcat(p: string, ps: seq<string>, js: seq<nat>)
    requires ' ' !in p && EndsInSpace(ps) && ps != []
    requires |js| == |ps|
    requires forall k :: 0 <= k < |ps| ==> js[k] < |p| && p[js[k]] !in ps[k]
    ensures !IsSubstring(p, Concat(ps))
  {
    MissingChar(p, ps[0], js[0]);
    if |ps| == 1 {
      assert Concat(ps) == ps[0] + [];
    } else {
      AbsentFromConcat(p, ps[1..], js[1..]);
      NoStraddle(p, ps[0], Concat(ps[1..]), ' ');
    }
  }

  /** Two neighbouring pieces occur together in the concatenation. */
  lemma {:induction false} AdjacentInConcat(ps: seq<string>, k: nat)
    requires k + 1 < |ps|
    ensures IsSubstring(ps[k] + ps[k + 1], Concat(ps))
  {
    var t := Concat(ps);
    if k == 0 {
      assert Concat(ps[1..]) == ps[1] + Concat(ps[2..]);
      assert t == (ps[0] + ps[1]) + Concat(ps[2..]);
      SliceIsSubstring(t, 0, |ps[0] + ps[1]|);
      assert t[0..|ps[0] + ps[1]|] == ps[0] + ps[1];
    } else {
      AdjacentInConcat(ps[1..], k - 1);
      var rest := Concat(ps[1..]);
      SliceIsSubstring(t, |ps[0]|, |t|);
      assert t[|ps[0]|..|t|] == rest;
      SubstringTransitive(ps[k] + ps[k + 1], rest, t);
    }
  }

  /** A label whose lower-cased form starts piece k of the lower-cased text
      (and may run on into piece k + 1) is mentioned in the text. */
  lemma MentionedAt(text: string, ps: seq<string>, skill: string, k: nat)
    requires LowerStr(text) == Concat(ps)
    requires StartsPiece(ps, skill, k)
    ensures Mentions(text, skill)
  {
    var pair := ps[k] + ps[k + 1];
    AdjacentInConcat(ps, k);
    SliceIsSubstring(pair, 0, |skill|);
    assert pair[0..|skill|] == LowerStr(skill);
    SubstringTransitive(LowerStr(skill), pair, Concat(ps));
  }

  /** A label with a space-free block p, where p misses a character (at index
      js[k]) of every piece k of the lower-cased text, is not mentioned. */
  lemma NotMentioned(text: string, ps: seq<string>, skill: string, lo: nat, hi: nat, p: string, js: seq<nat>)
    requires LowerStr(text) == Concat(ps) && EndsInSpace(ps) && ps != []
    requires lo <= hi <= |skill| && LowerStr(skill)[lo..hi] == p
    requires ' ' !in p
    requires MissesEveryPiece(p, ps, js)
    ensures !Mentions(text, skill)
  {
    AbsentFromConcat(p, ps, js);
    if Mentions(text, skill) {
      SliceIsSubstring(LowerStr(skill), lo, hi);
      SubstringTransitive(p, LowerStr(skill), Concat(ps));
    }
  }

  lemma SkillsInStep(labels: seq<string>, k: nat, text: string)
    requires k < |labels|
    ensures SkillsIn(labels[..k + 1], text)
         == SkillsIn(labels[..k], text) + (if Mentions(text, labels[k]) then [labels[k]] else [])
  {
    assert labels[..k + 1][..k] == labels[..k];
  }

  /** Piece k of the lower-cased text begins with the lower-cased label. */
  predicate StartsPiece(ps: seq<string>, skill: string, k: nat) {
    k + 1 < |ps| && |skill| <= |ps[k] + ps[k + 1]|
    && (ps[k] + ps[k + 1])[..|skill|] == LowerStr(skill)
  }

  /** p misses the character at index js[k] of every piece k. */
  predicate MissesEveryPiece(p: string, ps: seq<string>, js: seq<nat>) {
    |js| == |ps| && forall k :: 0 <= k < |ps| ==> js[k] < |p| && p[js[k]] !in ps[k]
  }

  lemma LowerPiecesEndInSpace()
    ensures EndsInSpace(LowerPieces) && LowerPieces != []
  {
  }

  /** "Python" starts piece 13 of the lower-cased sample. */
  lemma StartsPython()
    ensures StartsPiece(LowerPieces, "Python", 13)
  {
    assert LowerStr("Python") == "python";
  }

  lemma MentionsPython(text: string)
    requires LowerStr(text) == Concat(LowerPieces)
    ensures Mentions(text, "Python")
  {
    StartsPython();
    MentionedAt(text, LowerPieces, "Python", 13);
  }

  /** "SQL" starts piece 12 of the lower-cased sample. */
  lemma StartsSQL()
    ensures StartsPiece(LowerPieces, "SQL", 12)
  {
    assert LowerStr("SQL") == "sql";
  }

  lemma MentionsSQL(text: string)
    requires LowerStr(text) == Concat(LowerPieces)
    ensures Mentions(text, "SQL")
  {
    StartsSQL();
    MentionedAt(text, LowerPieces, "SQL", 12);
  }

  /** "Communication" starts piece 14 of the lower-cased sample. */
  lemma StartsCommunication()
    ensures StartsPiece(LowerPieces, "Communication", 14)
  {
    assert LowerStr("Communication") == "communication";
  }

  lemma MentionsCommunication(text: string)
    requires LowerStr(text) == Concat(LowerPieces)
    ensures Mentions(text, "Communication")
  {
    StartsCommunication();
    MentionedAt(text, LowerPieces, "Communication", 14);
  }

  /** "Teamwork" starts piece 15 of the lower-cased sample. */
  lemma StartsTeamwork()
    ensures StartsPiece(LowerPieces, "Teamwork", 15)
  {
    assert LowerStr("Teamwork") == "teamwork";
  }

  lemma MentionsTeamwork(text: string)
    requires LowerStr(text) == Concat(LowerPieces)
    ensures Mentions(text, "Teamwork")
  {
    StartsTeamwork();
    MentionedAt(text, LowerPieces, "Teamwork", 15);
  }

  /** "Project Management" starts piece 17 of the lower-cased sample. */
  lemma StartsProjectManagement()
    ensures StartsPiece(LowerPieces, "Project Management", 17)
  {
    assert LowerStr("Project Management") == "project management";
  }

  lemma MentionsProjectManagement(text: string)
    requires LowerStr(text) == Concat(LowerPieces)
    ensures Mentions(text, "Project Management")
  {
    StartsProjectManagement();
    MentionedAt(text, LowerPieces, "Project Management", 17);
  }


  /** A space-free block of the lower-cased "Java". */
  lemma BlockJava()
    ensures LowerStr("Java")[0..4] == "java"
    ensures ' ' !in "java"
  {
  }

  /** A space-free block of the lower-cased "C#". */
  lemma BlockCSharp()
    ensures LowerStr("C#")[0..2] == "c#"
    ensures ' ' !in "c#"
  {
  }

  /** A space-free block of the lower-cased "JavaScript". */
  lemma BlockJavaScript()
    ensures LowerStr("JavaScript")[0..10] == "javascript"
    ensures ' ' !in "javascript"
  {
  }

  /** A space-free block of the lower-cased "HTML". */
  lemma BlockHTML()
    ensures LowerStr("HTML")[0..4] == "html"
    ensures ' ' !in "html"
  {
  }

  /** A space-free block of the lower-cased "CSS". */
  lemma BlockCSS()
    ensures LowerStr("CSS")[0..3] == "css"
    ensures ' ' !in "css"
  {
  }

  /** A space-free block of the lower-cased "Business Analysis". */
  lemma BlockBusinessAnalysis()
    ensures LowerStr("Business Analysis")[9..17] == "analysis"
    ensures ' ' !in "analysis"
  {
    assert LowerStr("Business Analysis") == "business analysis";
  }

  /** A space-free block of the lower-cased "Customer Service". */
  lemma BlockCustomerService()
    ensures LowerStr("Customer Service")[9..16] == "service"
    ensures ' ' !in "service"
  {
    assert LowerStr("Customer Service") == "customer service";
  }

  /** A space-free block of the lower-cased "MS Office". */
  lemma BlockMSOffice()
    ensures LowerStr("MS Office")[3..9] == "office"
    ensures ' ' !in "office"
  {
    assert LowerStr("MS Office") == "ms office";
  }

  /** A space-free block of the lower-cased "Database". */
  lemma BlockDatabase()
    ensures LowerStr("Database")[0..8] == "database"
    ensures ' ' !in "database"
  {
  }

  /** Piece k of the lower-cased sample lacks the character of "java" at
      the k-th listed index. */
  lemma MissesJava()
    ensures MissesEveryPiece("java", LowerPieces,
      [0, 0, 0, 0, 0, 0, 0, 0, 0, 0, 0, 0, 0, 0, 0, 0, 0, 1, 0])
  {
    var p, js := "java", [0, 0, 0, 0, 0, 0, 0, 0, 0, 0, 0, 0, 0, 0, 0, 0, 0, 1, 0];
    forall k | 0 <= k < |LowerPieces| ensures js[k] < |p| && p[js[k]] !in LowerPieces[k] {
      // cut k down to at most two pieces per branch, so that the literal
      // pieces are looked at one or two at a time
      if k < 8 {
        if k < 4 { if k < 2 {} else {} } else { if k < 6 {} else {} }
      } else if k < 16 {
        if k < 12 { if k < 10 {} else {} } else { if k < 14 {} else {} }
      } else {
        if k < 17 {} else {}
      }
    }
  }

  /** Piece k of the lower-cased sample lacks the character of "c#" at
      the k-th listed index. */
  lemma MissesCSharp()
    ensures MissesEveryPiece("c#", LowerPieces,
      [0, 0, 0, 0, 0, 0, 0, 0, 0, 0, 0, 0, 0, 0, 1, 0, 0, 1, 0])
  {
    var p, js := "c#", [0, 0, 0, 0, 0, 0, 0, 0, 0, 0, 0, 0, 0, 0, 1, 0, 0, 1, 0];
    forall k | 0 <= k < |LowerPieces| ensures js[k] < |p| && p[js[k]] !in LowerPieces[k] {
      // cut k down to at most two pieces per branch, so that the literal
      // pieces are looked at one or two at a time
      if k < 8 {
        if k < 4 { if k < 2 {} else {} } else { if k < 6 {} else {} }
      } else if k < 16 {
        if k < 12 { if k < 10 {} else {} } else { if k < 14 {} else {} }
      } else {
        if k < 17 {} else {}
      }
    }
  }

  /** Piece k of the lower-cased sample lacks the character of "javascript" at
      the k-th listed index. */
  lemma MissesJavaScript()
    ensures MissesEveryPiece("javascript", LowerPieces,
      [0, 0, 0, 0, 0, 0, 0, 0, 0, 0, 0, 0, 0, 0, 0, 0, 0, 1, 0])
  {
    var p, js := "javascript", [0, 0, 0, 0, 0, 0, 0, 0, 0, 0, 0, 0, 0, 0, 0, 0, 0, 1, 0];
    forall k | 0 <= k < |LowerPieces| ensures js[k] < |p| && p[js[k]] !in LowerPieces[k] {
      // cut k down to at most two pieces per branch, so that the literal
      // pieces are looked at one or two at a time
      if k < 8 {
        if k < 4 { if k < 2 {} else {} } else { if k < 6 {} else {} }
      } else if k < 16 {
        if k < 12 { if k < 10 {} else {} } else { if k < 14 {} else {} }
      } else {
        if k < 17 {} else {}
      }
    }
  }

  /** Piece k of the lower-cased sample lacks the character of "html" at
      the k-th listed index. */
  lemma MissesHTML()
    ensures MissesEveryPiece("html", LowerPieces,
      [0, 0, 0, 0, 0, 0, 0, 0, 2, 0, 0, 0, 0, 2, 0, 0, 0, 0, 0])
  {
    var p, js := "html", [0, 0, 0, 0, 0, 0, 0, 0, 2, 0, 0, 0, 0, 2, 0, 0, 0, 0, 0];
    forall k | 0 <= k < |LowerPieces| ensures js[k] < |p| && p[js[k]] !in LowerPieces[k] {
      // cut k down to at most two pieces per branch, so that the literal
      // pieces are looked at one or two at a time
      if k < 8 {
        if k < 4 { if k < 2 {} else {} } else { if k < 6 {} else {} }
      } else if k < 16 {
        if k < 12 { if k < 10 {} else {} } else { if k < 14 {} else {} }
      } else {
        if k < 17 {} else {}
      }
    }
  }

  /** Piece k of the lower-cased sample lacks the character of "css" at
      the k-th listed index. */
  lemma MissesCSS()
    ensures MissesEveryPiece("css", LowerPieces,
      [0, 0, 0, 0, 0, 0, 0, 0, 0, 0, 0, 0, 0, 0, 1, 0, 0, 1, 0])
  {
    var p, js := "css", [0, 0, 0, 0, 0, 0, 0, 0, 0, 0, 0, 0, 0, 0, 1, 0, 0, 1, 0];
    forall k | 0 <= k < |LowerPieces| ensures js[k] < |p| && p[js[k]] !in LowerPieces[k] {
      // cut k down to at most two pieces per branch, so that the literal
      // pieces are looked at one or two at a time
      if k < 8 {
        if k < 4 { if k < 2 {} else {} } else { if k < 6 {} else {} }
      } else if k < 16 {
        if k < 12 { if k < 10 {} else {} } else { if k < 14 {} else {} }
      } else {
        if k < 17 {} else {}
      }
    }
  }

  /** Piece k of the lower-cased sample lacks the character of "analysis" at
      the k-th listed index. */
  lemma MissesBusinessAnalysis()
    ensures MissesEveryPiece("analysis", LowerPieces,
      [0, 0, 1, 0, 0, 1, 0, 6, 0, 0, 0, 0, 0, 0, 3, 1, 3, 0, 3])
  {
    var p, js := "analysis", [0, 0, 1, 0, 0, 1, 0, 6, 0, 0, 0, 0, 0, 0, 3, 1, 3, 0, 3];
    forall k | 0 <= k < |LowerPieces| ensures js[k] < |p| && p[js[k]] !in LowerPieces[k] {
      // cut k down to at most two pieces per branch, so that the literal
      // pieces are looked at one or two at a time
      if k < 8 {
        if k < 4 { if k < 2 {} else {} } else { if k < 6 {} else {} }
      } else if k < 16 {
        if k < 12 { if k < 10 {} else {} } else { if k < 14 {} else {} }
      } else {
        if k < 17 {} else {}
      }
    }
  }

  /** Piece k of the lower-cased sample lacks the character of "service" at
      the k-th listed index. */
  lemma MissesCustomerService()
    ensures MissesEveryPiece("service", LowerPieces,
      [0, 0, 0, 0, 0, 0, 2, 1, 0, 1, 1, 0, 1, 0, 0, 0, 0, 0, 0])
  {
    var p, js := "service", [0, 0, 0, 0, 0, 0, 2, 1, 0, 1, 1, 0, 1, 0, 0, 0, 0, 0, 0];
    forall k | 0 <= k < |LowerPieces| ensures js[k] < |p| && p[js[k]] !in LowerPieces[k] {
      // cut k down to at most two pieces per branch, so that the literal
      // pieces are looked at one or two at a time
      if k < 8 {
        if k < 4 { if k < 2 {} else {} } else { if k < 6 {} else {} }
      } else if k < 16 {
        if k < 12 { if k < 10 {} else {} } else { if k < 14 {} else {} }
      } else {
        if k < 17 {} else {}
      }
    }
  }

  /** Piece k of the lower-cased sample lacks the character of "office" at
      the k-th listed index. */
  lemma MissesMSOffice()
    ensures MissesEveryPiece("office", LowerPieces,
      [0, 0, 0, 1, 3, 0, 0, 0, 0, 1, 0, 0, 0, 1, 1, 1, 0, 1, 0])
  {
    var p, js := "office", [0, 0, 0, 1, 3, 0, 0, 0, 0, 1, 0, 0, 0, 1, 1, 1, 0, 1, 0];
    forall k | 0 <= k < |LowerPieces| ensures js[k] < |p| && p[js[k]] !in LowerPieces[k] {
      // cut k down to at most two pieces per branch, so that the literal
      // pieces are looked at one or two at a time
      if k < 8 {
        if k < 4 { if k < 2 {} else {} } else { if k < 6 {} else {} }
      } else if k < 16 {
        if k < 12 { if k < 10 {} else {} } else { if k < 14 {} else {} }
      } else {
        if k < 17 {} else {}
      }
    }
  }

  /** Piece k of the lower-cased sample lacks the character of "database" at
      the k-th listed index. */
  lemma MissesDatabase()
    ensures MissesEveryPiece("database", LowerPieces,
      [0, 0, 0, 0, 0, 0, 0, 0, 0, 0, 0, 0, 0, 0, 0, 0, 2, 0, 0])
  {
    var p, js := "database", [0, 0, 0, 0, 0, 0, 0, 0, 0, 0, 0, 0, 0, 0, 0, 0, 2, 0, 0];
    forall k | 0 <= k < |LowerPieces| ensures js[k] < |p| && p[js[k]] !in LowerPieces[k] {
      // cut k down to at most two pieces per branch, so that the literal
      // pieces are looked at one or two at a time
      if k < 8 {
        if k < 4 { if k < 2 {} else {} } else { if k < 6 {} else {} }
      } else if k < 16 {
        if k < 12 { if k < 10 {} else {} } else { if k < 14 {} else {} }
      } else {
        if k < 17 {} else {}
      }
    }
  }

  lemma SampleMentioned(text: string)
    requires LowerStr(text) == Concat(LowerPieces)
    ensures Mentions(text, "Python")
    ensures Mentions(text, "SQL")
    ensures Mentions(text, "Communication")
    ensures Mentions(text, "Teamwork")
    ensures Mentions(text, "Project Management")
  {
    MentionsPython(text);
    MentionsSQL(text);
    MentionsCommunication(text);
    MentionsTeamwork(text);
    MentionsProjectManagement(text);
  }

  lemma NotMentionsJava(text: string)
    requires LowerStr(text) == Concat(LowerPieces)
    ensures !Mentions(text, "Java")
  {
    BlockJava();
    MissesJava();
    LowerPiecesEndInSpace();
    NotMentioned(text, LowerPieces, "Java", 0, 4, "java",
      [0, 0, 0, 0, 0, 0, 0, 0, 0, 0, 0, 0, 0, 0, 0, 0, 0, 1, 0]);
  }

  lemma NotMentionsCSharp(text: string)
    requires LowerStr(text) == Concat(LowerPieces)
    ensures !Mentions(text, "C#")
  {
    BlockCSharp();
    MissesCSharp();
    LowerPiecesEndInSpace();
    NotMentioned(text, LowerPieces, "C#", 0, 2, "c#",
      [0, 0, 0, 0, 0, 0, 0, 0, 0, 0, 0, 0, 0, 0, 1, 0, 0, 1, 0]);
  }

  lemma NotMentionsJavaScript(text: string)
    requires LowerStr(text) == Concat(LowerPieces)
    ensures !Mentions(text, "JavaScript")
  {
    BlockJavaScript();
    MissesJavaScript();
    LowerPiecesEndInSpace();
    NotMentioned(text, LowerPieces, "JavaScript", 0, 10, "javascript",
      [0, 0, 0, 0, 0, 0, 0, 0, 0, 0, 0, 0, 0, 0, 0, 0, 0, 1, 0]);
  }

  lemma NotMentionsHTML(text: string)
    requires LowerStr(text) == Concat(LowerPieces)
    ensures !Mentions(text, "HTML")
  {
    BlockHTML();
    MissesHTML();
    LowerPiecesEndInSpace();
    NotMentioned(text, LowerPieces, "HTML", 0, 4, "html",
      [0, 0, 0, 0, 0, 0, 0, 0, 2, 0, 0, 0, 0, 2, 0, 0, 0, 0, 0]);
  }

  lemma NotMentionsCSS(text: string)
    requires LowerStr(text) == Concat(LowerPieces)
    ensures !Mentions(text, "CSS")
  {
    BlockCSS();
    MissesCSS();
    LowerPiecesEndInSpace();
    NotMentioned(text, LowerPieces, "CSS", 0, 3, "css",
      [0, 0, 0, 0, 0, 0, 0, 0, 0, 0, 0, 0, 0, 0, 1, 0, 0, 1, 0]);
  }

  lemma NotMentionsBusinessAnalysis(text: string)
    requires LowerStr(text) == Concat(LowerPieces)
    ensures !Mentions(text, "Business Analysis")
  {
    BlockBusinessAnalysis();
    MissesBusinessAnalysis();
    LowerPiecesEndInSpace();
    NotMentioned(text, LowerPieces, "Business Analysis", 9, 17, "analysis",
      [0, 0, 1, 0, 0, 1, 0, 6, 0, 0, 0, 0, 0, 0, 3, 1, 3, 0, 3]);
  }

  lemma NotMentionsCustomerService(text: string)
    requires LowerStr(text) == Concat(LowerPieces)
    ensures !Mentions(text, "Customer Service")
  {
    BlockCustomerService();
    MissesCustomerService();
    LowerPiecesEndInSpace();
    NotMentioned(text, LowerPieces, "Customer Service", 9, 16, "service",
      [0, 0, 0, 0, 0, 0, 2, 1, 0, 1, 1, 0, 1, 0, 0, 0, 0, 0, 0]);
  }

  lemma NotMentionsMSOffice(text: string)
    requires LowerStr(text) == Concat(LowerPieces)
    ensures !Mentions(text, "MS Office")
  {
    BlockMSOffice();
    MissesMSOffice();
    LowerPiecesEndInSpace();
    NotMentioned(text, LowerPieces, "MS Office", 3, 9, "office",
      [0, 0, 0, 1, 3, 0, 0, 0, 0, 1, 0, 0, 0, 1, 1, 1, 0, 1, 0]);
  }

  lemma NotMentionsDatabase(text: string)
    requires LowerStr(text) == Concat(LowerPieces)
    ensures !Mentions(text, "Database")
  {
    BlockDatabase();
    MissesDatabase();
    LowerPiecesEndInSpace();
    NotMentioned(text, LowerPieces, "Database", 0, 8, "database",
      [0, 0, 0, 0, 0, 0, 0, 0, 0, 0, 0, 0, 0, 0, 0, 0, 2, 0, 0]);
  }

  lemma SampleNotMentioned(text: string)
    requires LowerStr(text) == Concat(LowerPieces)
    ensures !Mentions(text, "Java")
    ensures !Mentions(text, "C#")
    ensures !Mentions(text, "JavaScript")
    ensures !Mentions(text, "HTML")
    ensures !Mentions(text, "CSS")
    ensures !Mentions(text, "Business Analysis")
    ensures !Mentions(text, "Customer Service")
    ensures !Mentions(text, "MS Office")
    ensures !Mentions(text, "Database")
  {
    NotMentionsJava(text);
    NotMentionsCSharp(text);
    NotMentionsJavaScript(text);
    NotMentionsHTML(text);
    NotMentionsCSS(text);
    NotMentionsBusinessAnalysis(text);
    NotMentionsCustomerService(text);
    NotMentionsMSOffice(text);
    NotMentionsDatabase(text);
  }

  /** Which catalog labels a text mentions decides what `extract_skills`
      returns for it; the catalog is taken a few labels at a time. */
  lemma SkillsFromMentions1(text: string)
    requires Mentions(text, "Python")
    requires !Mentions(text, "Java")
    requires !Mentions(text, "C#")
    ensures SkillsIn(Catalog[..3], text) == ["Python"]
  {
    assert Catalog[..0] == [];
    SkillsInStep(Catalog, 0, text);
    assert SkillsIn(Catalog[..1], text) == ["Python"];
    SkillsInStep(Catalog, 1, text);
    assert SkillsIn(Catalog[..2], text) == ["Python"];
    SkillsInStep(Catalog, 2, text);
  }

  lemma SkillsFromMentions2(text: string)
    requires SkillsIn(Catalog[..3], text) == ["Python"]
    requires !Mentions(text, "JavaScript")
    requires !Mentions(text, "HTML")
    requires !Mentions(text, "CSS")
    ensures SkillsIn(Catalog[..6], text) == ["Python"]
  {
    SkillsInStep(Catalog, 3, text);
    assert SkillsIn(Catalog[..4], text) == ["Python"];
    SkillsInStep(Catalog, 4, text);
    assert SkillsIn(Catalog[..5], text) == ["Python"];
    SkillsInStep(Catalog, 5, text);
  }

  lemma SkillsFromMentions3(text: string)
    requires SkillsIn(Catalog[..6], text) == ["Python"]
    requires Mentions(text, "SQL")
    requires !Mentions(text, "Business Analysis")
    requires Mentions(text, "Communication")
    ensures SkillsIn(Catalog[..9], text) == ["Python", "SQL", "Communication"]
  {
    SkillsInStep(Catalog, 6, text);
    assert SkillsIn(Catalog[..7], text) == ["Python", "SQL"];
    SkillsInStep(Catalog, 7, text);
    assert SkillsIn(Catalog[..8], text) == ["Python", "SQL"];
    SkillsInStep(Catalog, 8, text);
  }

  lemma SkillsFromMentions4(text: string)
    requires SkillsIn(Catalog[..9], text) == ["Python", "SQL", "Communication"]
    requires Mentions(text, "Teamwork")
    requires !Mentions(text, "Customer Service")
    requires !Mentions(text, "MS Office")
    ensures SkillsIn(Catalog[..12], text) == ["Python", "SQL", "Communication", "Teamwork"]
  {
    SkillsInStep(Catalog, 9, text);
    assert SkillsIn(Catalog[..10], text) == ["Python", "SQL", "Communication", "Teamwork"];
    SkillsInStep(Catalog, 10, text);
    assert SkillsIn(Catalog[..11], text) == ["Python", "SQL", "Communication", "Teamwork"];
    SkillsInStep(Catalog, 11, text);
  }

  lemma SkillsFromMentions5(text: string)
    requires SkillsIn(Catalog[..12], text) == ["Python", "SQL", "Communication", "Teamwork"]
    requires !Mentions(text, "Database")
    requires Mentions(text, "Project Management")
    ensures SkillsIn(Catalog[..14], text) == ["Python", "SQL", "Communication", "Teamwork", "Project Management"]
  {
    SkillsInStep(Catalog, 12, text);
    assert SkillsIn(Catalog[..13], text) == ["Python", "SQL", "Communication", "Teamwork"];
    SkillsInStep(Catalog, 13, text);
  }

  lemma SkillsFromMentions(text: string)
    requires Mentions(text, "Python")
    requires !Mentions(text, "Java")
    requires !Mentions(text, "C#")
    requires !Mentions(text, "JavaScript")
    requires !Mentions(text, "HTML")
    requires !Mentions(text, "CSS")
    requires Mentions(text, "SQL")
    requires !Mentions(text, "Business Analysis")
    requires Mentions(text, "Communication")
    requires Mentions(text, "Teamwork")
    requires !Mentions(text, "Customer Service")
    requires !Mentions(text, "MS Office")
    requires !Mentions(text, "Database")
    requires Mentions(text, "Project Management")
    ensures SkillsIn(Catalog, text)
         == ["Python", "SQL", "Communication", "Teamwork", "Project Management"]
  {
    SkillsFromMentions1(text);
    SkillsFromMentions2(text);
    SkillsFromMentions3(text);
    SkillsFromMentions4(text);
    SkillsFromMentions5(text);
    assert Catalog[..14] == Catalog;
  }

  /** `extract_skills` on the sample job description finds exactly Python,
      SQL, Communication, Teamwork and Project Management, in catalog order;
      "Business Analyst" does not count as "Business Analysis". */
  lemma SampleJobSkills()
    ensures SkillsIn(Catalog, JobDescription)
         == ["Python", "SQL", "Communication", "Teamwork", "Project Management"]
  {
    LowerJobDescription();
    SampleMentioned(JobDescription);
    SampleNotMentioned(JobDescription);
    SkillsFromMentions(JobDescription);
  }
}
