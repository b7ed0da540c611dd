/** The `/upload` route of the web application: the job-description check,
    collecting the scored uploads, ranking them by final score, and the full
    and top-3 result tables written for download. */
module App {
  import opened Chars

  datatype Option<T> = None | Some(value: T)

  /** The score record the scorer hands back. The source's values are floats
      that are only compared and copied, so they are integers here. */
  datatype Scores = Scores(skills: int, experience: int, education: int, semantic: int, final: int)

  /** One uploaded file: the name it was sent under and its contents. */
  datatype UploadedFile = UploadedFile(filename: string, data: string)

  /** An entry of `results`: a file name with its scores. */
  datatype Candidate = Candidate(filename: string, scores: Scores)

  datatype Cell = Text(text: string) | Number(value: int)

  type Row = seq<Cell>

  /** What the route answers: an error with status 400, or the results page
      together with the two tables it writes out. */
  datatype Response =
    | BadRequest(message: string)
    | ResultsPage(results: seq<Candidate>, count: nat, jobDescription: string,
                  fullTable: seq<Row>, top3Table: seq<Row>)

  /** The resume scorer, called with a saved upload and the job description.
      None stands for every falsy answer (None or an empty record). */
  type Scorer = (UploadedFile, string) -> Option<Scores>

  function Min(a: int, b: int): int {
    if a <= b then a else b
  }

  /** `request.form.get("job_description", "")`. */
  function FieldOrEmpty(field: Option<string>): string {
    if field.Some? then field.value else ""
  }

  // ---------------------------------------------------------------------------
  // Collecting results
  // ---------------------------------------------------------------------------

  /** A file is kept when its name is not empty and the scorer returns a
      record for it. */
  predicate Kept(file: UploadedFile, jd: string, score: Scorer) {
    file.filename != "" && score(file, jd).Some?
  }

  /** The records the upload loop appends, in upload order. */
  function Accepted(files: seq<UploadedFile>, jd: string, score: Scorer): seq<Candidate> {
    if files == [] then []
    else
      var kept := Accepted(files[..|files| - 1], jd, score);
      var file := files[|files| - 1];
      if Kept(file, jd, score) then kept + [Candidate(file.filename, score(file, jd).value)]
      else kept
  }

  /** The loop over the uploads: skip nameless files, keep those the scorer
      returns a record for. */
  method CollectResults(files: seq<UploadedFile>, jd: string, score: Scorer)
    returns (results: seq<Candidate>)
    ensures results == Accepted(files, jd, score)
  {
    results := [];
    for i := 0 to |files|
      invariant results == Accepted(files[..i], jd, score)
    {
      var file := files[i];
      assert files[..i + 1][..i] == files[..i];
      if file.filename == "" {
        continue;
      }
      var scores := score(file, jd);
      if scores.Some? {
        results := results + [Candidate(file.filename, scores.value)];
      }
    }
    assert files[..|files|] == files;
  }

  /** Collecting is done file by file: uploads later in the list come later
      in the results. */
  lemma {:induction false} AcceptedAppend(a: seq<UploadedFile>, b: seq<UploadedFile>, jd: string, score: Scorer)
    ensures Accepted(a + b, jd, score) == Accepted(a, jd, score) + Accepted(b, jd, score)
    decreases |b|
  {
    if b == [] {
      assert a + b == a;
    } else {
      var init := b[..|b| - 1];
      AcceptedAppend(a, init, jd, score);
      assert (a + b)[..|a + b| - 1] == a + init;
    }
  }

  /** Upload i has a non-empty name and was scored as record c. */
  predicate Yields(files: seq<UploadedFile>, i: int, jd: string, score: Scorer, c: Candidate) {
    0 <= i < |files| && files[i].filename == c.filename && c.filename != ""
    && score(files[i], jd) == Some(c.scores)
  }

  /** A record is collected exactly when some upload with that non-empty name
      was scored with exactly those scores. */
  lemma {:induction false} AcceptedMembership(files: seq<UploadedFile>, jd: string, score: Scorer, c: Candidate)
    ensures c in Accepted(files, jd, score) <==> exists i :: Yields(files, i, jd, score, c)
  {
    if files != [] {
      var init := files[..|files| - 1];
      AcceptedMembership(init, jd, score, c);
      if exists i :: Yields(files, i, jd, score, c) {
        var i :| Yields(files, i, jd, score, c);
        if i < |files| - 1 {
          assert Yields(init, i, jd, score, c);
        }
      }
      if exists i :: Yields(init, i, jd, score, c) {
        var i :| Yields(init, i, jd, score, c);
        assert files[i] == init[i];
        assert Yields(files, i, jd, score, c);
      }
      var last := files[|files| - 1];
      if Kept(last, jd, score) && c == Candidate(last.filename, score(last, jd).value) {
        assert Yields(files, |files| - 1, jd, score, c);
      }
    }
  }

  // ---------------------------------------------------------------------------
  // Ranking: `results.sort(key=final, reverse=True)`
  // ---------------------------------------------------------------------------

  /** Final scores never increase along the list. */
  predicate SortedDesc(s: seq<Candidate>) {
    forall i, j :: 0 <= i < j < |s| ==> s[i].scores.final >= s[j].scores.final
  }

  /** The records with final score k, in their order in s. */
  function WithFinal(s: seq<Candidate>, k: int): seq<Candidate> {
    if s == [] then []
    else (if s[0].scores.final == k then [s[0]] else []) + WithFinal(s[1..], k)
  }

  /** Insert c in front of the first record whose final score is not above
      its own. */
  function InsertByFinal(c: Candidate, s: seq<Candidate>): (r: seq<Candidate>)
    ensures multiset(r) == multiset(s) + multiset{c}
  {
    if s == [] || s[0].scores.final <= c.scores.final then [c] + s
    else
      assert s == [s[0]] + s[1..];
      [s[0]] + InsertByFinal(c, s[1..])
  }

  /** Inserting into a sorted list keeps it sorted. */
  lemma {:induction false} InsertSorted(c: Candidate, s: seq<Candidate>)
    requires SortedDesc(s)
    ensures SortedDesc(InsertByFinal(c, s))
  {
    if s != [] && s[0].scores.final > c.scores.final {
      InsertSorted(c, s[1..]);
      InsertBounded(c, s[1..], s[0].scores.final);
    }
  }

  /** Inserting a record no higher than b into records no higher than b
      gives records no higher than b. */
  lemma {:induction false} InsertBounded(c: Candidate, s: seq<Candidate>, b: int)
    requires c.scores.final <= b
    requires forall j :: 0 <= j < |s| ==> s[j].scores.final <= b
    ensures forall j :: 0 <= j < |InsertByFinal(c, s)| ==> InsertByFinal(c, s)[j].scores.final <= b
  {
    if s != [] && s[0].scores.final > c.scores.final {
      InsertBounded(c, s[1..], b);
    }
  }

  /** Inserting c puts it ahead of every record with the same final score
      and moves no other record past another. */
  lemma {:induction false} InsertStable(c: Candidate, s: seq<Candidate>, k: int)
    ensures WithFinal(InsertByFinal(c, s), k)
      == (if k == c.scores.final then [c] + WithFinal(s, k) else WithFinal(s, k))
  {
    WithFinalCons(c, s);
    if s != [] && s[0].scores.final > c.scores.final {
      InsertStable(c, s[1..], k);
      WithFinalCons(s[0], InsertByFinal(c, s[1..]));
      WithFinalCons(s[0], s[1..]);
      assert s == [s[0]] + s[1..];
    }
  }

  /** Python's stable sort on `final` with `reverse=True`: a permutation of
      its input, in non-increasing order of final score, where records with
      equal final scores keep their relative order. */
  function SortByFinalDesc(rs: seq<Candidate>): (r: seq<Candidate>)
    ensures multiset(r) == multiset(rs)
    ensures SortedDesc(r)
    ensures forall k :: WithFinal(r, k) == WithFinal(rs, k)
  {
    if rs == [] then []
    else
      var sorted := SortByFinalDesc(rs[1..]);
      InsertSorted(rs[0], sorted);
      WithFinalCons(rs[0], rs[1..]);
      assert rs == [rs[0]] + rs[1..];
      assert forall k :: WithFinal(InsertByFinal(rs[0], sorted), k) == WithFinal(rs, k) by {
        forall k ensures WithFinal(InsertByFinal(rs[0], sorted), k) == WithFinal(rs, k) {
          InsertStable(rs[0], sorted, k);
        }
      }
      InsertByFinal(rs[0], sorted)
  }

  lemma WithFinalCons(c: Candidate, s: seq<Candidate>)
    ensures forall k ::
      WithFinal([c] + s, k) == (if c.scores.final == k then [c] else []) + WithFinal(s, k)
  {
    assert ([c] + s)[1..] == s;
  }

  /** The ranking is fully determined: two lists that are both in
      non-increasing order of final score and agree, for every score, on the
      records with that score and their order, are the same list. */
  lemma {:induction false} SortedUnique(a: seq<Candidate>, b: seq<Candidate>)
    requires SortedDesc(a) && SortedDesc(b)
    requires forall k :: WithFinal(a, k) == WithFinal(b, k)
    ensures a == b
    decreases |a|
  {
    if a == [] && b == [] {
    } else if a == [] {
      WithFinalHead(b);
    } else if b == [] {
      WithFinalHead(a);
    } else {
      var m, n := a[0].scores.final, b[0].scores.final;
      WithFinalHead(a);
      WithFinalHead(b);
      if m > n {
        WithFinalMember(b, m);
      } else if m < n {
        WithFinalMember(a, n);
      } else {
        WithFinalCons(a[0], a[1..]);
        WithFinalCons(b[0], b[1..]);
        assert a == [a[0]] + a[1..] && b == [b[0]] + b[1..];
        assert a[0] == WithFinal(a, m)[0] == WithFinal(b, m)[0] == b[0];
        forall k ensures WithFinal(a[1..], k) == WithFinal(b[1..], k) {
          WithFinalTail(a, k);
          WithFinalTail(b, k);
        }
        SortedUnique(a[1..], b[1..]);
      }
    }
  }

  /** Dropping the head of a list drops it from its own score's records. */
  lemma WithFinalTail(s: seq<Candidate>, k: int)
    requires s != []
    ensures WithFinal(s[1..], k)
      == if s[0].scores.final == k then WithFinal(s, k)[1..] else WithFinal(s, k)
  {
    if s[0].scores.final == k {
      assert WithFinal(s, k) == [s[0]] + WithFinal(s[1..], k);
    } else {
      assert WithFinal(s, k) == [] + WithFinal(s[1..], k);
    }
  }

  /** The head of a list is the first record with its own final score. */
  lemma WithFinalHead(s: seq<Candidate>)
    requires s != []
    ensures WithFinal(s, s[0].scores.final) != []
    ensures WithFinal(s, s[0].scores.final)[0] == s[0]
  {
  }

  /** A record with final score k that is present in a sorted list cannot
      sit after a head with a smaller score. */
  lemma {:induction false} WithFinalMember(s: seq<Candidate>, k: int)
    requires SortedDesc(s) && s != [] && s[0].scores.final < k
    ensures WithFinal(s, k) == []
    decreases |s|
  {
    if |s| > 1 {
      assert SortedDesc(s[1..]) && s[1].scores.final <= s[0].scores.final;
      WithFinalMember(s[1..], k);
    } else {
      assert s[1..] == [];
    }
  }

  /** What `upload` does to `results`: the sort is the one stable
      descending order of the collected records. */
  lemma SortIsStableDescending(rs: seq<Candidate>, other: seq<Candidate>)
    requires SortedDesc(other)
    requires forall k :: WithFinal(other, k) == WithFinal(rs, k)
    ensures other == SortByFinalDesc(rs)
  {
    SortedUnique(other, SortByFinalDesc(rs));
  }

  // ---------------------------------------------------------------------------
  // Result tables
  // ---------------------------------------------------------------------------

  const Header: Row := [Text("Candidate"), Text("Skills"), Text("Experience"),
                        Text("Education"), Text("Semantic"), Text("Final")]

  /** One data row: the file name, then skills, experience, education,
      semantic and final score. */
  function RowOf(c: Candidate): Row {
    [Text(c.filename), Number(c.scores.skills), Number(c.scores.experience),
     Number(c.scores.education), Number(c.scores.semantic), Number(c.scores.final)]
  }

  /** The header row followed by one row per record, in the records' order. */
  predicate IsTableOf(table: seq<Row>, rs: seq<Candidate>) {
    |table| == |rs| + 1 && table[0] == Header
    && forall i :: 0 <= i < |rs| ==> table[i + 1] == RowOf(rs[i])
  }

  /** The rows one CSV writer emits: the header, then a row per record. */
  method WriteTable(rs: seq<Candidate>) returns (table: seq<Row>)
    ensures IsTableOf(table, rs)
  {
    table := [Header];
    for i := 0 to |rs|
      invariant |table| == i + 1 && table[0] == Header
      invariant forall j :: 0 <= j < i ==> table[j + 1] == RowOf(rs[j])
    {
      var c := rs[i];
      table := table + [RowOf(c)];
    }
  }

  /** A table is determined by its records. */
  lemma TableUnique(t1: seq<Row>, t2: seq<Row>, rs: seq<Candidate>)
    requires IsTableOf(t1, rs) && IsTableOf(t2, rs)
    ensures t1 == t2
  {
    forall i | 0 <= i < |t1| ensures t1[i] == t2[i] {
      if i > 0 {
        assert t1[i] == RowOf(rs[i - 1]);
      }
    }
  }

  /** The table of the first n records is a prefix of the full table. */
  lemma TablePrefix(table: seq<Row>, rs: seq<Candidate>, n: nat)
    requires IsTableOf(table, rs) && n <= |rs|
    ensures IsTableOf(table[..n + 1], rs[..n])
  {
  }

  /** The two CSV files: every ranked record, and the first three. */
  method WriteTables(results: seq<Candidate>) returns (full: seq<Row>, top3: seq<Row>)
    ensures IsTableOf(full, results)
    ensures IsTableOf(top3, results[..Min(3, |results|)])
    ensures top3 == full[..Min(3, |results|) + 1]
  {
    full := WriteTable(results);
    var top := Min(3, |results|);
    top3 := WriteTable(results[..top]);
    TablePrefix(full, results, top);
    TableUnique(top3, full[..top + 1], results[..top]);
  }

  // ---------------------------------------------------------------------------
  // The route
  // ---------------------------------------------------------------------------

  /** `upload()`. `resumes` is None when the request has no "resumes" field;
      `jobField` is None when the form has no "job_description" field. */
  method Upload(resumes: Option<seq<UploadedFile>>, jobField: Option<string>, score: Scorer)
    returns (resp: Response)
    ensures resumes.None? ==> resp == BadRequest("No files uploaded")
    ensures resumes.Some? && AllSpace(FieldOrEmpty(jobField))
      ==> resp == BadRequest("Job description is required")
    ensures resumes.Some? && !AllSpace(FieldOrEmpty(jobField)) ==>
      var jd := Strip(FieldOrEmpty(jobField));
      var collected := Accepted(resumes.value, jd, score);
      && resp.ResultsPage?
      && resp.jobDescription == jd
      && resp.results == SortByFinalDesc(collected)
      && SortedDesc(resp.results)
      && multiset(resp.results) == multiset(collected)
      && resp.count == |resp.results|
      && IsTableOf(resp.fullTable, resp.results)
      && IsTableOf(resp.top3Table, resp.results[..Min(3, |resp.results|)])
      && resp.top3Table == resp.fullTable[..Min(3, |resp.results|) + 1]
  {
    if resumes.None? {
      return BadRequest("No files uploaded");
    }
    var files := resumes.value;
    var jd := Strip(FieldOrEmpty(jobField));
    if jd == [] {
      return BadRequest("Job description is required");
    }
    var results := CollectResults(files, jd, score);
    results := SortByFinalDesc(results);
    var full, top3 := WriteTables(results);
    resp := ResultsPage(results, |results|, jd, full, top3);
  }
}
