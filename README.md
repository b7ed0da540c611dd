# Resume screening: text utilities and ranking, in Dafny

This project models two pieces of a resume-screening web application.

1. **The text utilities of `ResumeParser`.**
   - `clean_text` collapses every run of whitespace to one space and trims both ends.
   - `extract_skills` returns, in catalog order, every label of a fixed 14-label catalog whose lower-cased form occurs in the lower-cased text.
2. **The `/upload` route.**
   - It rejects a request without uploads.
   - It rejects an empty or all-whitespace job description.
   - It scores every named upload and keeps those the scorer returns a record for.
   - It ranks the records by final score with Python's stable descending sort.
   - It produces the full results table and the top-3 table.

Files:

- `chars.dfy` (module `Chars`) holds the ASCII character behaviour these rely on:
  - what `str.isspace()` treats as whitespace;
  - `str.lower()`;
  - `str.strip()`;
  - substring search (`p in t`).
- `resume_parser.dfy` (module `ResumeParser`) holds `clean_text` and `extract_skills`:
  - `clean_text` is a function built from `Split` and `Join`, proved equal to a character-by-character collapse of whitespace;
  - `extract_skills` is a method with the source's loop, proved against the function `SkillsIn`.
- `job_example.dfy` (module `JobExample`) works out what `extract_skills` returns for the sample job description hard-coded in `frontend/app.py`.
- `app.dfy` (module `App`) holds the `/upload` route:
  - the collecting loop and the table-writing loops are methods, proved against the functions `Accepted` and `IsTableOf`;
  - the sort is a function on sequences, characterised by three properties (permutation, non-increasing `final`, ties kept in input order) and proved to be the only order with them.

The scorer (`parser.process_resume`) is not defined in the files modelled. It is a parameter of the route, of type `Scorer`. Its answer is `None` whenever the source's answer is falsy.

The route always overwrites both tables: each is opened with mode `"w"` (app.py:49 and app.py:58), and there is no append mode.

## Model

| member | source | states |
|---|---|---|
| `ResumeParser.CleanText` | Backend/resume_parser.py:22-23 | The output is normalised: it does not start or end with whitespace, every whitespace character in it is `' '`, and no two whitespace characters are adjacent. It splits into the same words as the input, and it has exactly the input's non-whitespace characters, in the same order. |
| `ResumeParser.CleanTextIsCollapse` | Backend/resume_parser.py:22-23 | `clean_text` equals a separate character-by-character definition: drop leading and trailing whitespace and replace every inner run of whitespace by one space. |
| `ResumeParser.CleanTextUnique` | Backend/resume_parser.py:22-23 | `clean_text(t)` is the only normalised string whose words are the words of `t`. |
| `ResumeParser.Split` | Backend/resume_parser.py:23 | `str.split()`: every word it returns is non-empty and contains no whitespace. |
| `ResumeParser.SplitUnique` | Backend/resume_parser.py:23 | A word list is `s.split()` exactly when its words are non-empty and free of whitespace and joining them with single spaces gives the character-by-character collapse of `s`. |
| `ResumeParser.SplitIsWordList` | Backend/resume_parser.py:23 | The words of `s.split()` are non-empty and free of whitespace, and joined with single spaces they give the collapse of `s`. |
| `ResumeParser.SplitJoin` | Backend/resume_parser.py:23 | `str.split()` undoes `" ".join`: for non-empty, whitespace-free words, `" ".join(ws).split() == ws`. |
| `ResumeParser.Join` | Backend/resume_parser.py:23 | `" ".join(words)`: for non-empty, whitespace-free words the result is normalised, and it is non-empty when there is at least one word. |
| `ResumeParser.SplitKeepsNonSpace` | Backend/resume_parser.py:23 | Concatenating the words of `str.split()` gives the input with its whitespace removed. |
| `ResumeParser.JoinKeepsWords` | Backend/resume_parser.py:23 | The joined text without its spaces is the words concatenated. |
| `ResumeParser.NormalizedIsFixed` | Backend/resume_parser.py:23 | Splitting normalised text and joining it again gives the same text back. |
| `ResumeParser.CleanTextFixedPoints` | Backend/resume_parser.py:23 | `clean_text` leaves a string unchanged exactly when the string is already normalised. |
| `ResumeParser.CleanTextIdempotent` | Backend/resume_parser.py:23 | `clean_text(clean_text(t)) == clean_text(t)`. |
| `ResumeParser.CleanTextEmpty` | Backend/resume_parser.py:23 | `clean_text` returns `""` exactly when the input is empty or all whitespace. |
| `ResumeParser.ExtractSkills` | Backend/resume_parser.py:34-44 | The loop returns `SkillsIn(Catalog, text)`, and a label is in the result exactly when it is a catalog label whose lower-cased form occurs in the lower-cased text. |
| `ResumeParser.SkillsInMembership` | Backend/resume_parser.py:41-43 | For any label list, a label is found exactly when it is in the list and mentioned in the text, case-insensitively. |
| `ResumeParser.SkillsInSubsequence` | Backend/resume_parser.py:40-44 | The labels found keep the order of the label list (they form a subsequence of it). |
| `ResumeParser.SkillsInDistinct` | Backend/resume_parser.py:40-44 | A label list without repeats yields a result without repeats. |
| `ResumeParser.CatalogDistinct` | Backend/resume_parser.py:35-39 | The 14 catalog labels are pairwise different. |
| `ResumeParser.ExtractSkillsOrder` | Backend/resume_parser.py:34-44 | The result of `extract_skills` is a subsequence of the catalog, in catalog order, with no duplicates. |
| `ResumeParser.SkillsInCaseInsensitive` | Backend/resume_parser.py:42 | `extract_skills(lower(t)) == extract_skills(t)`. |
| `ResumeParser.SkillsInMonotone` | Backend/resume_parser.py:42 | If `t` occurs inside `t2`, every label found in `t` is also found in `t2`. |
| `ResumeParser.JavaInsideJavaScript` | Backend/resume_parser.py:35-42 | There is no word-boundary check: whenever "JavaScript" is found, "Java" is found too. |
| `Chars.IsSpaceExactly` | Backend/resume_parser.py:23 | The whitespace test used by `str.split()` (and by `str.strip()` at app.py:30) holds for exactly the ten ASCII whitespace characters: space, `\t \n \v \f \r`, and `\x1c` to `\x1f`. |
| `Chars.LowerStr` | Backend/resume_parser.py:42 | `str.lower()` keeps the length and maps each character on its own through the ASCII case mapping. |
| `Chars.LowerStrLetters` | Backend/resume_parser.py:42 | Against the alphabet: the k-th capital letter becomes the k-th small letter, every other character is kept, and no capital letter is left. |
| `Chars.Contains` | Backend/resume_parser.py:42 | Python's `p in t` for strings is true exactly when `p` occurs in `t` as a contiguous block. |
| `JobExample.SampleJobSkills` | frontend/app.py:27-30 | On the sample job description, `extract_skills` returns exactly Python, SQL, Communication, Teamwork and Project Management. "Business Analyst" does not match "Business Analysis". |
| `Chars.Strip` | app.py:30 | `str.strip()`: the result is empty exactly when the input is all whitespace. Otherwise it starts and ends with non-whitespace. It is the input with a whitespace prefix and a whitespace suffix cut off. |
| `App.CollectResults` | app.py:35-43 | The loop yields `Accepted(files, jd, score)`: in upload order, a record for every file with a non-empty name that the scorer returns a record for. |
| `App.AcceptedAppend` | app.py:36-43 | Collecting is file by file: the records of `a + b` are those of `a` followed by those of `b`. |
| `App.AcceptedMembership` | app.py:36-43 | A record is collected exactly when some upload with that non-empty file name was scored with exactly those scores. |
| `App.SortByFinalDesc` | app.py:45 | The sorted list is a permutation of its input and is non-increasing in `final`. For every score, the records with that score keep their input order. |
| `App.InsertStable` | app.py:45 | Inserting a record puts it ahead of the records with its own score and keeps the order of all others. |
| `App.SortedUnique` | app.py:45 | Two lists that are both non-increasing in `final`, and agree score by score on which records they hold and in what order, are equal. |
| `App.SortIsStableDescending` | app.py:45 | Every non-increasing order of the records that keeps equal scores in input order is exactly `SortByFinalDesc`, so the ranking is Python's stable descending sort. |
| `App.WriteTable` | app.py:51-54 | The rows written are the header `Candidate, Skills, Experience, Education, Semantic, Final`, then one row per record in ranked order. Each row holds the file name, skills, experience, education, semantic and final. |
| `App.TablePrefix` | app.py:61-63 | The table of the first `n` records is the full table cut after `n` data rows. |
| `App.WriteTables` | app.py:47-63 | The full table lists every ranked record. The top-3 table lists the first `min(3, n)`, and it is the full table cut after its first `min(3, n)` data rows. |
| `App.Upload` | app.py:25-66 | The route answers in one of three ways. Without a "resumes" field: 400 "No files uploaded". With an empty or all-whitespace job description: 400 "Job description is required", the same answer whatever the scorer would return. Otherwise: the results page with the stripped description, the collected records in stable descending order of `final` (a permutation of the collected records), their count, and both tables. |

## Left out

- PDF and DOCX text extraction (`extract_text_from_pdf`, `extract_text_from_docx`): file I/O through PyPDF2 and python-docx.
- `extract_contact_info`: two regular-expression searches. A model would restate the regex engine rather than this program's logic.
- `extract_entities` and loading the spaCy model: a foreign NLP library.
- `process_resume` and any scoring logic: not defined in the files modelled. The route takes the scorer as a parameter.
- Scorer failures: the model's `Scorer` is a total function and cannot raise. In the source, an exception raised by `process_resume` (app.py:41) is not caught, and it fails the whole request.
- Scorer answers: a falsy answer (`None` or an empty dictionary) is `None`. A record without a `"final"` key, which makes the sort raise `KeyError`, is not modelled; every record has all five scores.
- Score values are integers rather than floats. The route only compares and copies them.
- Whitespace and case are ASCII only. Python's Unicode whitespace and full Unicode `lower()` are not modelled.
- Web transport: Flask routing, `request` parsing (the route takes the parsed fields as parameters), `file.save`, the upload folder, template rendering, the timestamp, `send_file` and the whole of `frontend/app.py` apart from its sample job description.
- CSV files: each table is a sequence of rows. CSV quoting and number formatting are not modelled.
- App.SortByFinalDesc: the sort is a function on sequences that the route assigns back to `results`. It is not an in-place sort of a shared list, because `list.sort` is a library call with no loop of the program's own.
