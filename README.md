# Résumé parser model

This project models `parse_resume`, the text parser of a small résumé
upload service (backend/backend.py). It takes the plain text of a résumé
and returns a record of seven strings:

- the name;
- the e-mail address and the phone number;
- four section texts: education, work experience, leadership experience and
  skills.

The parser works in four steps:

1. It splits the text on line feeds, strips each line and drops the blank
   ones.
2. It takes the first remaining line as the name, or `"Unknown"` when there
   is none.
3. It searches the unsplit text with two regular expressions, one for an
   e-mail address and one for a phone number. Each field is `"Not found"`
   when its pattern does not match.
4. It makes one pass over the lines with a "current section" pointer. A line
   that mentions a heading keyword moves the pointer and is not stored. Any
   other line is appended, with a space, to the current section's text; a
   line seen while no section is current is dropped. The four texts are
   stripped at the end.

The model also covers the six-value parameter tuple the service's insert
statement binds from that record.

The files:

- `optional.dfy` (module `Optional`): the `Option` type.
- `text.dfy` (module `Text`): the Python string operations the parser uses,
  on ASCII: `upper`, `strip` (with the whitespace set it removes),
  `split("\n")` and the substring test `in`. It also has `"\n".join`, which
  the parser does not call; it serves as the inverse that shows the split
  loses nothing.
- `patterns.dfy` (module `Patterns`): the two regular expressions.
  - Each is given as a declarative predicate on slices (`EmailAt`, `PhoneAt`).
  - `LeftmostFrom` is the leftmost-longest search written against such a
    predicate.
  - The module also transcribes the backtracking order in which Python's
    `re` engine tries each pattern (`EmailEngine`, `PhoneEngine`) and the
    scan over start positions (`SearchFrom`). It proves that at every start
    this engine finds exactly the longest match. So `re.search` reports the
    leftmost match, taken as long as possible.
- `parser.dfy` (module `ResumeParser`): the parse itself.
  - The line cleaning, the name, the two searches and the heading test are
    functions.
  - The section pass is the method `AccumulateSections`: a `for` loop over
    the lines that updates the pointer and a `map` of four accumulators. It
    is proved against `Owned`, a recursive specification of the pass, and
    `Owned` in turn is proved equal to `Picked`, a positional reference
    definition.
  - `ParseResume` builds the record; its contract ties the result to the
    function `ResumeOf`.
- `storage.dfy` (module `Storage`): the record's dictionary keys, the
  insert's column list and the tuple of values it binds.
- `example.dfy` (module `ResumeExample`): a worked example. A seven-line
  résumé (name, e-mail line, phone line, an education heading and its line,
  a work-experience heading and its line) is taken through the cleaning, the
  name, the heading test and the section pass to its record.

## Model

| member | source | states |
|---|---|---|
| Text.Strip | backend/backend.py:49 | `strip()` returns the empty string or a string that neither starts nor ends with whitespace |
| Text.StripIsSlice | backend/backend.py:49 | `strip()` only cuts whitespace, only at the two ends: the result is a slice of the input between an all-whitespace prefix and an all-whitespace suffix |
| Text.StripEmptyIff | backend/backend.py:49 | a line's strip is empty exactly when the line is all whitespace (the `if line.strip()` filter) |
| Text.StripTrailingSpace | backend/backend.py:93-96 | stripping a stripped non-empty text followed by one space removes exactly that space |
| Text.Split | backend/backend.py:49 | `split("\n")` yields at least one piece and no piece holds a line feed |
| Text.JoinSplit | backend/backend.py:49 | joining the pieces of the split with line feeds gives back the text, so the split loses nothing |
| Text.SplitJoin | backend/backend.py:49 | splitting a line-feed join of line-feed-free pieces gives back exactly those pieces |
| Text.ContainsIff | backend/backend.py:72-83 | the substring test `keyword in line.upper()` holds exactly when the keyword occurs contiguously at some index |
| Text.ContainsTransitive | backend/backend.py:81 | an occurrence inside an occurrence is an occurrence |
| Patterns.PhoneDigits | backend/backend.py:59 | every phone match is 10 to 12 characters long and holds exactly ten digits |
| Patterns.LongestEnd | backend/backend.py:55-60 | the longest match of a pattern at a given start, or none exactly when no match starts there |
| Patterns.LeftmostFrom | backend/backend.py:55-60 | the leftmost-longest match: it matches, no match starts further left, none at its start reaches further, and none is reported only when nothing matches |
| Patterns.SearchIsLeftmost | backend/backend.py:55-60 | scanning the starts in order with an engine that finds the longest match at each start reports the leftmost-longest match |
| Patterns.PhoneEngineLongest | backend/backend.py:59 | the backtracking order for the phone pattern (separators tried present first) finds at each start the longest phone match, and none exactly when there is none |
| Patterns.EmailEngineLongest | backend/backend.py:55 | the backtracking order for the e-mail pattern (greedy local and domain parts, given back one character at a time) finds at each start the longest e-mail match, and none exactly when there is none |
| Patterns.EmailSearch | backend/backend.py:55 | `re.search` with the e-mail pattern reports the leftmost-longest e-mail match |
| Patterns.PhoneSearch | backend/backend.py:59 | `re.search` with the phone pattern reports the leftmost-longest phone match |
| ResumeParser.KeepNonBlank | backend/backend.py:49 | every kept line is non-empty and stripped |
| ResumeParser.CleanLines | backend/backend.py:49 | every cleaned line is non-empty and has no leading or trailing whitespace |
| ResumeParser.KeepNonBlankAppend | backend/backend.py:49 | cleaning keeps the input order: the lines of a concatenation are those of the first part followed by those of the second |
| ResumeParser.KeepNonBlankEmpty | backend/backend.py:49 | nothing is kept exactly when every piece is blank |
| ResumeParser.KeepNonBlankFirst | backend/backend.py:49 | the first kept line is the strip of the first piece that is not blank |
| ResumeParser.AllSpaceJoin | backend/backend.py:49 | a line-feed join is all whitespace exactly when every piece is |
| ResumeParser.CleanLinesEmpty | backend/backend.py:49 | a text has no cleaned line exactly when it is all whitespace |
| ResumeParser.NameIsFirstLine | backend/backend.py:52 | an all-whitespace text gets the name `"Unknown"`; any other text gets the strip of its first non-blank line |
| ResumeParser.NameSentinelInBand | backend/backend.py:52 | the text `"Unknown"` has a non-blank line yet gets the same name as the empty text |
| ResumeParser.EmailOf | backend/backend.py:55-56 | the e-mail field is `"Not found"` exactly when no slice of the text matches the e-mail pattern; otherwise it is the slice `re.search` reports |
| ResumeParser.PhoneOf | backend/backend.py:59-60 | the phone field is `"Not found"` exactly when no slice of the text matches the phone pattern; otherwise it is the slice `re.search` reports |
| ResumeParser.PhoneFieldShape | backend/backend.py:59-60 | a phone field other than the sentinel is 10 to 12 characters long with exactly ten digits |
| ResumeParser.CertificationsHoldsSkills | backend/backend.py:81 | a line holding "CERTIFICATIONS & SKILLS" also holds "SKILLS" |
| ResumeParser.ClassifyPriority | backend/backend.py:72-83 | each outcome of the heading test, both ways: the first keyword present in the order education, work experience, leadership experience, skills wins, and the skills test is the plain "SKILLS" test |
| ResumeParser.ClassifyIgnoresCase | backend/backend.py:72-83 | a line and its upper-cased form get the same heading outcome |
| ResumeParser.OwnedAreBodyLines | backend/backend.py:72-86 | a section receives only lines of the input that are not headings |
| ResumeParser.OwnedClean | backend/backend.py:49 | with cleaned input, every line a section receives is cleaned |
| ResumeParser.PassOneMore | backend/backend.py:71-86 | one more line: a heading moves only the pointer and is stored nowhere; any other line goes to the current section, if any, and to no other |
| ResumeParser.StripTerminated | backend/backend.py:86 | the stripped accumulator of a section is its lines joined by single spaces |
| ResumeParser.TrimRightTerminated | backend/backend.py:86 | a right-only trim of a section's accumulator equals its lines joined by single spaces, the same as the full strip |
| ResumeParser.PassIsPicked | backend/backend.py:70-86 | the pass agrees on every prefix with the positional definition: the pointer is the section of the last heading so far, and a section gets exactly the non-heading lines whose last preceding heading is that section, in input order |
| ResumeParser.PreambleDropped | backend/backend.py:70 | lines before the first heading contribute to no section |
| ResumeParser.AbsentSectionEmpty | backend/backend.py:63-68 | a section whose heading never appears gets no line, so its field is `""` |
| ResumeParser.AccumulatorOneMore | backend/backend.py:85-86 | one more line grows a section's accumulator by that line and one space exactly when the line is not a heading and the section is current, and leaves it alone otherwise |
| ResumeParser.AccumulatorsStep | backend/backend.py:71-86 | one iteration of the loop body keeps the pointer and all four accumulators in step with the specification of the pass |
| ResumeParser.AccumulateSections | backend/backend.py:63-86 | the loop leaves the four section keys, each holding the lines the pass gives that section, each followed by one space |
| ResumeParser.ParseResume | backend/backend.py:45-97 | `parse_resume` returns `ResumeOf(text)`, the record whose section fields are the lines the pass gives each section joined by single spaces |
| ResumeParser.SectionFieldIsPicked | backend/backend.py:63-96 | each section field is, by position, exactly the non-heading lines whose last preceding heading is that section, joined by single spaces |
| ResumeParser.EmptyTextRecord | backend/backend.py:45-97 | the empty text gives the name `"Unknown"`, the e-mail and phone `"Not found"` and four empty sections |
| Storage.Lookup | backend/backend.py:89-97 | the returned dictionary has a value exactly for its seven keys |
| Storage.ToRow | backend/backend.py:106 | the inserted tuple has one value per column of the insert |
| Storage.RowFollowsColumns | backend/backend.py:104-106 | the value at each position of the tuple is the record's field under the key the column list names at that position |
| Storage.LeadershipNotStored | backend/backend.py:104-106 | every stored column is a key of the record, and the leadership experience is the one record key that is not stored |
| Storage.SameRowIff | backend/backend.py:106 | two records bind the same tuple exactly when they agree on every field except the leadership experience |
| ResumeExample.ExampleLines | backend/backend.py:49-52 | the example text's cleaned lines are its seven lines, in order, and its name is the first of them, `"John Doe"` |
| ResumeExample.NoHeading | backend/backend.py:72-83 | a line that lacks, in both cases, one letter of each of the four keywords gets no heading |
| ResumeExample.ExampleHeadingLines | backend/backend.py:72-83 | the line `"EDUCATION"` is an education heading and `"WORK EXPERIENCE"` a work-experience heading |
| ResumeExample.TwoHeadedLines | backend/backend.py:70-86 | over three non-heading lines, a heading, a body line, a second heading and a body line, the first three lines go to no section and each body line goes to the section of the heading above it |
| ResumeExample.ExampleOwned | backend/backend.py:70-86 | in the example, the education section gets only the line under its heading, the work experience only the line under its heading, and the other two sections nothing |
| ResumeExample.ExampleRecord | backend/backend.py:45-97 | the example's record has the name `"John Doe"`, the education `"BS CS, State University"`, the work experience `"Engineer at Acme"`, and empty leadership and skills fields |

## Left out

- The PDF text extraction (`extract_text_from_pdf`, backend/backend.py:39-43) is a call into a foreign library. The text is the model's input.
- The database is not modelled: schema creation, the insert's execution, the select, and connection handling. Only the tuple the insert binds is modelled.
- The listing the service returns (backend/backend.py:130-153) reads from the database, so it is not modelled either.
- The HTTP routes, the upload handling, file names and paths, and CORS are not modelled. These are HTTP and filesystem plumbing.
- frontend/src/App.js is not part of this model. It is a user interface that only renders and fetches.
- Characters outside ASCII are not modelled. For them, Python's `upper()`, `strip()`, `\s`, `\d` and `\w` (so also `\b`) behave differently. The model treats every non-ASCII character as a non-space, non-digit, non-word character that `upper()` leaves alone.
- The engine model covers only the two patterns of the parser. It transcribes the order in which the `re` engine tries them, not the engine in general.
- ResumeParser.NameIsFirstLine: the name is `"Unknown"` exactly when the text is blank is not claimed, because it does not hold. The sentinel is in band: the text `"Unknown"` has a line and still yields that name (`NameSentinelInBand`).
- ResumeParser.OwnedAreBodyLines: the stronger claim that no section text contains a heading keyword is not made, because it does not hold. The section text joins lines with spaces, so under an education heading the lines `"WORK"` and `"EXPERIENCE x"` give the education text `"WORK EXPERIENCE x"`. What is proved is that no heading line is appended.
- In the code, the final step is a full `strip()` of each accumulator, not a trim of the right end only. Since every cleaned line is already stripped, the two agree (`StripTerminated` for the full strip, `TrimRightTerminated` for the right-only trim).
- ResumeExample.ExampleRecord: the example's e-mail and phone fields are not computed. Running the two pattern searches over the literal text costs the verifier far more than the rest of the example; the searches are covered in general by `EmailOf`, `PhoneOf` and the `Patterns` lemmas.
