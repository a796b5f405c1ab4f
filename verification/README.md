# Report splitter: a verified model

The system is a small web service for a school. A teacher keeps class rosters: each class maps a student's full name to a record. The record holds the school number ("Okul No") and six parent-contact fields. Rosters are typed in on a settings page or imported from an Excel sheet.

The teacher uploads one PDF holding a report page per student, together with a class name. The service then:

- reads the text of every page;
- gives each page to the first student of the roster whose name occurs on it, in name order or in reversed order, with any whitespace (or none) between the name's parts;
- cuts a short excerpt around the match for the teacher to check;
- names the page's file after the student's school number and after the student's name, numbering repeated school numbers;
- lists the students found on no page.

The pages can then be downloaded one by one or as a ZIP archive named by either scheme, and single reports can be dropped from the result.

This project models that logic in Dafny as pure functions over immutable data.

- `JsObject` models the JavaScript objects the code uses as dictionaries, in insertion order. The order matters: the first matching student wins, and missing students are listed in roster order.
- `Text` models lower-casing, `trim`, `split(/\s+/)`, decimal formatting and `String.prototype.replace`.
- `TokenPattern` models the search pattern `t1\s*t2…` and `String.prototype.match`.
- `PdfParser` models `prepareStudentInfo` and `parsePdfForStudents`, the PDF itself given as its page texts.
- `ParserProps` proves what the page loop computes.
- `DataManager` models the keyed roster store.
- `ZipNames` models the archive's entry naming.
- `Server` models the decisions of the route handlers.

Lower-casing follows `toLowerCase`, which ignores locale. So a page reading `AYŞE YILMAZ` lower-cases to `ayşe yilmaz`, with a dotted `i`. That text does not contain `ayşe\s*yılmaz`, the pattern built for the roster name `Ayşe Yılmaz`, so the model, like the code, does not match that page to that student.

## Model

| member | source | states |
|---|---|---|
| JsObject.Empty | src/dataManager.js:61 | the empty object has no keys and no values; its use is stated by DataManager.DeleteClassThenGet and PdfParser.PrepareEmpty |
| JsObject.Get | src/dataManager.js:61 | a property read finds a value exactly for an own key, and it is that key's value |
| JsObject.Assign | src/dataManager.js:72 | a property write sets that one key; an existing key keeps its place in the key order, a new key goes last |
| JsObject.Delete | src/dataManager.js:83 | `delete` removes exactly that key, keeps the other keys in order, and changes nothing for an absent key |
| JsObject.MapValues | src/pdfParser.js:71-88 | building one object from another entry by entry keeps the keys and their order and transforms each value; its use is stated by ParserProps.BuildPatternsTokenTable |
| JsObject.AssignDelete | src/dataManager.js:72 | writing a new key and deleting it again gives back the same object, key order included |
| JsObject.AssignSame | src/dataManager.js:99 | writing back the value a key already holds changes nothing |
| JsObject.AssignTwice | src/dataManager.js:99 | a second write to a key overrides the first |
| Text.LowerChar | src/pdfParser.js:95 | lower-casing maps A-Z 32 code points up, leaves other characters below U+00C0 alone, and never turns a space into a non-space or back |
| Text.Lower | src/pdfParser.js:95 | lower-casing keeps the length, so match offsets in the lower-cased page are offsets in the page itself |
| Text.LowerSlice | src/pdfParser.js:118 | lower-casing a slice is slicing the lower-cased text |
| Text.LowerKeepsSpace | src/pdfParser.js:95 | a character that is not whitespace after lower-casing was not whitespace before |
| Text.LowerNoSpace | src/pdfParser.js:73 | lower-casing a name part keeps it free of whitespace and keeps its length |
| Text.LeadingSpaces | src/pdfParser.js:201 | the count of leading whitespace stops at the first non-space character |
| Text.TrailingSpaces | src/pdfParser.js:201 | the count of trailing whitespace stops at the last non-space character |
| Text.Trim | src/pdfParser.js:201 | `trim` gives the stretch of the input between its leading and trailing whitespace, and the result neither starts nor ends with whitespace |
| Text.TrimUnpadded | src/pdfParser.js:118 | trimming text that neither starts nor ends with whitespace gives it back unchanged |
| Text.TrimKeeps | src/pdfParser.js:123 | trimming never cuts into a stretch that starts and ends with non-space characters |
| Text.TrimWindow | src/pdfParser.js:121-123 | the trimmed window is the part of the page at its start offset, and it still covers a match that starts and ends with non-space characters |
| Text.TrimStripped | src/pdfParser.js:118-123 | trimming a window of the page leaves exactly its content between the whitespace at its two ends |
| Text.StrippedUnique | src/pdfParser.js:118-123 | a window has one trimmed form only, so that description determines the excerpt completely |
| Text.NextSpace | src/pdfParser.js:201 | the search for the next whitespace passes only non-space characters and stops at whitespace or at the end |
| Text.SkipSpaces | src/pdfParser.js:105 | a greedy `\s*` passes only whitespace and stops at a non-space character or at the end |
| Text.Split | src/pdfParser.js:201 | `split(/\s+/)` gives at least one piece, and two or more exactly when the string holds whitespace |
| Text.SplitTokens | src/pdfParser.js:201-204 | splitting a trimmed non-empty name gives non-empty pieces without whitespace |
| Text.SplitJoin | src/pdfParser.js:201 | splitting name parts joined by single spaces gives back the parts |
| Text.NatToString | src/pdfParser.js:145 | a counter is written as one or more decimal digits |
| Text.NatToStringRoundTrip | src/pdfParser.js:145 | reading the decimal digits back gives the number |
| Text.NatToStringInjective | src/pdfParser.js:145-146 | different numbers are written differently |
| Text.IndexOf | src/server.js:349 | the search finds the first occurrence of the pattern, and none exists when it finds none |
| Text.ReplaceFirst | src/server.js:349 | `replace` with a string pattern rewrites its first occurrence only, and changes nothing when there is none; its use is stated by ZipNames.SuffixedShape and ZipNames.SuffixedA2 |
| TokenPattern.MatchAt | src/pdfParser.js:104-106 | a greedy match from a position ends inside the text |
| TokenPattern.MatchAtIsSpans | src/pdfParser.js:104-108 | for whitespace-free tokens the regular expression matches `text[p..e]` exactly when the greedy match from `p` ends at `e`, so a match start fixes its end |
| TokenPattern.MatchEnds | src/pdfParser.js:110-111 | a match of a name pattern is non-empty and starts and ends with non-space characters |
| TokenPattern.LeftmostFrom | src/pdfParser.js:106-111 | the search reports the first position with a match and that match's end, and there is no match at all when it reports none |
| TokenPattern.LeftmostIsRegexMatch | src/pdfParser.js:104-111 | the search succeeds exactly when the regular expression occurs, reports a real match, and no match starts earlier |
| PdfParser.PrepareKeys | src/pdfParser.js:199-210 | the prepare loop over the first roster names keeps exactly the qualifying names, in order, each with its prepared entry |
| PdfParser.PrepareKeysStep | src/pdfParser.js:204-209 | one more name of the loop is appended exactly when it qualifies |
| PdfParser.PrepareStudentInfo | src/pdfParser.js:196-213 | a student is kept iff the school number text is neither empty nor `"undefined"` and the trimmed name splits into two or more parts; kept names stay in roster order, and each entry keeps the school number unchanged and holds the name's parts |
| PdfParser.PrepareEmpty | src/server.js:242-244 | the prepared roster is empty exactly when no student of the class qualifies |
| PdfParser.PrepareWellFormed | src/pdfParser.js:200-209 | every prepared entry has a non-empty name, a usable school number and two or more non-empty whitespace-free parts |
| PdfParser.LowerAll | src/pdfParser.js:73 | the lower-cased parts are the parts lower-cased one by one; its use is stated by ParserProps.BuildPatternsTokenTable |
| PdfParser.BuildPatterns | src/pdfParser.js:71-88 | every prepared student, and no one else, gets exactly two patterns and the school number: the lower-cased parts in order, then the same parts reversed |
| PdfParser.BuildPatternsTokens | src/pdfParser.js:73-82 | every pattern of a prepared roster has two or more non-empty whitespace-free tokens |
| PdfParser.MatchPatterns | src/pdfParser.js:104-129 | a student's patterns are tried in order; the first that occurs wins with its leftmost match, and none is reported only when none occurs |
| PdfParser.MatchEntries | src/pdfParser.js:101-132 | the page goes to the first student, in roster order, with an occurring pattern; no earlier student has one, and no student at all has one when the page goes to nobody |
| PdfParser.Excerpt | src/pdfParser.js:113-124 | the excerpt is what remains of a window of the page once the whitespace at both its ends is removed, and it sits in the page at `ExcerptStart`: the window is the matched stretch itself when at most 10 characters stand before and after the match, and otherwise the match widened by up to 10 characters on each side; so it is at most the match length, or the match length plus 20, long |
| PdfParser.WindowLo | src/pdfParser.js:121 | the context window starts exactly 10 characters before the match, or at the start of the page when the match starts sooner |
| PdfParser.WindowHi | src/pdfParser.js:122 | the context window ends exactly 10 characters after the match, or at the end of the page when the page ends sooner |
| PdfParser.Assigned | src/pdfParser.js:91-134 | a page is assigned only when its text was extracted and the student's name is not empty; the assignment is the leftmost match, in the lower-cased page, of one of that student's patterns, and no pattern of an earlier student of the roster occurs there; an extracted page goes unassigned only when no pattern of any student occurs in it or the first student found has the empty name |
| PdfParser.MatchOfPage | src/pdfParser.js:97-135 | a page has a decision exactly when it is assigned, and the decision names a roster student with that student's school number |
| PdfParser.PageMatches | src/pdfParser.js:91-132 | there is one decision per page, in page order, and it is that page's own decision; what the decisions mean is stated by ParserProps.PageMatchesLocal, ParserProps.PageMatchesConsistent and ParserProps.ParseReports |
| PdfParser.ParsePdfForStudents | src/pdfParser.js:176-183 | `totalPages` is the page count whatever matched, and the missing students are roster names in roster order |
| ParserProps.BuildPatternsTokenTable | src/pdfParser.js:71-88 | the pattern table of a prepared roster holds only non-empty token patterns |
| ParserProps.MatchPageFirstWins | src/pdfParser.js:97-132 | in terms of the regular expressions: the page goes to the first roster entry one of whose patterns occurs; the forward pattern beats the reverse; the match is the leftmost; no pattern occurs on a page given to nobody |
| ParserProps.ExcerptShowsMatch | src/pdfParser.js:113-124 | for a match with non-space ends, the exact case shows the matched text itself; the context case shows the page's text covering the whole match and at most 10 characters more on each side, and leaves out of the window from 10 characters before to 10 after the match (clipped to the page) nothing but whitespace |
| ParserProps.ExcerptContext | src/pdfParser.js:119-124 | the context case of the above: the excerpt covers the match and is the window from `max(0, start - 10)` to `min(length, end + 10)` with only the whitespace at its ends removed |
| ParserProps.PageMatchesLocal | src/pdfParser.js:91-132 | a page's decision depends on that page's text alone: two pages with the same text, in the same or in different documents, are decided alike |
| ParserProps.AssignedMatch | src/pdfParser.js:104-118 | an assigned page's match is a regular-expression match of the lower-cased page, non-empty, with non-space characters of the page at both ends, so the excerpt rule above applies to it |
| ParserProps.AssignedHit | src/pdfParser.js:101-111 | an assigned page's match is the greedy match of one of its student's token patterns |
| ParserProps.MatchOnLower | src/pdfParser.js:95-111 | a match found in the lower-cased page starts and ends with non-space characters of the page as written |
| ParserProps.CountSchoolSnoc | src/pdfParser.js:138 | one more report for a school number raises its count by one and leaves other counts alone |
| ParserProps.CountSchoolPositive | src/pdfParser.js:138 | a school number has a count above zero exactly when some report carries it |
| ParserProps.ScanStep | src/pdfParser.js:134-168 | a page without a decision leaves the loop state unchanged; a decided page appends its report, adds its student to the found set, counts its school number and sets the flag when the count passes 1 |
| ParserProps.ScanPageOrder | src/pdfParser.js:91-166 | every report is its own page's report (student, excerpt, id, bytes, `pageNumber` = index + 1), and page numbers strictly ascend, so no page has two reports |
| ParserProps.OrderSnoc | src/pdfParser.js:158-166 | a report for the next page keeps the reports in page order |
| ParserProps.ScanCoversMatched | src/pdfParser.js:134-168 | every decided page has a report |
| ParserProps.CoversSnoc | src/pdfParser.js:158-166 | the next page's report extends the coverage to that page |
| ParserProps.ScanFound | src/pdfParser.js:168 | the found set holds exactly the students of the reports |
| ParserProps.FoundSnoc | src/pdfParser.js:168 | adding a report's student keeps the found set exact |
| ParserProps.ScanCounters | src/pdfParser.js:135-139 | each school number's counter equals the number of its reports |
| ParserProps.CountedSnoc | src/pdfParser.js:138-139 | counting one more report keeps every counter equal to its report count |
| ParserProps.NamedBySchoolSnoc | src/pdfParser.js:141-150 | a report named after its school number's next count keeps the naming rule |
| ParserProps.ScanFileNames | src/pdfParser.js:137-150 | the k-th report for a school number is named `{no}.pdf` and `{name}.pdf` when k is 1, and `{no}_{k-1}.pdf` and `{name}_{k-1}.pdf` after that; students sharing a number share one count |
| ParserProps.NamedStep | src/pdfParser.js:138-150 | with correct counters, the loop's names for one more report follow the naming rule |
| ParserProps.SharedSchoolNoSnoc | src/pdfParser.js:143-144 | one more report makes two reports share a school number exactly when they already did or its number was counted before |
| ParserProps.ScanDuplicates | src/pdfParser.js:68-144 | `hasDuplicates` starts false and holds exactly when two reports share a school number |
| ParserProps.DuplicatesSnoc | src/pdfParser.js:143-144 | setting the flag when a count passes 1 keeps it equal to "two reports share a number" |
| ParserProps.PageMatchesConsistent | src/pdfParser.js:134-135 | every page decision carries its student's own school number |
| ParserProps.FileNameInjective | src/pdfParser.js:143-150 | for one base name, different counts give different file names |
| ParserProps.CountSchoolGrows | src/pdfParser.js:138-139 | a school number's count strictly grows from one of its reports to a later one |
| ParserProps.CountSchoolMonotone | src/pdfParser.js:138 | counts never shrink along the reports |
| ParserProps.SameSchoolDistinctNames | src/pdfParser.js:141-150 | two reports with one school number get different school-number file names, and two reports for one student get different student file names |
| ParserProps.ParseReports | src/pdfParser.js:91-173 | the result's reports are the decided pages' own reports in strictly ascending page order, one for each decided page; a page whose text could not be extracted adds none |
| ParserProps.ParseRoster | src/pdfParser.js:176-177 | every report names a prepared student, and a prepared student is missing exactly when no report names it, so the two partition the roster |
| ParserProps.ParseNaming | src/pdfParser.js:134-150 | in the result, `hasDuplicates` holds exactly when two reports share a school number, and every report follows the per-school-number naming rule |
| DataManager.GetClasses | src/dataManager.js:49-52 | the class list holds each stored class exactly once and nothing else |
| DataManager.GetStudentsByClass | src/dataManager.js:59-62 | a known class reads as its stored roster, an unknown one as an empty roster |
| DataManager.SaveClass | src/dataManager.js:70-74 | only that class's roster changes, replaced whole; a new class goes last |
| DataManager.DeleteClass | src/dataManager.js:81-85 | exactly that class is removed, the others keep their order, and an unknown class changes nothing |
| DataManager.SaveStudent | src/dataManager.js:94-101 | the class exists afterwards (added last when new); only that student of it is set, an existing student keeping its place in the roster and a new one going last, and every other class is unchanged |
| DataManager.DeleteStudent | src/dataManager.js:109-115 | nothing is written exactly when the class is absent; otherwise only that student of that class is removed, the other students keep their order and other classes are untouched |
| DataManager.Stored | src/dataManager.js:109-115 | the store after an operation that may write nothing; its meaning is stated by DataManager.DeleteStudentThenGet and Server.RenameMovesLast |
| DataManager.SaveClassThenGet | src/dataManager.js:70-74 | reading a saved class gives the saved roster; other classes read as before; the class list grows by the class only when it is new |
| DataManager.DeleteClassThenGet | src/dataManager.js:81-85 | a deleted class is gone from the list and reads as empty; other classes read as before |
| DataManager.SaveDeleteClassRoundTrip | src/dataManager.js:70-85 | creating a new class and deleting it restores the store exactly |
| DataManager.SaveStudentThenGet | src/dataManager.js:94-101 | a saved student reads back with the saved record, and saving the same record twice is saving it once |
| DataManager.DeleteStudentThenGet | src/dataManager.js:109-115 | after deletion the class lacks that student and every other student reads as before |
| DataManager.SaveDeleteStudentRoundTrip | src/dataManager.js:94-115 | adding a new student and deleting the student again restores the store exactly |
| Server.CreateClass | src/server.js:93-103 | refused with 400 for an empty name and for an existing class, accepted otherwise; on success the class is appended with an empty roster and every other class is kept |
| Server.AddStudent | src/server.js:127-134 | refused with 400 exactly when the name or the record is missing; otherwise the store is the one the student save writes: the student reads back with that record, and every other student of the class and every other class is kept as it was |
| Server.UpdateStudent | src/server.js:149-153 | the roster afterwards is the old one without the old name (only when the name changed) plus the new name with the record; the new name keeps its place when it is still in the roster after that deletion and goes last otherwise; a class that did not exist is created last, and other classes are untouched |
| Server.RenameMovesLast | src/server.js:149-153 | a rename to a fresh name keeps the roster's size and moves the student to the end of the roster order, which is the order the matcher tries students in |
| Server.DeleteOneKey | src/dataManager.js:112 | deleting a present key from a duplicate-free key list shortens it by exactly one |
| Server.Cell | src/server.js:193-194 | a present cell reads as its text trimmed and a missing cell reads as empty; either way the result has no surrounding whitespace |
| Server.ReadRow | src/server.js:193-210 | a row gives its trimmed name and school number, and the record stores that school number; its meaning is stated by Server.MergeRowsMeaning and Server.UploadExcel |
| Server.ReadRows | src/server.js:192 | the rows are read one for one, in sheet order; its meaning is stated by Server.MergeRowsMeaning and Server.UploadExcel |
| Server.ImportRows | src/server.js:189-213 | the loop's roster is the rows applied one by one, each accepted row writing its student, and its count is the number of accepted rows |
| Server.LastRowFor | src/server.js:196-202 | finds the last accepted row for a name, and no accepted row names it when it finds none |
| Server.MergeRowsMeaning | src/server.js:189-213 | after the import, the last accepted row for a name decides that student's record; a student no accepted row names keeps the old record; nobody else is added; existing students keep their order ahead of new ones |
| Server.UploadExcel | src/server.js:179-220 | refused with 400 exactly when no file came; otherwise the merged roster replaces (or creates) the class and the answer counts the accepted rows |
| Server.Respond | src/server.js:260-275 | `foundCount` is the number of reports, `missingCount` the length of the missing list; the lists, flag and page total are passed on, and the reports are listed in order without their bytes; its use is stated by Server.ParsePdf |
| Server.ParsePdf | src/server.js:233-258 | refused with 400 without a file or class name, and with 400 when no student of the class qualifies; an unreadable PDF fails with 500 and its message; otherwise the parse result is kept and answered |
| Server.DeleteReport | src/server.js:371-379 | without a kept result, refused with 404; otherwise the reports with that id are dropped, each other report is kept as often as it occurred and in its order, and the missing list, the flag and the page total stay as they were |
| Seqs.Filter | src/server.js:378-379 | `filter` keeps, in order, each element that passes the test as often as it occurs, and drops every other element |
| Server.DeleteReportCounts | src/server.js:378-379 | deleting an id no report carries changes nothing; deleting twice is deleting once; with distinct ids, deleting a present id removes exactly one report |
| Server.DeleteOneReport | src/server.js:378-379 | with distinct ids, filtering out a present id removes exactly one report |
| Server.FindReport | src/server.js:294-296 | `find` gives the first report with the id, or none when no report has it |
| Server.DownloadPdf | src/server.js:287-307 | refused with 404 without a kept result, and with 404 exactly when no report has the id; otherwise the first such report's bytes under its student file name |
| Server.ModeNames | src/server.js:340-343 | mode `schoolNo` files each report under its school-number name, any other mode under its student name; its use is stated by Server.DownloadZipNames |
| Server.DownloadZip | src/server.js:318-354 | refused with 404 exactly when there is no kept result or no report; otherwise the archive `reports_{mode}.zip` holds one file per report, in order, with the report's bytes, under its name for the mode or a numbered variant of it, and no two files share a name |
| Server.ZipEntryNames | src/server.js:337-354 | the archive's file names are those of the corrected naming loop |
| Server.DownloadZipNames | src/server.js:337-354 | wherever the loop as written already gives distinct names, the archive uses exactly those names; when the reports' file names are distinct, each file keeps its report's file name |
| ZipNames.NameStep | src/server.js:346-352 | a name not yet counted is kept and counted 1; a name counted c is counted c+1 and gets `_{c+1}` before its first `.pdf`; its meaning is stated by ZipNames.NameAllCounts, ZipNames.NameAllMeaning and ZipNames.AgreeStep |
| ZipNames.NameAll | src/server.js:337-352 | the loop as written gives one entry name per report |
| ZipNames.NameAllCounts | src/server.js:347-351 | after the loop, each name's counter is the number of times the name occurred |
| ZipNames.NameAllPrefix | src/server.js:339-352 | the loop over the first reports gives the first entry names |
| ZipNames.NameAllMeaning | src/server.js:346-352 | the n-th report with a given name keeps it when n is 1 and has its first `.pdf` replaced by `_n.pdf` after that |
| ZipNames.EntryAt | src/server.js:346-352 | the same, for one position |
| ZipNames.EntryForPrefix | src/server.js:346-352 | a report's entry name depends only on the names up to it |
| ZipNames.EntryOfLast | src/server.js:346-352 | the same, for the last position |
| ZipNames.NameAllKeepsDistinct | src/server.js:346-352 | names that are already distinct are all kept as they are |
| ZipNames.NameAllCollides | src/server.js:346-352 | the loop as written can give two files one name: `a.pdf`, `a.pdf`, `a_2.pdf` become `a.pdf`, `a_2.pdf`, `a_2.pdf` |
| ZipNames.NamedTwice | src/server.js:346-352 | `a.pdf` twice becomes `a.pdf`, `a_2.pdf`, with `a.pdf` counted 2 |
| ZipNames.SuffixedA2 | src/server.js:349 | the second `a.pdf` is renamed `a_2.pdf` |
| ZipNames.NameAllKeepsCounted | src/server.js:347-351 | every counted name was given as an entry and is counted at least once |
| ZipNames.VariantInjective | src/server.js:349 | different counters give different numbered variants of one name |
| ZipNames.SuffixedShape | src/server.js:349 | a numbered name is the counter written just before the first `.pdf` |
| ZipNames.NumberedInjective | src/server.js:349 | different counters written between the same two strings give different strings |
| ZipNames.FreeVariant | src/server.js:346-352 | among as many consecutive counters as there are names taken, plus one, some variant is free |
| ZipNames.FirstFree | src/server.js:346-352 | finds the least counter whose variant is free |
| ZipNames.NextPick | src/server.js:346-352 | corrected turn: a name new to the archive is kept; any other gets the least free variant from one above its counter on, and the entry is never a name already given |
| ZipNames.Extend | src/server.js:346-352 | a corrected turn keeps the entry names distinct and moves the name's counter to the chosen suffix |
| ZipNames.NameAllFresh | src/server.js:337-352 | the corrected loop gives one entry name per report, all distinct |
| ZipNames.NameAllFreshShape | src/server.js:346-352 | each corrected entry name is its report's file name or a numbered variant of it |
| ZipNames.AgreeStep | src/server.js:346-352 | where a turn as written gives a new name, the corrected turn gives the same name and counter |
| ZipNames.NameAllFreshAgrees | src/server.js:337-352 | wherever the loop as written gives distinct names, the corrected loop gives the very same names and counters |

## Findings

| source | as written | input that shows it | evidently intended | confidence | as-written member | corrected member |
|---|---|---|---|---|---|---|
| src/server.js:346-352 | the archive's name counter is keyed by the file name alone, so a numbered name `x_2.pdf` can equal a later report's own file name | reports filed as `a.pdf`, `a.pdf`, `a_2.pdf` give the entries `a.pdf`, `a_2.pdf`, `a_2.pdf`: two archive files with one name | every file of the archive under its own name, numbered after its report's file name | not executed | ZipNames.NameAllCollides | ZipNames.NameAllFresh |

The parser's own file names can have this shape. It numbers repeated school numbers itself, so a school number that already ends in `_1` collides with it. Take the pages, in order, of school number `5` twice and then `5_1` three times. They get the school-number names `5.pdf`, `5_1.pdf`, `5_1.pdf`, `5_1_1.pdf`, `5_1_2.pdf`. In mode `schoolNo` the loop as written files them as `5.pdf`, `5_1.pdf`, `5_1_2.pdf`, `5_1_1.pdf`, `5_1_2.pdf`, so the third and fifth files share a name.

`ZipNames.NameAllFresh` is the loop with the counter skipping names already given. It is what `Server.DownloadZip` uses. `ZipNames.NameAllFreshAgrees` and `Server.DownloadZipNames` prove that it gives the very names of the loop as written whenever those are already distinct.

## Left out

- PDF loading, page text extraction and the single-page copy (src/pdfParser.js:16-51, 62, 153-156) are foreign library calls. A document is given as its page texts, None where extraction threw. The copy of a matched page is taken to succeed, as the same page was just read, and its bytes are the opaque `SinglePage(i)`.
- The console suppression around text extraction (src/pdfParser.js:18-27, 47-50) is global output plumbing with no effect on results.
- Name parts are read as literal tokens. The source does not escape them (src/pdfParser.js:77), so a name holding a regular-expression metacharacter would be read as a pattern there. For the characters Text.LowerChar covers, the `i` flag is covered by matching on the lower-cased page. The flag compares upper cases, so the source also pairs the micro sign `µ` with Greek `μ`, and `ς` with `σ`. Every such pair involves a Greek letter, which the model does not case-map.
- Text.LowerChar: case mapping covers ASCII, Latin-1 and the Turkish `Ğ` and `Ş`, and leaves every other character unchanged. `İ`, which `toLowerCase` turns into two code units and which would shift the offsets used at src/pdfParser.js:118 and 123, is not modelled. Neither are other scripts.
- Text.IsSpace is the ECMAScript whitespace and line-terminator set, shared by `trim`, `split(/\s+/)` and `\s`.
- Report ids come from `uuidv4()` (src/pdfParser.js:159). They are a parameter `uuid` indexed by page, so nothing assumes they are distinct. The deletion lemma states its exact-one result under distinct ids.
- Routing, multipart parsing, static files, the JSON bodies' field types and the 500 replies of the `catch` blocks in src/server.js are HTTP plumbing. A missing request field is the empty string. A record sent by the client is taken as a student record.
- Server.UpdateStudent takes the new name as a string. A request without `newName` would make the source save the record under the key `"undefined"`, which is not modelled.
- The process-wide `global.lastParseResult` slot is a parameter and a result of the handlers that use it. Replacing it on each parse is the caller's part.
- Workbook reading (`XLSX.read`, `sheet_to_json`) and the ZIP encoding (`archiver`) are library work. A sheet row arrives as its cells' texts by column header, with an empty or absent cell read as "". So a numeric cell `0`, which `||` would turn into "", is not distinguished.
- The JSON file I/O of src/dataManager.js (`loadData`, `saveData`) is left out. Each store operation maps the loaded object to the object written. So is the fallback to `{}` on a read error.
- Own-property quirks of plain objects (keys such as `__proto__`, and integer-like keys, which `Object.keys` lists first) are left out. Keys are kept in insertion order.
- public/js/settings.js and public/js/pdf-parsing.js are browser UI code, and not part of this model.
- Server.DeleteReport keeps `hasDuplicates` as it was even when the deletion removes the only shared school number, as the source does.
- Server.DownloadZip names the archive's files by the corrected loop of the finding above rather than the loop as written. The route as written is `ZipNames.NameAll`, and `Server.DownloadZipNames` states where the two agree.
