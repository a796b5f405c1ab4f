/** Properties of the matching engine: what a page's match means in terms of
    the regular expressions, what the excerpt shows, and what the page loop
    accumulates (reports, counters, duplicates, missing students). */
module ParserProps {
  import opened Wrappers
  import opened Seqs
  import opened Text
  import opened JsObject
  import opened TokenPattern
  import opened PdfParser

  /** Every pattern of the table is a non-empty sequence of tokens. */
  ghost predicate TokenTable(table: Dict<SearchInfo>) {
    forall e, j :: 0 <= e < |table.keys| && 0 <= j < |PatternsAt(table, e)| ==>
      |PatternsAt(table, e)[j]| >= 1 && Tokens(PatternsAt(table, e)[j])
  }

  /** The table built from a well-formed prepared roster is a token table. */
  lemma BuildPatternsTokenTable(prepared: Dict<Prepared>)
    requires WellFormed(prepared)
    ensures TokenTable(BuildPatterns(prepared))
  {
    var table := BuildPatterns(prepared);
    BuildPatternsTokens(prepared);
    forall e, j | 0 <= e < |table.keys| && 0 <= j < |PatternsAt(table, e)|
      ensures |PatternsAt(table, e)[j]| >= 1 && Tokens(PatternsAt(table, e)[j])
    {
      assert table.keys[e] in table.keys;
    }
  }

  /** First match wins, stated with the regular expressions themselves: the
      page is given to the first roster entry one of whose patterns occurs in
      the lower-cased text; within that entry the forward pattern is preferred
      to the reverse one; the match reported is the leftmost one. No later
      entry is looked at, and a page none of whose patterns occur gets none. */
  lemma MatchPageFirstWins(table: Dict<SearchInfo>, text: string)
    requires TokenTable(table)
    ensures MatchPage(table, text).Some? ==>
      var h := MatchPage(table, text).value;
      var lower := Lower(text);
      var pats := PatternsAt(table, h.entry);
      && h.entry < |table.keys| && h.pattern < |pats|
      && Spans(lower, h.start, h.end, pats[h.pattern])
      && (forall p: nat, e: nat :: p < h.start ==> !Spans(lower, p, e, pats[h.pattern]))
      && (forall k :: 0 <= k < h.pattern ==> !Occurs(lower, pats[k]))
      && (forall e, k :: 0 <= e < h.entry && 0 <= k < |PatternsAt(table, e)| ==> !Occurs(lower, PatternsAt(table, e)[k]))
    ensures MatchPage(table, text).None? ==>
      forall e, k :: 0 <= e < |table.keys| && 0 <= k < |PatternsAt(table, e)| ==> !Occurs(Lower(text), PatternsAt(table, e)[k])
  {
    var lower := Lower(text);
    var r := MatchPage(table, text);
    if r.Some? {
      var h := r.value;
      var pats := PatternsAt(table, h.entry);
      LeftmostIsRegexMatch(lower, pats[h.pattern]);
      forall k | 0 <= k < h.pattern ensures !Occurs(lower, pats[k]) {
        LeftmostIsRegexMatch(lower, pats[k]);
      }
      forall e, k | 0 <= e < h.entry && 0 <= k < |PatternsAt(table, e)|
        ensures !Occurs(lower, PatternsAt(table, e)[k])
      {
        assert !AnyFound(lower, PatternsAt(table, e));
        LeftmostIsRegexMatch(lower, PatternsAt(table, e)[k]);
      }
    } else {
      forall e, k | 0 <= e < |table.keys| && 0 <= k < |PatternsAt(table, e)|
        ensures !Occurs(lower, PatternsAt(table, e)[k])
      {
        assert !AnyFound(lower, PatternsAt(table, e));
        LeftmostIsRegexMatch(lower, PatternsAt(table, e)[k]);
      }
    }
  }

  /** When the match starts and ends with non-space characters, the exact
      case shows the matched text itself, and the context case shows a
      stretch of the page that contains the whole match, reaches at most 10
      characters beyond it on either side, and leaves out of the window of
      the 10 characters around the match (clipped to the page) nothing but
      whitespace. */
  lemma ExcerptShowsMatch(text: string, start: nat, end: nat)
    requires start < end <= |text|
    requires !IsSpace(text[start]) && !IsSpace(text[end - 1])
    ensures ShowsMatch(text, start, end)
  {
    if IsExact(text, start, end) {
      TrimUnpadded(text[start..end]);
    } else {
      ExcerptContext(text, start, end);
    }
  }

  /** The excerpt is the matched text itself in the exact case, and a
      stretch of the page around it otherwise. */
  ghost predicate ShowsMatch(text: string, start: nat, end: nat)
    requires start <= end <= |text|
  {
    && (IsExact(text, start, end) ==> Excerpt(text, start, end) == text[start..end])
    && (!IsExact(text, start, end) ==> ShowsAround(text, start, end))
  }

  /** The excerpt is the part of the page starting at `ExcerptStart`, covers
      `text[start..end]` and reaches at most 10 characters beyond it on
      either side; it is the window from `max(0, start - 10)` to
      `min(|text|, end + 10)` with only the whitespace at its ends removed. */
  ghost predicate ShowsAround(text: string, start: nat, end: nat)
    requires start <= end <= |text|
  {
    && start - CONTEXT_CHAR_LIMIT <= ExcerptStart(text, start, end) <= start
    && end <= ExcerptStart(text, start, end) + |Excerpt(text, start, end)| <= end + CONTEXT_CHAR_LIMIT
    && PrefixAt(text, ExcerptStart(text, start, end), Excerpt(text, start, end))
    && Stripped(text, WindowLo(start), WindowHi(text, end), ExcerptStart(text, start, end), Excerpt(text, start, end))
  }

  /** The context case of `ExcerptShowsMatch`. */
  lemma ExcerptContext(text: string, start: nat, end: nat)
    requires start < end <= |text|
    requires !IsSpace(text[start]) && !IsSpace(text[end - 1])
    requires !IsExact(text, start, end)
    ensures ShowsAround(text, start, end)
  {
    TrimWindow(text, WindowLo(start), WindowHi(text, end), start, end);
  }

  /** The decision for a page depends on that page's text alone: two pages
      with the same text, in the same or in different documents, are decided
      alike, whatever the other pages hold. */
  lemma PageMatchesLocal(table: Dict<SearchInfo>, pages: seq<Option<string>>, pages': seq<Option<string>>, i: nat, j: nat)
    requires i < |pages| && j < |pages'| && pages[i] == pages'[j]
    ensures PageMatches(table, pages)[i] == PageMatches(table, pages')[j]
  {
    assert Assigned(table, pages, i) == Assigned(table, pages', j);
  }

  /** The match of an assigned page is a regular-expression match of the
      lower-cased page, non-empty, and starts and ends with non-space
      characters of the page; so `ExcerptShowsMatch` applies to it, and the
      page's excerpt shows the matched name as written on the page. */
  lemma AssignedMatch(table: Dict<SearchInfo>, pages: seq<Option<string>>, i: nat, h: Hit)
    requires TokenTable(table) && i < |pages| && Assigned(table, pages, i) == Some(h)
    ensures pages[i].Some? && h.start < h.end <= |pages[i].value|
    ensures !IsSpace(pages[i].value[h.start]) && !IsSpace(pages[i].value[h.end - 1])
    ensures Spans(Lower(pages[i].value), h.start, h.end, PatternsAt(table, h.entry)[h.pattern])
  {
    AssignedHit(table, pages, i, h);
    MatchOnLower(pages[i].value, h.start, h.end, PatternsAt(table, h.entry)[h.pattern]);
  }

  /** An assigned page's hit is the greedy match, in the lower-cased page, of
      a token pattern of its entry. */
  lemma AssignedHit(table: Dict<SearchInfo>, pages: seq<Option<string>>, i: nat, h: Hit)
    requires TokenTable(table) && i < |pages| && Assigned(table, pages, i) == Some(h)
    ensures pages[i].Some? && h.entry < |table.keys| && h.pattern < |PatternsAt(table, h.entry)|
    ensures Tokens(PatternsAt(table, h.entry)[h.pattern]) && |PatternsAt(table, h.entry)[h.pattern]| >= 1
    ensures h.start <= |pages[i].value|
    ensures MatchAt(Lower(pages[i].value), h.start, PatternsAt(table, h.entry)[h.pattern]) == Some(h.end)
  {
    var text := pages[i].value;
    var pat := PatternsAt(table, h.entry)[h.pattern];
    assert MatchPage(table, text) == Some(h);
    assert Leftmost(Lower(text), pat) == Some((h.start, h.end));
  }

  /** A greedy match of a token pattern in the lower-cased text is a
      regular-expression match there, and starts and ends with non-space
      characters of the text itself. */
  lemma MatchOnLower(text: string, s: nat, e: nat, pat: seq<string>)
    requires Tokens(pat) && |pat| >= 1 && s <= |text|
    requires MatchAt(Lower(text), s, pat) == Some(e)
    ensures s < e <= |text|
    ensures !IsSpace(text[s]) && !IsSpace(text[e - 1])
    ensures Spans(Lower(text), s, e, pat)
  {
    var lower := Lower(text);
    MatchEnds(lower, s, pat);
    assert !IsSpace(lower[s]) && !IsSpace(lower[e - 1]);
    LowerKeepsSpace(text, s);
    LowerKeepsSpace(text, e - 1);
    MatchAtIsSpans(Lower(text), s, e, pat);
  }

  // ---------------------------------------------------------------- page loop

  /** How many of `reports` belong to a student whose school number is `s`. */
  function CountSchool(table: Dict<SearchInfo>, reports: seq<Report>, s: string): nat
    decreases |reports|
  {
    if |reports| == 0 then 0
    else
      CountSchool(table, reports[..|reports| - 1], s)
      + (if SchoolOf(table, reports[|reports| - 1].studentName) == s then 1 else 0)
  }

  /** The school number of a roster entry ("" for a name not in the table). */
  function SchoolOf(table: Dict<SearchInfo>, name: string): string {
    if name in table.values then table.values[name].schoolNo else ""
  }

  /** Each decision names a roster entry and carries its school number. */
  ghost predicate Consistent(table: Dict<SearchInfo>, matches: seq<Option<PageMatch>>) {
    forall i :: 0 <= i < |matches| && matches[i].Some? ==>
      matches[i].value.student in table.values && matches[i].value.schoolNo == table.values[matches[i].value.student].schoolNo
  }

  /** Counting over one more report. */
  lemma CountSchoolSnoc(table: Dict<SearchInfo>, reports: seq<Report>, r: Report, s: string)
    ensures CountSchool(table, reports + [r], s)
         == CountSchool(table, reports, s) + (if SchoolOf(table, r.studentName) == s then 1 else 0)
  {
    assert (reports + [r])[..|reports|] == reports;
  }

  /** A school number is counted at least once iff some report carries it. */
  lemma {:induction false} CountSchoolPositive(table: Dict<SearchInfo>, reports: seq<Report>, s: string)
    ensures CountSchool(table, reports, s) > 0 <==>
      exists k :: 0 <= k < |reports| && SchoolOf(table, reports[k].studentName) == s
    decreases |reports|
  {
    if |reports| > 0 {
      var init := reports[..|reports| - 1];
      CountSchoolPositive(table, init, s);
      assert forall k :: 0 <= k < |init| ==> init[k] == reports[k];
      if CountSchool(table, init, s) > 0 {
        var k :| 0 <= k < |init| && SchoolOf(table, init[k].studentName) == s;
        assert SchoolOf(table, reports[k].studentName) == s;
      }
    }
  }

  /** `r` is the report the loop makes for its page. */
  ghost predicate IsPageReport(matches: seq<Option<PageMatch>>, uuid: nat -> string, r: Report) {
    && 1 <= r.pageNumber <= |matches|
    && matches[r.pageNumber - 1].Some?
    && r.studentName == matches[r.pageNumber - 1].value.student
    && r.matchedText == matches[r.pageNumber - 1].value.matchedText
    && r.id == uuid(r.pageNumber - 1)
    && r.pdfBytes == SinglePage(r.pageNumber - 1)
  }

  /** The loop state after `n` pages, in terms of the state after `n - 1`. */
  lemma ScanStep(matches: seq<Option<PageMatch>>, uuid: nat -> string, n: nat)
    requires 0 < n <= |matches|
    ensures matches[n - 1].None? ==> ScanPages(matches, uuid, n) == ScanPages(matches, uuid, n - 1)
    ensures matches[n - 1].Some? ==>
      ScanPages(matches, uuid, n).reports
      == ScanPages(matches, uuid, n - 1).reports + [PageReport(matches[n - 1].value, uuid, ScanPages(matches, uuid, n - 1).counts, n - 1)]
    ensures matches[n - 1].Some? ==>
      ScanPages(matches, uuid, n).found == ScanPages(matches, uuid, n - 1).found + {matches[n - 1].value.student}
    ensures matches[n - 1].Some? ==>
      ScanPages(matches, uuid, n).counts
      == ScanPages(matches, uuid, n - 1).counts[matches[n - 1].value.schoolNo := NextCount(ScanPages(matches, uuid, n - 1).counts, matches[n - 1].value)]
    ensures matches[n - 1].Some? ==>
      ScanPages(matches, uuid, n).hasDuplicates
      == (ScanPages(matches, uuid, n - 1).hasDuplicates || NextCount(ScanPages(matches, uuid, n - 1).counts, matches[n - 1].value) > 1)
  {
  }

  /** Every report is its page's own report, and the reports come in strictly
      ascending page order, so no page has two. */
  ghost predicate PagesInOrder(matches: seq<Option<PageMatch>>, uuid: nat -> string, n: nat, reports: seq<Report>) {
    && (forall k :: 0 <= k < |reports| ==> reports[k].pageNumber <= n && IsPageReport(matches, uuid, reports[k]))
    && (forall k1, k2 :: 0 <= k1 < k2 < |reports| ==> reports[k1].pageNumber < reports[k2].pageNumber)
  }

  lemma {:induction false} ScanPageOrder(matches: seq<Option<PageMatch>>, uuid: nat -> string, n: nat)
    requires n <= |matches|
    ensures PagesInOrder(matches, uuid, n, ScanPages(matches, uuid, n).reports)
    decreases n
  {
    if n > 0 {
      ScanPageOrder(matches, uuid, n - 1);
      ScanStep(matches, uuid, n);
      var prev := ScanPages(matches, uuid, n - 1);
      if matches[n - 1].Some? {
        OrderSnoc(matches, uuid, n, prev.reports, PageReport(matches[n - 1].value, uuid, prev.counts, n - 1));
      }
    }
  }

  /** The report of page `n` may follow the reports of the earlier pages. */
  lemma OrderSnoc(matches: seq<Option<PageMatch>>, uuid: nat -> string, n: nat, reports: seq<Report>, r: Report)
    requires 0 < n && PagesInOrder(matches, uuid, n - 1, reports)
    requires r.pageNumber == n && IsPageReport(matches, uuid, r)
    ensures PagesInOrder(matches, uuid, n, reports + [r])
  {
  }

  /** Every page matched so far has a report. */
  ghost predicate CoversMatched(matches: seq<Option<PageMatch>>, n: nat, reports: seq<Report>)
    requires n <= |matches|
  {
    forall i :: 0 <= i < n && matches[i].Some? ==>
      exists k :: 0 <= k < |reports| && reports[k].pageNumber == i + 1
  }

  lemma {:induction false} ScanCoversMatched(matches: seq<Option<PageMatch>>, uuid: nat -> string, n: nat)
    requires n <= |matches|
    ensures CoversMatched(matches, n, ScanPages(matches, uuid, n).reports)
    decreases n
  {
    if n > 0 {
      ScanCoversMatched(matches, uuid, n - 1);
      ScanStep(matches, uuid, n);
      var prev := ScanPages(matches, uuid, n - 1);
      if matches[n - 1].Some? {
        CoversSnoc(matches, n, prev.reports, PageReport(matches[n - 1].value, uuid, prev.counts, n - 1));
      }
    }
  }

  /** A report for page `n` extends the coverage to the first `n` pages. */
  lemma CoversSnoc(matches: seq<Option<PageMatch>>, n: nat, reports: seq<Report>, r: Report)
    requires 0 < n <= |matches| && CoversMatched(matches, n - 1, reports)
    requires r.pageNumber == n
    ensures CoversMatched(matches, n, reports + [r])
  {
    var all := reports + [r];
    forall i | 0 <= i < n && matches[i].Some?
      ensures exists k :: 0 <= k < |all| && all[k].pageNumber == i + 1
    {
      if i < n - 1 {
        var k :| 0 <= k < |reports| && reports[k].pageNumber == i + 1;
        assert all[k] == reports[k];
      } else {
        assert all[|reports|] == r;
      }
    }
  }

  /** The found set holds exactly the students of the reports. */
  ghost predicate FoundAre(found: set<string>, reports: seq<Report>) {
    forall x :: x in found <==> exists k :: 0 <= k < |reports| && reports[k].studentName == x
  }

  lemma {:induction false} ScanFound(matches: seq<Option<PageMatch>>, uuid: nat -> string, n: nat)
    requires n <= |matches|
    ensures FoundAre(ScanPages(matches, uuid, n).found, ScanPages(matches, uuid, n).reports)
    decreases n
  {
    if n > 0 {
      ScanFound(matches, uuid, n - 1);
      ScanStep(matches, uuid, n);
      var prev := ScanPages(matches, uuid, n - 1);
      if matches[n - 1].Some? {
        FoundSnoc(prev.found, prev.reports, PageReport(matches[n - 1].value, uuid, prev.counts, n - 1));
      }
    }
  }

  /** Remembering the student of one more report keeps the found set exact. */
  lemma FoundSnoc(found: set<string>, reports: seq<Report>, r: Report)
    requires FoundAre(found, reports)
    ensures FoundAre(found + {r.studentName}, reports + [r])
  {
    var all := reports + [r];
    var m := |reports|;
    forall x ensures x in found + {r.studentName} <==> exists k :: 0 <= k < |all| && all[k].studentName == x {
      if x in found {
        var k :| 0 <= k < m && reports[k].studentName == x;
        assert all[k] == reports[k];
      }
      if x == r.studentName {
        assert all[m] == r;
      }
      if k :| 0 <= k < |all| && all[k].studentName == x {
        if k < m { assert reports[k] == all[k]; }
      }
    }
  }

  /** The counter of each school number is the number of reports for it. */
  ghost predicate Counted(table: Dict<SearchInfo>, counts: map<string, nat>, reports: seq<Report>) {
    forall s :: CountOf(counts, s) == CountSchool(table, reports, s)
  }

  lemma {:induction false} ScanCounters(table: Dict<SearchInfo>, matches: seq<Option<PageMatch>>, uuid: nat -> string, n: nat)
    requires n <= |matches| && Consistent(table, matches)
    ensures Counted(table, ScanPages(matches, uuid, n).counts, ScanPages(matches, uuid, n).reports)
    decreases n
  {
    if n > 0 {
      ScanCounters(table, matches, uuid, n - 1);
      ScanStep(matches, uuid, n);
      var prev := ScanPages(matches, uuid, n - 1);
      if matches[n - 1].Some? {
        var m := matches[n - 1].value;
        var r := PageReport(m, uuid, prev.counts, n - 1);
        assert SchoolOf(table, r.studentName) == m.schoolNo;
        CountedSnoc(table, prev.counts, prev.reports, r, m.schoolNo);
      }
    }
  }

  /** Counting the school number of one more report keeps the counters
      right. */
  lemma CountedSnoc(table: Dict<SearchInfo>, counts: map<string, nat>, reports: seq<Report>, r: Report, s: string)
    requires Counted(table, counts, reports) && SchoolOf(table, r.studentName) == s
    ensures Counted(table, counts[s := CountOf(counts, s) + 1], reports + [r])
  {
    forall t ensures CountOf(counts[s := CountOf(counts, s) + 1], t) == CountSchool(table, reports + [r], t) {
      CountSchoolSnoc(table, reports, r, t);
    }
  }

  /** The k-th report for a school number is named `{no}.pdf`/`{name}.pdf`
      when k is 1 and `{no}_{k-1}.pdf`/`{name}_{k-1}.pdf` after that. The
      counter is keyed by school number, so two students sharing a number
      share one sequence of suffixes. */
  ghost predicate NamedBySchool(table: Dict<SearchInfo>, reports: seq<Report>) {
    forall k :: 0 <= k < |reports| ==>
      var c := CountSchool(table, reports[..k + 1], SchoolOf(table, reports[k].studentName));
      && c >= 1
      && reports[k].fileNameSchoolNo == FileName(SchoolOf(table, reports[k].studentName), c)
      && reports[k].fileNameStudent == FileName(reports[k].studentName, c)
  }

  /** Appending a report named after its school's next count keeps the
      naming rule. */
  lemma NamedBySchoolSnoc(table: Dict<SearchInfo>, reports: seq<Report>, r: Report)
    requires NamedBySchool(table, reports)
    requires
      var c := CountSchool(table, reports, SchoolOf(table, r.studentName)) + 1;
      r.fileNameSchoolNo == FileName(SchoolOf(table, r.studentName), c) && r.fileNameStudent == FileName(r.studentName, c)
    ensures NamedBySchool(table, reports + [r])
  {
    var all := reports + [r];
    forall k | 0 <= k < |all|
      ensures
        var c := CountSchool(table, all[..k + 1], SchoolOf(table, all[k].studentName));
        && c >= 1
        && all[k].fileNameSchoolNo == FileName(SchoolOf(table, all[k].studentName), c)
        && all[k].fileNameStudent == FileName(all[k].studentName, c)
    {
      if k < |reports| {
        assert all[..k + 1] == reports[..k + 1];
      } else {
        assert all[..k + 1] == all;
        CountSchoolSnoc(table, reports, r, SchoolOf(table, r.studentName));
      }
    }
  }

  /** The loop names every report by the rule above. */
  lemma {:induction false} ScanFileNames(table: Dict<SearchInfo>, matches: seq<Option<PageMatch>>, uuid: nat -> string, n: nat)
    requires n <= |matches| && Consistent(table, matches)
    ensures NamedBySchool(table, ScanPages(matches, uuid, n).reports)
    decreases n
  {
    if n > 0 {
      ScanFileNames(table, matches, uuid, n - 1);
      ScanCounters(table, matches, uuid, n - 1);
      ScanStep(matches, uuid, n);
      var prev := ScanPages(matches, uuid, n - 1);
      if matches[n - 1].Some? {
        var m := matches[n - 1].value;
        var r := PageReport(m, uuid, prev.counts, n - 1);
        assert SchoolOf(table, r.studentName) == m.schoolNo;
        NamedStep(table, prev.reports, prev.counts, r, m.schoolNo);
      }
    }
  }

  /** A report named after the next count of its school number keeps the
      naming rule when the counters are right. */
  lemma NamedStep(table: Dict<SearchInfo>, reports: seq<Report>, counts: map<string, nat>, r: Report, s: string)
    requires NamedBySchool(table, reports) && Counted(table, counts, reports)
    requires SchoolOf(table, r.studentName) == s
    requires r.fileNameSchoolNo == FileName(s, CountOf(counts, s) + 1)
    requires r.fileNameStudent == FileName(r.studentName, CountOf(counts, s) + 1)
    ensures NamedBySchool(table, reports + [r])
  {
    assert CountOf(counts, s) == CountSchool(table, reports, s);
    NamedBySchoolSnoc(table, reports, r);
  }

  /** Two reports share a school number. */
  ghost predicate SharedSchoolNo(table: Dict<SearchInfo>, reports: seq<Report>) {
    exists k1, k2 :: 0 <= k1 < k2 < |reports|
      && SchoolOf(table, reports[k1].studentName) == SchoolOf(table, reports[k2].studentName)
  }

  /** One more report creates a shared school number iff its number was
      already counted. */
  lemma SharedSchoolNoSnoc(table: Dict<SearchInfo>, reports: seq<Report>, r: Report)
    ensures SharedSchoolNo(table, reports + [r]) <==>
      SharedSchoolNo(table, reports) || CountSchool(table, reports, SchoolOf(table, r.studentName)) > 0
  {
    var s := SchoolOf(table, r.studentName);
    CountSchoolPositive(table, reports, s);
    if CountSchool(table, reports, s) > 0 {
      var k :| 0 <= k < |reports| && SchoolOf(table, reports[k].studentName) == s;
      SharedWithLast(table, reports, r, k);
    }
    if SharedSchoolNo(table, reports) {
      SharedBefore(table, reports, r);
    }
    if SharedSchoolNo(table, reports + [r]) {
      SharedSplit(table, reports, r);
    }
  }

  /** An earlier report sharing the new report's number makes a pair. */
  lemma SharedWithLast(table: Dict<SearchInfo>, reports: seq<Report>, r: Report, k: nat)
    requires k < |reports| && SchoolOf(table, reports[k].studentName) == SchoolOf(table, r.studentName)
    ensures SharedSchoolNo(table, reports + [r])
  {
    var all := reports + [r];
    assert all[k] == reports[k] && all[|reports|] == r;
  }

  /** A pair among the earlier reports stays a pair. */
  lemma SharedBefore(table: Dict<SearchInfo>, reports: seq<Report>, r: Report)
    requires SharedSchoolNo(table, reports)
    ensures SharedSchoolNo(table, reports + [r])
  {
    var all := reports + [r];
    var k1, k2 :| 0 <= k1 < k2 < |reports|
      && SchoolOf(table, reports[k1].studentName) == SchoolOf(table, reports[k2].studentName);
    assert all[k1] == reports[k1] && all[k2] == reports[k2];
  }

  /** A pair after the new report is an earlier pair or involves the new
      report. */
  lemma SharedSplit(table: Dict<SearchInfo>, reports: seq<Report>, r: Report)
    requires SharedSchoolNo(table, reports + [r])
    ensures SharedSchoolNo(table, reports)
         || exists k :: 0 <= k < |reports| && SchoolOf(table, reports[k].studentName) == SchoolOf(table, r.studentName)
  {
    var all := reports + [r];
    var k1, k2 :| 0 <= k1 < k2 < |all|
      && SchoolOf(table, all[k1].studentName) == SchoolOf(table, all[k2].studentName);
    assert all[k1] == reports[k1];
    if k2 < |reports| {
      assert all[k2] == reports[k2];
    } else {
      assert all[k2] == r;
    }
  }

  /** `hasDuplicates` starts false and holds after `n` pages iff two of the
      reports share a school number. */
  lemma {:induction false} ScanDuplicates(table: Dict<SearchInfo>, matches: seq<Option<PageMatch>>, uuid: nat -> string, n: nat)
    requires n <= |matches| && Consistent(table, matches)
    ensures ScanPages(matches, uuid, n).hasDuplicates <==> SharedSchoolNo(table, ScanPages(matches, uuid, n).reports)
    decreases n
  {
    if n > 0 {
      ScanDuplicates(table, matches, uuid, n - 1);
      ScanCounters(table, matches, uuid, n - 1);
      ScanStep(matches, uuid, n);
      var prev := ScanPages(matches, uuid, n - 1);
      if matches[n - 1].Some? {
        var m := matches[n - 1].value;
        var r := PageReport(m, uuid, prev.counts, n - 1);
        assert SchoolOf(table, r.studentName) == m.schoolNo;
        DuplicatesSnoc(table, prev.counts, prev.reports, r, m.schoolNo, prev.hasDuplicates);
      }
    }
  }

  /** The flag after one more report: set iff the report's school number
      was counted before or it was already set. */
  lemma DuplicatesSnoc(table: Dict<SearchInfo>, counts: map<string, nat>, reports: seq<Report>, r: Report, s: string, flag: bool)
    requires Counted(table, counts, reports) && SchoolOf(table, r.studentName) == s
    requires flag <==> SharedSchoolNo(table, reports)
    ensures (flag || CountOf(counts, s) + 1 > 1) <==> SharedSchoolNo(table, reports + [r])
  {
    assert CountOf(counts, s) == CountSchool(table, reports, s);
    SharedSchoolNoSnoc(table, reports, r);
  }

  // ---------------------------------------------------------------- file names

  /** The per-page decisions of the parser name roster entries with their
      own school numbers. */
  lemma PageMatchesConsistent(table: Dict<SearchInfo>, pages: seq<Option<string>>)
    ensures Consistent(table, PageMatches(table, pages))
  {
  }

  /** For one base name, different counts give different file names. */
  lemma FileNameInjective(base: string, c1: nat, c2: nat)
    requires c1 >= 1 && c2 >= 1
    requires FileName(base, c1) == FileName(base, c2)
    ensures c1 == c2
  {
    var f1 := FileName(base, c1);
    if c1 > 1 && c2 > 1 {
      var d1 := NatToString(c1 - 1);
      var d2 := NatToString(c2 - 1);
      assert |d1| == |d2|;
      assert d1 == f1[|base| + 1..|base| + 1 + |d1|];
      assert d2 == f1[|base| + 1..|base| + 1 + |d2|];
      NatToStringInjective(c1 - 1, c2 - 1);
    }
  }

  /** Along the reports, the count of a school number grows by one at each of
      its reports. */
  lemma {:induction false} CountSchoolGrows(table: Dict<SearchInfo>, reports: seq<Report>, k1: nat, k2: nat)
    requires k1 < k2 < |reports|
    requires SchoolOf(table, reports[k2].studentName) == SchoolOf(table, reports[k1].studentName)
    ensures CountSchool(table, reports[..k1 + 1], SchoolOf(table, reports[k1].studentName))
          < CountSchool(table, reports[..k2 + 1], SchoolOf(table, reports[k1].studentName))
    decreases k2 - k1
  {
    var s := SchoolOf(table, reports[k1].studentName);
    var pre := reports[..k2 + 1];
    assert pre[..k2] == reports[..k2];
    assert pre[k2] == reports[k2];
    CountSchoolSnoc(table, reports[..k2], reports[k2], s);
    assert pre == reports[..k2] + [reports[k2]];
    if k1 + 1 < k2 {
      CountSchoolMonotone(table, reports, k1 + 1, k2, s);
    } else {
      assert reports[..k2] == reports[..k1 + 1];
    }
  }

  /** Counts over longer prefixes are never smaller. */
  lemma {:induction false} CountSchoolMonotone(table: Dict<SearchInfo>, reports: seq<Report>, i: nat, j: nat, s: string)
    requires i <= j <= |reports|
    ensures CountSchool(table, reports[..i], s) <= CountSchool(table, reports[..j], s)
    decreases j - i
  {
    if i < j {
      CountSchoolMonotone(table, reports, i, j - 1, s);
      CountSchoolSnoc(table, reports[..j - 1], reports[j - 1], s);
      assert reports[..j] == reports[..j - 1] + [reports[j - 1]];
    }
  }

  /** Under the naming rule, two reports for the same school number get
      different school-number file names, and two reports for the same
      student get different student file names. */
  lemma SameSchoolDistinctNames(table: Dict<SearchInfo>, reports: seq<Report>, k1: nat, k2: nat)
    requires NamedBySchool(table, reports)
    requires k1 < k2 < |reports|
    ensures SchoolOf(table, reports[k1].studentName) == SchoolOf(table, reports[k2].studentName)
      ==> reports[k1].fileNameSchoolNo != reports[k2].fileNameSchoolNo
    ensures reports[k1].studentName == reports[k2].studentName
      ==> reports[k1].fileNameStudent != reports[k2].fileNameStudent
  {
    var s := SchoolOf(table, reports[k1].studentName);
    if SchoolOf(table, reports[k2].studentName) == s {
      CountSchoolGrows(table, reports, k1, k2);
      var c1 := CountSchool(table, reports[..k1 + 1], s);
      var c2 := CountSchool(table, reports[..k2 + 1], s);
      if reports[k1].fileNameSchoolNo == reports[k2].fileNameSchoolNo {
        FileNameInjective(s, c1, c2);
      }
      if reports[k1].studentName == reports[k2].studentName && reports[k1].fileNameStudent == reports[k2].fileNameStudent {
        FileNameInjective(reports[k1].studentName, c1, c2);
      }
    }
  }

  // ---------------------------------------------------------------- outcome

  /** The reports of `parsePdfForStudents` are the matched pages' reports, in
      strictly ascending page order, one for each matched page. */
  lemma ParseReports(studentInfo: Dict<Prepared>, pages: seq<Option<string>>, uuid: nat -> string)
    ensures
      var table := BuildPatterns(studentInfo);
      var reports := ParsePdfForStudents(studentInfo, pages, uuid).foundReports;
      && (forall k :: 0 <= k < |reports| ==> IsPageReport(PageMatches(table, pages), uuid, reports[k]))
      && (forall k1, k2 :: 0 <= k1 < k2 < |reports| ==> reports[k1].pageNumber < reports[k2].pageNumber)
      && (forall i :: 0 <= i < |pages| && Assigned(table, pages, i).Some? ==>
            exists k :: 0 <= k < |reports| && reports[k].pageNumber == i + 1)
  {
    var table := BuildPatterns(studentInfo);
    var matches := PageMatches(table, pages);
    ScanPageOrder(matches, uuid, |pages|);
    ScanCoversMatched(matches, uuid, |pages|);
    var reports := ScanPages(matches, uuid, |pages|).reports;
    assert ParsePdfForStudents(studentInfo, pages, uuid).foundReports == reports;
    assert forall i :: 0 <= i < |pages| ==> (Assigned(table, pages, i).Some? <==> matches[i].Some?);
  }

  /** Every report names a roster entry, and a roster entry is missing iff no
      report names it: the missing list and the report names partition the
      roster. */
  lemma ParseRoster(studentInfo: Dict<Prepared>, pages: seq<Option<string>>, uuid: nat -> string)
    ensures
      var r := ParsePdfForStudents(studentInfo, pages, uuid);
      && (forall k :: 0 <= k < |r.foundReports| ==> r.foundReports[k].studentName in studentInfo.values)
      && (forall n :: n in r.missingStudents <==>
            n in studentInfo.values && forall k :: 0 <= k < |r.foundReports| ==> r.foundReports[k].studentName != n)
  {
    var table := BuildPatterns(studentInfo);
    var matches := PageMatches(table, pages);
    PageMatchesConsistent(table, pages);
    ScanPageOrder(matches, uuid, |pages|);
    ScanFound(matches, uuid, |pages|);
    var st := ScanPages(matches, uuid, |pages|);
    forall k | 0 <= k < |st.reports| ensures st.reports[k].studentName in studentInfo.values {
      assert IsPageReport(matches, uuid, st.reports[k]);
    }
  }

  /** `hasDuplicates` holds iff two reports share a school number, and the
      file names follow the per-school-number counter. */
  lemma ParseNaming(studentInfo: Dict<Prepared>, pages: seq<Option<string>>, uuid: nat -> string)
    ensures
      var table := BuildPatterns(studentInfo);
      var r := ParsePdfForStudents(studentInfo, pages, uuid);
      && (r.hasDuplicates <==> SharedSchoolNo(table, r.foundReports))
      && NamedBySchool(table, r.foundReports)
  {
    var table := BuildPatterns(studentInfo);
    var matches := PageMatches(table, pages);
    PageMatchesConsistent(table, pages);
    ScanDuplicates(table, matches, uuid, |pages|);
    ScanFileNames(table, matches, uuid, |pages|);
  }
}
