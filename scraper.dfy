/**
 * `ErrataScraper`: the control flow of one extraction run. Signing in,
 * fetching a page, the backup copy and the file write are given as their
 * outcomes; the scraper keeps the records it has collected (`all_errata`,
 * never reset between runs), the URLs it recorded metadata for, and how
 * often it has signed out.
 */
module Scraper {
  import opened Records
  import Csv
  import CsvChecks
  import Extraction
  import Grades
  import Text

  /** What fetching one configured page gives. */
  datatype Fetch =
    | NoConnection                    // no signed-in driver or session
    | Raised                          // loading the page raised
    | Loaded(page: Extraction.Page)   // the page loaded and its metadata was recorded

  /** A configured page: its full URL and what fetching it gives. */
  datatype PageTask = PageTask(url: string, fetch: Fetch)

  /** The browser backend's records of a page. */
  function BrowserPageRecords(page: Extraction.Page, today: string): seq<Record> {
    if page.sections.None? then []
    else Extraction.PageRecords(page.sections.value, Grades.BrowserGrade(page.title, page.url), today)
  }

  /**
   * `_extract_from_single_page`. The HTML backend is handed the markup
   * alone, so it sees neither the title nor the URL of the page, and every
   * record it gives carries the grade "Unknown Grade" (`SoupGradeUnknown`).
   */
  function PageErrata(fetch: Fetch, useSelenium: bool, today: string): seq<Record> {
    match fetch
    case Loaded(page) =>
      if useSelenium then BrowserPageRecords(page, today)
      else if page.sections.None? then []
      else Extraction.PageRecords(page.sections.value, Grades.UnknownGrade, today)
    case _ => []
  }

  /** The records of the configured pages, in page order. */
  function AllErrata(tasks: seq<PageTask>, useSelenium: bool, today: string): seq<Record>
    decreases |tasks|
  {
    if tasks == [] then []
    else AllErrata(tasks[..|tasks| - 1], useSelenium, today) + PageErrata(tasks[|tasks| - 1].fetch, useSelenium, today)
  }

  /** The URLs whose page loaded. */
  function LoadedUrls(tasks: seq<PageTask>): set<string> {
    set i | 0 <= i < |tasks| && tasks[i].fetch.Loaded? :: tasks[i].url
  }

  /** The records after `errata['Date_Extracted'] = current_time` where it was missing. */
  function StampAll(rs: seq<Record>, now: string): seq<Record> {
    seq(|rs|, i requires 0 <= i < |rs| => Csv.Stamped(rs[i], now))
  }

  /**
   * How the save step treats the file: `AsWritten` deduplicates as the
   * source does and writes with the default mode 'w'; `Intended` compares
   * keys as text and appends, as an incremental update means to.
   */
  datatype Variant = AsWritten | Intended

  function SaveMode(v: Variant): Csv.Mode {
    if v == AsWritten then Csv.Overwrite else Csv.Append
  }

  /** The records the save step writes: those whose key the file does not hold yet. */
  function ToWrite(v: Variant, all: seq<Record>, lines: seq<seq<string>>): seq<Record> {
    if v == AsWritten then Csv.Deduplicated(all, lines, Csv.KeyColumns)
    else Csv.DeduplicatedIntended(all, lines, Csv.KeyColumns)
  }

  class ErrataScraper {
    const writer: Csv.CsvWriter
    /** `all_errata`. */
    var allErrata: seq<Record>
    /** The keys of `extraction_metadata`. */
    var metadataUrls: set<string>
    /** How often `authenticator.logout()` has run. */
    var logouts: nat

    constructor (writer: Csv.CsvWriter)
      ensures this.writer == writer
      ensures allErrata == [] && metadataUrls == {} && logouts == 0
    {
      this.writer := writer;
      allErrata := [];
      metadataUrls := {};
      logouts := 0;
    }

    /** `_extract_from_single_page`: failures give no records. */
    method ExtractFromSinglePage(task: PageTask, useSelenium: bool, today: string) returns (errata: seq<Record>)
      modifies this
      ensures errata == PageErrata(task.fetch, useSelenium, today)
      ensures metadataUrls == old(metadataUrls) + (if task.fetch.Loaded? then {task.url} else {})
      ensures allErrata == old(allErrata) && logouts == old(logouts)
    {
      match task.fetch
      case NoConnection =>
        return [];
      case Raised =>
        return [];
      case Loaded(page) =>
        metadataUrls := metadataUrls + {task.url};
        if useSelenium {
          errata := Extraction.ParsePageWithBrowser(page, today);
        } else {
          errata := Extraction.ParsePageWithSoup(Extraction.Page([], [], page.sections), today);
          SoupGradeUnknown(page.sections, today);
        }
    }

    /**
     * `_extract_all_errata`: every page's records are added in page order;
     * the result says whether any records are held, counting those left
     * from earlier runs.
     */
    method ExtractAllErrata(tasks: seq<PageTask>, useSelenium: bool, today: string) returns (ok: bool)
      modifies this
      ensures allErrata == old(allErrata) + AllErrata(tasks, useSelenium, today)
      ensures metadataUrls == old(metadataUrls) + LoadedUrls(tasks)
      ensures logouts == old(logouts)
      ensures ok <==> allErrata != []
    {
      ghost var start, startUrls := allErrata, metadataUrls;
      for i := 0 to |tasks|
        invariant allErrata == start + AllErrata(tasks[..i], useSelenium, today)
        invariant metadataUrls == startUrls + LoadedUrls(tasks[..i])
        invariant logouts == old(logouts)
      {
        var pageErrata := ExtractFromSinglePage(tasks[i], useSelenium, today);
        ghost var before := allErrata;
        if pageErrata != [] {
          allErrata := allErrata + pageErrata;
        } else {
          Text.AppendNothing(before);
        }
        PrefixStep(tasks, i, useSelenium, today);
        Extend(allErrata, start, before, AllErrata(tasks[..i], useSelenium, today), pageErrata, AllErrata(tasks[..i + 1], useSelenium, today));
      }
      assert tasks[..|tasks|] == tasks;
      ok := |allErrata| > 0;
    }

    /**
     * The save step: validate (warnings are only logged), deduplicate, back
     * up (a failed backup is only logged), write.
     */
    method Save(v: Variant, now: string, backupOk: bool, writable: bool) returns (ok: bool)
      modifies writer
      ensures allErrata == [] ==> !ok
      ensures allErrata == [] || ToWrite(v, allErrata, old(writer.lines)) == [] || !writable ==>
        writer.present == old(writer.present) && writer.lines == old(writer.lines)
      ensures allErrata != [] ==> (ok <==> ToWrite(v, allErrata, old(writer.lines)) == [] || writable)
      ensures allErrata != [] && ToWrite(v, allErrata, old(writer.lines)) != [] && writable ==>
        && writer.present
        && writer.lines == Csv.LinesAfter(SaveMode(v), old(writer.present), old(writer.lines), writer.columns,
             Csv.Lines(StampAll(ToWrite(v, allErrata, old(writer.lines)), now), writer.columns))
    {
      if allErrata == [] {
        return false;
      }
      var warnings := CsvChecks.ValidateData(allErrata);
      var deduplicated;
      if v == AsWritten {
        deduplicated := writer.DeduplicateErrataAsWritten(allErrata);
      } else {
        deduplicated := writer.DeduplicateErrata(allErrata);
      }
      if deduplicated == [] {
        return true;
      }
      // the outcome of `create_backup` only decides whether a warning is logged
      var stamped;
      ok, stamped := writer.WriteErrataData(deduplicated, SaveMode(v), now, writable);
      assert stamped == StampAll(deduplicated, now);
    }

    /** `_process_and_save_data`: the deduplicated records replace the file, header first. */
    method ProcessAndSaveData(now: string, backupOk: bool, writable: bool) returns (ok: bool)
      modifies writer
      ensures allErrata == [] ==> !ok
      ensures allErrata == [] || ToWrite(AsWritten, allErrata, old(writer.lines)) == [] || !writable ==>
        writer.present == old(writer.present) && writer.lines == old(writer.lines)
      ensures allErrata != [] ==> (ok <==> ToWrite(AsWritten, allErrata, old(writer.lines)) == [] || writable)
      ensures allErrata != [] && ToWrite(AsWritten, allErrata, old(writer.lines)) != [] && writable ==>
        writer.lines == [writer.columns] + Csv.Lines(StampAll(ToWrite(AsWritten, allErrata, old(writer.lines)), now), writer.columns)
    {
      ok := Save(AsWritten, now, backupOk, writable);
    }

    /** `_process_and_save_data` appending, as an incremental update means to: what the file held stays. */
    method ProcessAndSaveDataIntended(now: string, backupOk: bool, writable: bool) returns (ok: bool)
      modifies writer
      ensures allErrata == [] ==> !ok
      ensures allErrata == [] || ToWrite(Intended, allErrata, old(writer.lines)) == [] || !writable ==>
        writer.present == old(writer.present) && writer.lines == old(writer.lines)
      ensures allErrata != [] ==> (ok <==> ToWrite(Intended, allErrata, old(writer.lines)) == [] || writable)
      ensures allErrata != [] && ToWrite(Intended, allErrata, old(writer.lines)) != [] && writable ==>
        && writer.present
        && writer.lines == Csv.LinesAfter(Csv.Append, old(writer.present), old(writer.lines), writer.columns,
             Csv.Lines(StampAll(ToWrite(Intended, allErrata, old(writer.lines)), now), writer.columns))
    {
      ok := Save(Intended, now, backupOk, writable);
    }

    /**
     * One run: sign in, extract, save, summarise, each stage only after the
     * previous one succeeded; signing out runs on every path.
     */
    method Run(v: Variant, useSelenium: bool, authOk: bool, tasks: seq<PageTask>, today: string, now: string, backupOk: bool, writable: bool)
      returns (ok: bool)
      modifies this, writer
      ensures logouts == old(logouts) + 1
      ensures !authOk ==> allErrata == old(allErrata) && metadataUrls == old(metadataUrls)
      ensures authOk ==> allErrata == old(allErrata) + AllErrata(tasks, useSelenium, today)
      ensures authOk ==> metadataUrls == old(metadataUrls) + LoadedUrls(tasks)
      ensures !authOk || allErrata == [] || ToWrite(v, allErrata, old(writer.lines)) == [] || !writable ==>
        writer.present == old(writer.present) && writer.lines == old(writer.lines)
      ensures ok <==> authOk && allErrata != [] && (ToWrite(v, allErrata, old(writer.lines)) == [] || writable)
      ensures authOk && allErrata != [] && ToWrite(v, allErrata, old(writer.lines)) != [] && writable ==>
        && writer.present
        && writer.lines == Csv.LinesAfter(SaveMode(v), old(writer.present), old(writer.lines), writer.columns,
             Csv.Lines(StampAll(ToWrite(v, allErrata, old(writer.lines)), now), writer.columns))
    {
      ok := false;
      if authOk {
        var extracted := ExtractAllErrata(tasks, useSelenium, today);
        if extracted {
          var saved := Save(v, now, backupOk, writable);
          if saved {
            // `_generate_summary_report` logs the report and writes it to a file
            var summary := CsvChecks.CreateSummaryReport(allErrata, now);
            ok := true;
          }
        }
      }
      logouts := logouts + 1;
    }

    /**
     * `run_full_extraction`: a run whose save replaces the file with the
     * header and the records deduplicated as the source does it.
     */
    method RunFullExtraction(useSelenium: bool, authOk: bool, tasks: seq<PageTask>, today: string, now: string, backupOk: bool, writable: bool)
      returns (ok: bool)
      modifies this, writer
      ensures logouts == old(logouts) + 1
      ensures !authOk ==> allErrata == old(allErrata) && metadataUrls == old(metadataUrls)
      ensures authOk ==> allErrata == old(allErrata) + AllErrata(tasks, useSelenium, today)
      ensures authOk ==> metadataUrls == old(metadataUrls) + LoadedUrls(tasks)
      ensures !authOk || allErrata == [] || ToWrite(AsWritten, allErrata, old(writer.lines)) == [] || !writable ==>
        writer.present == old(writer.present) && writer.lines == old(writer.lines)
      ensures ok <==> authOk && allErrata != [] && (ToWrite(AsWritten, allErrata, old(writer.lines)) == [] || writable)
      ensures authOk && allErrata != [] && ToWrite(AsWritten, allErrata, old(writer.lines)) != [] && writable ==>
        writer.lines == [writer.columns] + Csv.Lines(StampAll(ToWrite(AsWritten, allErrata, old(writer.lines)), now), writer.columns)
    {
      ok := Run(AsWritten, useSelenium, authOk, tasks, today, now, backupOk, writable);
    }

    /** `run_incremental_update`: the full extraction, unchanged, so it also replaces the file. */
    method RunIncrementalUpdate(useSelenium: bool, authOk: bool, tasks: seq<PageTask>, today: string, now: string, backupOk: bool, writable: bool)
      returns (ok: bool)
      modifies this, writer
      ensures logouts == old(logouts) + 1
      ensures !authOk ==> allErrata == old(allErrata) && metadataUrls == old(metadataUrls)
      ensures authOk ==> allErrata == old(allErrata) + AllErrata(tasks, useSelenium, today)
      ensures authOk ==> metadataUrls == old(metadataUrls) + LoadedUrls(tasks)
      ensures !authOk || allErrata == [] || ToWrite(AsWritten, allErrata, old(writer.lines)) == [] || !writable ==>
        writer.present == old(writer.present) && writer.lines == old(writer.lines)
      ensures ok <==> authOk && allErrata != [] && (ToWrite(AsWritten, allErrata, old(writer.lines)) == [] || writable)
      ensures authOk && allErrata != [] && ToWrite(AsWritten, allErrata, old(writer.lines)) != [] && writable ==>
        writer.lines == [writer.columns] + Csv.Lines(StampAll(ToWrite(AsWritten, allErrata, old(writer.lines)), now), writer.columns)
    {
      ok := RunFullExtraction(useSelenium, authOk, tasks, today, now, backupOk, writable);
    }

    /**
     * `run_incremental_update` as it means to work: a run that keys the
     * records as text and appends the new ones after what the file holds.
     */
    method RunIncrementalUpdateIntended(useSelenium: bool, authOk: bool, tasks: seq<PageTask>, today: string, now: string, backupOk: bool, writable: bool)
      returns (ok: bool)
      modifies this, writer
      ensures logouts == old(logouts) + 1
      ensures !authOk ==> allErrata == old(allErrata) && metadataUrls == old(metadataUrls)
      ensures authOk ==> allErrata == old(allErrata) + AllErrata(tasks, useSelenium, today)
      ensures authOk ==> metadataUrls == old(metadataUrls) + LoadedUrls(tasks)
      ensures ok <==> authOk && allErrata != [] && (ToWrite(Intended, allErrata, old(writer.lines)) == [] || writable)
      ensures !authOk || allErrata == [] || ToWrite(Intended, allErrata, old(writer.lines)) == [] || !writable ==>
        writer.present == old(writer.present) && writer.lines == old(writer.lines)
      ensures authOk && allErrata != [] && ToWrite(Intended, allErrata, old(writer.lines)) != [] && writable ==>
        && writer.present
        && writer.lines == Csv.LinesAfter(Csv.Append, old(writer.present), old(writer.lines), writer.columns,
             Csv.Lines(StampAll(ToWrite(Intended, allErrata, old(writer.lines)), now), writer.columns))
    {
      ok := Run(Intended, useSelenium, authOk, tasks, today, now, backupOk, writable);
    }

    /**
     * `test_authentication_only`: the sign-in outcome, and, when pages are
     * configured, whether opening the first of them went through (an
     * exception there makes the test fail); signing out runs on every path.
     */
    method TestAuthenticationOnly(authOk: bool, pagesConfigured: bool, navigationOk: bool) returns (ok: bool)
      modifies this
      ensures ok == (authOk && (!pagesConfigured || navigationOk))
      ensures logouts == old(logouts) + 1
      ensures allErrata == old(allErrata) && metadataUrls == old(metadataUrls)
    {
      ok := authOk;
      if authOk && pagesConfigured && !navigationOk {
        // `driver.get` or `session.get` raised: the handler returns False
        ok := false;
      }
      logouts := logouts + 1;
    }

    /** `get_extraction_stats`: the number of records held and of pages with metadata. */
    method GetExtractionStats() returns (totalExtracted: nat, pagesProcessed: nat)
      ensures totalExtracted == |allErrata|
      ensures pagesProcessed == |metadataUrls|
    {
      totalExtracted := |allErrata|;
      pagesProcessed := |metadataUrls|;
    }
  }

  // ---------------------------------------------------------------------
  // properties

  lemma AllErrataSnoc(tasks: seq<PageTask>, t: PageTask, useSelenium: bool, today: string)
    ensures AllErrata(tasks + [t], useSelenium, today) == AllErrata(tasks, useSelenium, today) + PageErrata(t.fetch, useSelenium, today)
  {
    assert (tasks + [t])[..|tasks|] == tasks;
  }

  lemma PrefixStep(tasks: seq<PageTask>, i: nat, useSelenium: bool, today: string)
    requires i < |tasks|
    ensures AllErrata(tasks[..i + 1], useSelenium, today) == AllErrata(tasks[..i], useSelenium, today) + PageErrata(tasks[i].fetch, useSelenium, today)
    ensures LoadedUrls(tasks[..i + 1]) == LoadedUrls(tasks[..i]) + (if tasks[i].fetch.Loaded? then {tasks[i].url} else {})
  {
    assert tasks[..i + 1] == tasks[..i] + [tasks[i]];
    AllErrataSnoc(tasks[..i], tasks[i], useSelenium, today);
    LoadedUrlsSnoc(tasks[..i], tasks[i]);
  }

  lemma LoadedUrlsSnoc(tasks: seq<PageTask>, t: PageTask)
    ensures LoadedUrls(tasks + [t]) == LoadedUrls(tasks) + (if t.fetch.Loaded? then {t.url} else {})
  {
    var ts := tasks + [t];
    forall u | u in LoadedUrls(ts)
      ensures u in LoadedUrls(tasks) + (if t.fetch.Loaded? then {t.url} else {})
    {
      var i :| 0 <= i < |ts| && ts[i].fetch.Loaded? && ts[i].url == u;
      if i < |tasks| {
        assert tasks[i] == ts[i];
      }
    }
    forall u | u in LoadedUrls(tasks)
      ensures u in LoadedUrls(ts)
    {
      var i :| 0 <= i < |tasks| && tasks[i].fetch.Loaded? && tasks[i].url == u;
      assert ts[i] == tasks[i];
    }
    if t.fetch.Loaded? {
      assert ts[|tasks|] == t;
    }
  }

  lemma Extend<T>(after: seq<T>, start: seq<T>, before: seq<T>, prev: seq<T>, page: seq<T>, next: seq<T>)
    requires before == start + prev && after == before + page && next == prev + page
    ensures after == start + next
  {
  }

  /** Pages are taken in order: the records of `a + b` are those of `a` followed by those of `b`. */
  lemma {:induction false} AllErrataAppend(a: seq<PageTask>, b: seq<PageTask>, useSelenium: bool, today: string)
    ensures AllErrata(a + b, useSelenium, today) == AllErrata(a, useSelenium, today) + AllErrata(b, useSelenium, today)
    decreases |b|
  {
    if b == [] {
      assert a + b == a;
      Text.AppendNothing(AllErrata(a, useSelenium, today));
    } else {
      var b' := b[..|b| - 1];
      var t := b[|b| - 1];
      assert a + b == (a + b') + [t];
      assert b == b' + [t];
      AllErrataSnoc(a + b', t, useSelenium, today);
      AllErrataSnoc(b', t, useSelenium, today);
      AllErrataAppend(a, b', useSelenium, today);
      Text.Associative(AllErrata(a, useSelenium, today), AllErrata(b', useSelenium, today), PageErrata(t.fetch, useSelenium, today));
    }
  }

  /** A page that could not be fetched adds nothing, wherever it stands. */
  lemma FailedPageAddsNothing(a: seq<PageTask>, t: PageTask, b: seq<PageTask>, useSelenium: bool, today: string)
    requires !t.fetch.Loaded?
    ensures AllErrata(a + [t] + b, useSelenium, today) == AllErrata(a + b, useSelenium, today)
  {
    AllErrataAppend(a + [t], b, useSelenium, today);
    AllErrataSnoc(a, t, useSelenium, today);
    assert PageErrata(t.fetch, useSelenium, today) == [];
    Text.AppendNothing(AllErrata(a, useSelenium, today));
    AllErrataAppend(a, b, useSelenium, today);
  }

  /** The HTML backend, given no title and no URL, files every record under "Unknown Grade". */
  lemma SoupGradeUnknown(sections: Text.Option<seq<Extraction.Section>>, today: string)
    ensures Extraction.SoupPageRecords(Extraction.Page([], [], sections), today)
      == if sections.None? then [] else Extraction.PageRecords(sections.value, Grades.UnknownGrade, today)
  {
  }

  /** Every record a page gives has an empty `Instructional_Moment`. */
  lemma PageErrataMoment(fetch: Fetch, useSelenium: bool, today: string)
    ensures var rs := PageErrata(fetch, useSelenium, today);
      forall k :: 0 <= k < |rs| ==> InstructionalMoment in rs[k] && rs[k][InstructionalMoment] == []
  {
    if fetch.Loaded? && fetch.page.sections.Some? {
      var sections := fetch.page.sections.value;
      if useSelenium {
        Extraction.PageRecordsShape(sections, Grades.BrowserGrade(fetch.page.title, fetch.page.url), today);
      } else {
        Extraction.PageRecordsShape(sections, Grades.UnknownGrade, today);
      }
    }
  }

  lemma {:induction false} AllErrataMoment(tasks: seq<PageTask>, useSelenium: bool, today: string)
    ensures var rs := AllErrata(tasks, useSelenium, today);
      forall k :: 0 <= k < |rs| ==> InstructionalMoment in rs[k] && rs[k][InstructionalMoment] == []
    decreases |tasks|
  {
    if tasks != [] {
      var init := tasks[..|tasks| - 1];
      assert tasks == init + [tasks[|tasks| - 1]];
      AllErrataSnoc(init, tasks[|tasks| - 1], useSelenium, today);
      AllErrataMoment(init, useSelenium, today);
      PageErrataMoment(tasks[|tasks| - 1].fetch, useSelenium, today);
    }
  }

  /**
   * With the file read back as `read_csv` reads it, no extracted record is
   * ever recognised as already saved, whatever the file holds.
   */
  lemma ExtractedNeverDeduplicated(tasks: seq<PageTask>, useSelenium: bool, today: string, lines: seq<seq<string>>)
    ensures var rs := AllErrata(tasks, useSelenium, today);
      Csv.Deduplicated(rs, lines, Csv.KeyColumns) == rs
  {
    AllErrataMoment(tasks, useSelenium, today);
    Csv.DeduplicatedKeepsAll(AllErrata(tasks, useSelenium, today), lines);
  }
}
