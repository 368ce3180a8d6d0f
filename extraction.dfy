/**
 * The extraction shared by both page backends (`parse_page_with_selenium`,
 * `parse_page_with_beautifulsoup`, `_extract_table_data`,
 * `_extract_table_data_soup`), over an abstract document: a page is a
 * sequence of accordion sections, a section has a button text and table
 * rows, and a row has cell texts.
 *
 * Each row with at least three cells becomes a record built from its first
 * three cells; the record is cleaned and kept only when it is valid.
 * Records come out in section order, then row order.
 */
module Extraction {
  import opened Text
  import opened Records
  import Components
  import Dates
  import Grades

  /** A table row: the texts of its cells, or a row whose reading raised. */
  datatype Row = Cells(cells: seq<string>) | Unreadable

  /**
   * An accordion section: the text of its button (`None` when there is no
   * button or reading it raised) and its rows (`None` when looking them up
   * raised).
   */
  datatype Section = Section(button: Option<string>, rows: Option<seq<Row>>)

  /**
   * A page: its title and URL, and its sections (`None` when looking them
   * up raised).
   */
  datatype Page = Page(title: string, url: string, sections: Option<seq<Section>>)

  /** `_extract_unit_name`: the stripped button text, or "" without one. */
  function UnitName(s: Section): string {
    if s.button.Some? then Strip(s.button.value) else []
  }

  /**
   * The ten-column record built from a parsed component cell, the
   * description and date cells, the unit and the grade, before cleaning;
   * `today` stands for `datetime.now()`.
   */
  function RawRecord(c: Components.Component, description: string, date: string, unit: string, grade: string, today: string): Record {
    map[DateExtracted := today, GradeLevel := grade, Unit := unit,
        Resource := c.resource, Location := c.location, InstructionalMoment := [],
        PageNumbers := c.pages, ImprovementDescription := description,
        ImprovementType := [], DateUpdated := Dates.NormalizeDate(date)]
  }

  /** The raw record of a row with at least three cells: the first three cells, stripped. */
  function RowRaw(cells: seq<string>, unit: string, grade: string, today: string): Record
    requires |cells| >= 3
  {
    RawRecord(Components.ParseComponentText(Strip(cells[0])), Strip(cells[1]), Strip(cells[2]), unit, grade, today)
  }

  /** The cleaned record, when it is valid. */
  function Kept(raw: Record): seq<Record> {
    var r := Cleaned(raw);
    if IsValidRecord(r) then [r] else []
  }

  /** What one row adds: its cleaned record when it has three cells and the record is valid. */
  function RowRecords(row: Row, unit: string, grade: string, today: string): seq<Record> {
    if row.Cells? && |row.cells| >= 3 then Kept(RowRaw(row.cells, unit, grade, today)) else []
  }

  /** The records of a row sequence, in row order. */
  function TableRecords(rows: seq<Row>, unit: string, grade: string, today: string): seq<Record>
    decreases |rows|
  {
    if rows == [] then []
    else TableRecords(rows[..|rows| - 1], unit, grade, today) + RowRecords(rows[|rows| - 1], unit, grade, today)
  }

  function SectionRecords(s: Section, grade: string, today: string): seq<Record> {
    if s.rows.None? then [] else TableRecords(s.rows.value, UnitName(s), grade, today)
  }

  /** The records of a section sequence, in section order. */
  function PageRecords(sections: seq<Section>, grade: string, today: string): seq<Record>
    decreases |sections|
  {
    if sections == [] then []
    else PageRecords(sections[..|sections| - 1], grade, today) + SectionRecords(sections[|sections| - 1], grade, today)
  }

  /** `_extract_table_data`: the loop over the rows of one section. */
  method ExtractTableData(section: Section, unit: string, grade: string, today: string) returns (records: seq<Record>)
    ensures section.rows.None? ==> records == []
    ensures section.rows.Some? ==> records == TableRecords(section.rows.value, unit, grade, today)
  {
    records := [];
    if section.rows.None? {
      return;
    }
    var rows := section.rows.value;
    for i := 0 to |rows|
      invariant records == TableRecords(rows[..i], unit, grade, today)
    {
      assert rows[..i + 1][..i] == rows[..i];
      var row := rows[i];
      if row.Cells? && |row.cells| >= 3 {
        var cleaned := CleanErrataData(RowRaw(row.cells, unit, grade, today));
        if IsValidRecord(cleaned) {
          records := records + [cleaned];
        }
      }
    }
    assert rows[..|rows|] == rows;
  }

  /** The loop over the sections shared by both backends. */
  method ExtractSections(sections: seq<Section>, grade: string, today: string) returns (errata: seq<Record>)
    ensures errata == PageRecords(sections, grade, today)
  {
    errata := [];
    for i := 0 to |sections|
      invariant errata == PageRecords(sections[..i], grade, today)
    {
      assert sections[..i + 1][..i] == sections[..i];
      var unit := UnitName(sections[i]);
      var table := ExtractTableData(sections[i], unit, grade, today);
      if table != [] {
        errata := errata + table;
      }
    }
    assert sections[..|sections|] == sections;
  }

  /** The HTML backend as written: the lookup that raises loses the whole page. */
  function SoupPageRecords(page: Page, today: string): seq<Record> {
    var g := Grades.GradeFromStrings(page.title, page.url);
    if g.NoSuchGroup? || page.sections.None? then []
    else PageRecords(page.sections.value, g.name, today)
  }

  /** `parse_page_with_beautifulsoup`. */
  method ParsePageWithSoup(page: Page, today: string) returns (errata: seq<Record>)
    ensures errata == SoupPageRecords(page, today)
  {
    var g := Grades.GradeFromStrings(page.title, page.url);
    if g.NoSuchGroup? || page.sections.None? {
      return [];
    }
    errata := ExtractSections(page.sections.value, g.name, today);
  }

  /** `parse_page_with_selenium`: the grade lookup cannot raise here. */
  method ParsePageWithBrowser(page: Page, today: string) returns (errata: seq<Record>)
    ensures page.sections.None? ==> errata == []
    ensures page.sections.Some? ==> errata == PageRecords(page.sections.value, Grades.BrowserGrade(page.title, page.url), today)
  {
    if page.sections.None? {
      return [];
    }
    var grade := Grades.BrowserGrade(page.title, page.url);
    errata := ExtractSections(page.sections.value, grade, today);
  }

  /** The HTML backend with the intended grade lookup. */
  function SoupPageRecordsIntended(page: Page, today: string): seq<Record> {
    if page.sections.None? then []
    else PageRecords(page.sections.value, Grades.GradeFromStringsIntended(page.title, page.url), today)
  }

  // ---------------------------------------------------------------------
  // properties

  /** What every extracted record of a page with grade `grade` looks like. */
  predicate FromPage(r: Record, grade: string) {
    && IsValidRecord(r)
    && GradeLevel in r && r[GradeLevel] == CleanValue(GradeLevel, grade)
    && InstructionalMoment in r && r[InstructionalMoment] == []
    && Get(r, ImprovementType) == []
  }

  /** The columns of a raw record that do not depend on the row's cells. */
  lemma RawShape(c: Components.Component, description: string, date: string, unit: string, grade: string, today: string)
    ensures var m := RawRecord(c, description, date, unit, grade, today);
      && GradeLevel in m && m[GradeLevel] == grade
      && Unit in m && m[Unit] == unit
      && InstructionalMoment in m && m[InstructionalMoment] == []
      && ImprovementType in m && m[ImprovementType] == []
  {
  }

  lemma KeptShape(m: Record, unit: string, grade: string)
    requires GradeLevel in m && m[GradeLevel] == grade
    requires Unit in m && m[Unit] == unit
    requires InstructionalMoment in m && m[InstructionalMoment] == []
    requires ImprovementType in m && m[ImprovementType] == []
    ensures |Kept(m)| <= 1
    ensures forall k :: 0 <= k < |Kept(m)| ==> FromPage(Kept(m)[k], grade) && Kept(m)[k][Unit] == CleanValue(Unit, unit)
  {
    EmptyStaysEmpty(InstructionalMoment);
    EmptyStaysEmpty(ImprovementType);
  }

  lemma RowRecordShape(row: Row, unit: string, grade: string, today: string)
    ensures forall k :: 0 <= k < |RowRecords(row, unit, grade, today)| ==>
      FromPage(RowRecords(row, unit, grade, today)[k], grade)
        && RowRecords(row, unit, grade, today)[k][Unit] == CleanValue(Unit, unit)
    ensures |RowRecords(row, unit, grade, today)| <= 1
    ensures row.Unreadable? || |row.cells| < 3 ==> RowRecords(row, unit, grade, today) == []
  {
    if row.Cells? && |row.cells| >= 3 {
      var cells := row.cells;
      RawShape(Components.ParseComponentText(Strip(cells[0])), Strip(cells[1]), Strip(cells[2]), unit, grade, today);
      KeptShape(RowRaw(cells, unit, grade, today), unit, grade);
    }
  }

  /** Every record of a section is valid, carries the page's grade and the section's unit, and has the two unfilled columns empty. */
  lemma {:induction false} TableRecordsShape(rows: seq<Row>, unit: string, grade: string, today: string)
    ensures forall k :: 0 <= k < |TableRecords(rows, unit, grade, today)| ==>
      FromPage(TableRecords(rows, unit, grade, today)[k], grade)
        && TableRecords(rows, unit, grade, today)[k][Unit] == CleanValue(Unit, unit)
    ensures |TableRecords(rows, unit, grade, today)| <= |rows|
    decreases |rows|
  {
    if rows != [] {
      TableRecordsShape(rows[..|rows| - 1], unit, grade, today);
      RowRecordShape(rows[|rows| - 1], unit, grade, today);
    }
  }

  /** Rows are taken in order: the records of `a + b` are those of `a` followed by those of `b`. */
  lemma {:induction false} TableRecordsAppend(a: seq<Row>, b: seq<Row>, unit: string, grade: string, today: string)
    ensures TableRecords(a + b, unit, grade, today) == TableRecords(a, unit, grade, today) + TableRecords(b, unit, grade, today)
    decreases |b|
  {
    if b != [] {
      var b' := b[..|b| - 1];
      assert (a + b)[..|a + b| - 1] == a + b';
      assert (a + b)[|a + b| - 1] == b[|b| - 1];
      TableRecordsAppend(a, b', unit, grade, today);
    } else {
      assert a + b == a;
    }
  }

  /** Sections are taken in order: the records of `a + b` are those of `a` followed by those of `b`. */
  lemma {:induction false} PageRecordsAppend(a: seq<Section>, b: seq<Section>, grade: string, today: string)
    ensures PageRecords(a + b, grade, today) == PageRecords(a, grade, today) + PageRecords(b, grade, today)
    decreases |b|
  {
    if b != [] {
      var b' := b[..|b| - 1];
      assert (a + b)[..|a + b| - 1] == a + b';
      assert (a + b)[|a + b| - 1] == b[|b| - 1];
      PageRecordsAppend(a, b', grade, today);
    } else {
      assert a + b == a;
    }
  }

  /** Every record of a page is valid and carries the one grade computed for the page. */
  lemma {:induction false} PageRecordsShape(sections: seq<Section>, grade: string, today: string)
    ensures forall k :: 0 <= k < |PageRecords(sections, grade, today)| ==> FromPage(PageRecords(sections, grade, today)[k], grade)
    decreases |sections|
  {
    if sections != [] {
      var last := sections[|sections| - 1];
      PageRecordsShape(sections[..|sections| - 1], grade, today);
      if last.rows.Some? {
        TableRecordsShape(last.rows.value, UnitName(last), grade, today);
      }
    }
  }

  /** A page titled "Pre-Algebra" yields nothing on the HTML backend as written, whatever its sections hold. */
  lemma PreAlgebraPageLost(url: string, sections: seq<Section>, today: string)
    ensures SoupPageRecords(Page("Pre-Algebra", url, Some(sections)), today) == []
    ensures SoupPageRecordsIntended(Page("Pre-Algebra", url, Some(sections)), today) == PageRecords(sections, "Pre-Algebra", today)
  {
    Grades.PreAlgebraTitle(url);
  }
}
