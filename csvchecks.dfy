/**
 * The two read-only passes of `CSVWriter` over a list of records:
 * `validate_data`, which lists a warning per problem per record, and
 * `create_summary_report`, which counts the records and tallies the values
 * of three columns the way `pandas.Series.value_counts` does.
 */
module CsvChecks {
  import opened Text
  import opened Records
  import Dates

  // ---------------------------------------------------------------------
  // validate_data

  /** The prefix of every warning about the `n`-th record (counted from 1). */
  function Tag(n: nat): string {
    "Record " + NatToString(n) + ": "
  }

  const MissingUnit: string := "Missing Unit"
  const MissingResource: string := "Missing Resource"
  const InvalidDate: string := "Invalid Date_Updated format (should be YYYY-MM-DD)"
  const LongDescription: string := "Very long Improvement_Description (>500 chars)"

  /** `datetime.strptime(value, '%Y-%m-%d')` raises. */
  predicate BadDate(v: string) {
    v != [] && !Dates.ParsesAsIsoDate(v)
  }

  /** The warnings about one record, in the order the checks run. */
  function RecordWarnings(r: Record, n: nat): seq<string> {
    (if Get(r, Unit) == [] then [Tag(n) + MissingUnit] else [])
    + (if Get(r, Resource) == [] then [Tag(n) + MissingResource] else [])
    + (if BadDate(Get(r, DateUpdated)) then [Tag(n) + InvalidDate] else [])
    + (if |Get(r, ImprovementDescription)| > 500 then [Tag(n) + LongDescription] else [])
  }

  /** The warnings about a list of records, record by record. */
  function Warnings(es: seq<Record>): seq<string>
    decreases |es|
  {
    if es == [] then []
    else Warnings(es[..|es| - 1]) + RecordWarnings(es[|es| - 1], |es|)
  }

  /** The four checks `validate_data` makes on the `n`-th record. */
  method CheckRecord(r: Record, n: nat) returns (warnings: seq<string>)
    ensures warnings == RecordWarnings(r, n)
  {
    var tag := Tag(n);
    warnings := [];
    if Get(r, Unit) == [] {
      warnings := warnings + [tag + MissingUnit];
    }
    if Get(r, Resource) == [] {
      warnings := warnings + [tag + MissingResource];
    }
    if BadDate(Get(r, DateUpdated)) {
      warnings := warnings + [tag + InvalidDate];
    }
    if |Get(r, ImprovementDescription)| > 500 {
      warnings := warnings + [tag + LongDescription];
    }
  }

  /** `validate_data`. */
  method ValidateData(errata: seq<Record>) returns (warnings: seq<string>)
    ensures warnings == Warnings(errata)
  {
    warnings := [];
    for i := 0 to |errata|
      invariant warnings == Warnings(errata[..i])
    {
      assert errata[..i + 1][..i] == errata[..i];
      var found := CheckRecord(errata[i], i + 1);
      warnings := warnings + found;
    }
    assert errata[..|errata|] == errata;
  }

  // ---------------------------------------------------------------------
  // properties of the validation

  /** A record draws no warning exactly when it has a unit and a resource, a parseable date or none, and a short description. */
  lemma NoWarningsIff(r: Record, n: nat)
    ensures RecordWarnings(r, n) == [] <==>
      Get(r, Unit) != [] && Get(r, Resource) != [] && !BadDate(Get(r, DateUpdated)) && |Get(r, ImprovementDescription)| <= 500
  {
  }

  /** At most four warnings per record, each naming that record. */
  lemma RecordWarningsShape(r: Record, n: nat)
    ensures |RecordWarnings(r, n)| <= 4
    ensures forall k :: 0 <= k < |RecordWarnings(r, n)| ==> RecordWarnings(r, n)[k][..|Tag(n)|] == Tag(n)
  {
  }

  lemma {:induction false} WarningsBound(es: seq<Record>)
    ensures |Warnings(es)| <= 4 * |es|
    decreases |es|
  {
    if es != [] {
      WarningsBound(es[..|es| - 1]);
      RecordWarningsShape(es[|es| - 1], |es|);
    }
  }

  /**
   * A record the parser keeps has a unit and a resource, and its cleaned
   * date is either canonical or left as found: only that date and the
   * length of the description can draw warnings.
   */
  lemma CleanedRecordWarnings(r: Record, n: nat)
    requires IsValidRecord(r)
    requires Get(r, DateUpdated) == [] || Dates.IsCanonicalDate(Get(r, DateUpdated))
    requires |Get(r, ImprovementDescription)| <= 500
    ensures RecordWarnings(r, n) == []
  {
    if Get(r, DateUpdated) != [] {
      Dates.CanonicalParses(Get(r, DateUpdated));
    }
  }

  // ---------------------------------------------------------------------
  // value_counts

  /** A value and the number of records holding it. */
  type Tally = seq<(string, nat)>

  /** How often `v` occurs in `vs`. */
  function Count(vs: seq<string>, v: string): nat
    decreases |vs|
  {
    if vs == [] then 0
    else Count(vs[..|vs| - 1], v) + (if vs[|vs| - 1] == v then 1 else 0)
  }

  function Total(ps: Tally): nat
    decreases |ps|
  {
    if ps == [] then 0 else Total(ps[..|ps| - 1]) + ps[|ps| - 1].1
  }

  /** Position of the entry for `v`, or `|ps|`. */
  function Find(ps: Tally, v: string): (i: nat)
    ensures i <= |ps|
    ensures i < |ps| ==> ps[i].0 == v
    ensures i == |ps| ==> forall j :: 0 <= j < |ps| ==> ps[j].0 != v
  {
    if ps == [] then 0
    else if ps[0].0 == v then 0
    else 1 + Find(ps[1..], v)
  }

  /** One more occurrence of `v`: its count goes up, or it is added at the end with count 1. */
  function Bump(ps: Tally, v: string): Tally {
    var i := Find(ps, v);
    if i < |ps| then ps[i := (v, ps[i].1 + 1)] else ps + [(v, 1)]
  }

  /** The distinct values of `vs` with their counts, in order of first appearance. */
  function CountAll(vs: seq<string>): Tally
    decreases |vs|
  {
    if vs == [] then [] else Bump(CountAll(vs[..|vs| - 1]), vs[|vs| - 1])
  }

  /** Stable insertion by count, largest first: `p` goes before the entries whose count it equals. */
  function Insert(p: (string, nat), ps: Tally): Tally
    decreases |ps|
  {
    if ps == [] then [p]
    else if ps[0].1 > p.1 then [ps[0]] + Insert(p, ps[1..])
    else [p] + ps
  }

  function SortByCount(ps: Tally): Tally
    decreases |ps|
  {
    if ps == [] then [] else Insert(ps[0], SortByCount(ps[1..]))
  }

  /** `Series.value_counts()`: counts by value, largest count first. */
  function ValueCounts(vs: seq<string>): Tally {
    SortByCount(CountAll(vs))
  }

  predicate Distinct(ps: Tally) {
    forall i, j :: 0 <= i < |ps| && 0 <= j < |ps| && i != j ==> ps[i].0 != ps[j].0
  }

  predicate Sorted(ps: Tally) {
    forall i, j :: 0 <= i < j < |ps| ==> ps[i].1 >= ps[j].1
  }

  predicate Listed(ps: Tally, v: string) {
    exists i :: 0 <= i < |ps| && ps[i].0 == v
  }

  /** `ps` tallies `vs`: one entry per distinct value, each with its count. */
  predicate Tallies(ps: Tally, vs: seq<string>) {
    && Distinct(ps)
    && (forall i :: 0 <= i < |ps| ==> ps[i].1 == Count(vs, ps[i].0) && ps[i].1 > 0)
    && (forall k :: 0 <= k < |vs| ==> Listed(ps, vs[k]))
  }

  // ---------------------------------------------------------------------
  // properties of the tally

  lemma CountSnoc(vs: seq<string>, v: string, w: string)
    ensures Count(vs + [v], w) == Count(vs, w) + (if v == w then 1 else 0)
  {
    assert (vs + [v])[..|vs|] == vs;
  }

  lemma {:induction false} TotalUpdate(ps: Tally, i: nat, p: (string, nat))
    requires i < |ps|
    ensures Total(ps[i := p]) + ps[i].1 == Total(ps) + p.1
    decreases |ps|
  {
    if i < |ps| - 1 {
      assert ps[i := p][..|ps| - 1] == ps[..|ps| - 1][i := p];
      TotalUpdate(ps[..|ps| - 1], i, p);
    } else {
      assert ps[i := p][..|ps| - 1] == ps[..|ps| - 1];
    }
  }

  lemma BumpTotal(ps: Tally, v: string)
    ensures Total(Bump(ps, v)) == Total(ps) + 1
  {
    var i := Find(ps, v);
    if i < |ps| {
      TotalUpdate(ps, i, (v, ps[i].1 + 1));
    } else {
      assert (ps + [(v, 1)])[..|ps|] == ps;
    }
  }

  lemma BumpTallies(ps: Tally, vs: seq<string>, v: string)
    requires Tallies(ps, vs)
    ensures Tallies(Bump(ps, v), vs + [v])
  {
    var b := Bump(ps, v);
    var ws := vs + [v];
    forall w ensures Count(ws, w) == Count(vs, w) + (if v == w then 1 else 0) {
      CountSnoc(vs, v, w);
    }
    var i := Find(ps, v);
    if i == |ps| {
      assert Count(vs, v) == 0 by {
        if Count(vs, v) > 0 {
          CountPositive(vs, v);
        }
      }
    }
    forall k | 0 <= k < |ws| ensures Listed(b, ws[k]) {
      if k < |vs| {
        var j :| 0 <= j < |ps| && ps[j].0 == vs[k];
        assert b[j].0 == vs[k];
      } else {
        assert b[if i < |ps| then i else |ps|].0 == v;
      }
    }
  }

  /** A value that occurs is listed. */
  lemma CountPositive(vs: seq<string>, v: string)
    requires Count(vs, v) > 0
    ensures v in vs
    decreases |vs|
  {
    if vs[|vs| - 1] != v {
      CountPositive(vs[..|vs| - 1], v);
    }
  }

  lemma {:induction false} CountAllTallies(vs: seq<string>)
    ensures Tallies(CountAll(vs), vs)
    ensures Total(CountAll(vs)) == |vs|
    decreases |vs|
  {
    if vs != [] {
      var init := vs[..|vs| - 1];
      CountAllTallies(init);
      BumpTallies(CountAll(init), init, vs[|vs| - 1]);
      BumpTotal(CountAll(init), vs[|vs| - 1]);
      InitLast(vs);
    }
  }

  // ---------------------------------------------------------------------
  // properties of the sort

  lemma {:induction false} InsertElements(p: (string, nat), ps: Tally)
    ensures |Insert(p, ps)| == |ps| + 1
    ensures forall x :: x in Insert(p, ps) <==> x == p || x in ps
    ensures Total(Insert(p, ps)) == Total(ps) + p.1
    decreases |ps|
  {
    if ps != [] && ps[0].1 > p.1 {
      InsertElements(p, ps[1..]);
      assert ps == [ps[0]] + ps[1..];
      TotalCons(ps[0], Insert(p, ps[1..]));
      TotalCons(ps[0], ps[1..]);
    } else {
      TotalCons(p, ps);
    }
  }

  lemma {:induction false} TotalCons(p: (string, nat), ps: Tally)
    ensures Total([p] + ps) == p.1 + Total(ps)
    decreases |ps|
  {
    if ps != [] {
      assert ([p] + ps)[..|ps|] == [p] + ps[..|ps| - 1];
      TotalCons(p, ps[..|ps| - 1]);
    }
  }

  lemma {:induction false} InsertSorted(p: (string, nat), ps: Tally)
    requires Sorted(ps)
    ensures Sorted(Insert(p, ps))
    decreases |ps|
  {
    if ps != [] && ps[0].1 > p.1 {
      InsertSorted(p, ps[1..]);
      InsertElements(p, ps[1..]);
      var q := Insert(p, ps[1..]);
      forall x | x in q ensures ps[0].1 >= x.1 {
        if x != p {
          var k :| 0 <= k < |ps[1..]| && ps[1..][k] == x;
          assert x == ps[k + 1];
        }
      }
    }
  }

  lemma {:induction false} InsertDistinct(p: (string, nat), ps: Tally)
    requires Distinct(ps)
    requires forall i :: 0 <= i < |ps| ==> ps[i].0 != p.0
    ensures Distinct(Insert(p, ps))
    decreases |ps|
  {
    if ps != [] && ps[0].1 > p.1 {
      InsertDistinct(p, ps[1..]);
      InsertElements(p, ps[1..]);
      var q := Insert(p, ps[1..]);
      forall x | x in q ensures x.0 != ps[0].0 {
        if x != p {
          var k :| 0 <= k < |ps[1..]| && ps[1..][k] == x;
          assert x == ps[k + 1];
        }
      }
      assert Insert(p, ps) == [ps[0]] + q;
    }
  }

  lemma {:induction false} SortProperties(ps: Tally)
    ensures |SortByCount(ps)| == |ps|
    ensures forall x :: x in SortByCount(ps) <==> x in ps
    ensures Sorted(SortByCount(ps))
    ensures Total(SortByCount(ps)) == Total(ps)
    ensures Distinct(ps) ==> Distinct(SortByCount(ps))
    decreases |ps|
  {
    if ps != [] {
      var rest := SortByCount(ps[1..]);
      SortProperties(ps[1..]);
      InsertElements(ps[0], rest);
      InsertSorted(ps[0], rest);
      TotalCons(ps[0], ps[1..]);
      assert ps == [ps[0]] + ps[1..];
      if Distinct(ps) {
        forall i | 0 <= i < |rest| ensures rest[i].0 != ps[0].0 {
          assert rest[i] in rest;
          var k :| 0 <= k < |ps[1..]| && ps[1..][k] == rest[i];
          assert rest[i] == ps[k + 1];
        }
        InsertDistinct(ps[0], rest);
      }
    }
  }

  /**
   * `value_counts` lists every distinct value once with its number of
   * occurrences, largest count first, and the counts add up to the number
   * of values.
   */
  lemma ValueCountsSpec(vs: seq<string>)
    ensures var vc := ValueCounts(vs);
      && Distinct(vc)
      && Sorted(vc)
      && (forall i :: 0 <= i < |vc| ==> vc[i].1 == Count(vs, vc[i].0) && vc[i].1 > 0)
      && (forall k :: 0 <= k < |vs| ==> Listed(vc, vs[k]))
      && Total(vc) == |vs|
  {
    var t := CountAll(vs);
    var vc := ValueCounts(vs);
    CountAllTallies(vs);
    SortProperties(t);
    forall i | 0 <= i < |vc| ensures vc[i].1 == Count(vs, vc[i].0) && vc[i].1 > 0 {
      assert vc[i] in t;
    }
    forall k | 0 <= k < |vs| ensures Listed(vc, vs[k]) {
      var j :| 0 <= j < |t| && t[j].0 == vs[k];
      assert t[j] in vc;
    }
  }

  // ---------------------------------------------------------------------
  // create_summary_report

  const NoData: string := "No errata data found."
  const UnitTitle: string := "Records by Unit:"
  const ResourceTitle: string := "Records by Resource:"
  const TypeTitle: string := "Records by Improvement Type:"

  /** `pd.DataFrame(errata_list).empty`: no records, or records without a single key. */
  predicate EmptyFrame(es: seq<Record>) {
    forall i :: 0 <= i < |es| ==> es[i] == map[]
  }

  /** The frame has a column named `key`: some record has that key. */
  predicate HasColumn(es: seq<Record>, key: string) {
    exists i :: 0 <= i < |es| && key in es[i]
  }

  /** The column `key` without its missing values, which `value_counts` drops. */
  function ColumnValues(es: seq<Record>, key: string): seq<string>
    decreases |es|
  {
    if es == [] then []
    else ColumnValues(es[..|es| - 1], key) + (if key in es[|es| - 1] then [es[|es| - 1][key]] else [])
  }

  /** `f"  {value}: {count}"` for each entry. */
  function CountLines(ps: Tally): seq<string> {
    seq(|ps|, i requires 0 <= i < |ps| => "  " + ps[i].0 + ": " + NatToString(ps[i].1))
  }

  /** The block of one column: a title, a line per value, and a blank line unless it is the last block. */
  function Block(es: seq<Record>, key: string, title: string, last: bool): seq<string> {
    if HasColumn(es, key) then [title] + CountLines(ValueCounts(ColumnValues(es, key))) + (if last then [] else [""])
    else []
  }

  function Headline(es: seq<Record>, now: string): seq<string> {
    ["Total Errata Records: " + NatToString(|es|), "Extraction Date: " + now, ""]
  }

  /** The lines of the report; `now` is the formatted current time. */
  function SummaryLines(es: seq<Record>, now: string): seq<string> {
    if EmptyFrame(es) then [NoData]
    else
      Headline(es, now)
      + Block(es, Unit, UnitTitle, false)
      + Block(es, Resource, ResourceTitle, false)
      + Block(es, ImprovementType, TypeTitle, true)
  }

  /** The loop that appends one line per counted value. */
  method AppendCounts(summary: seq<string>, counts: Tally) returns (lines: seq<string>)
    ensures lines == summary + CountLines(counts)
  {
    lines := summary;
    for i := 0 to |counts|
      invariant lines == summary + CountLines(counts[..i])
    {
      assert CountLines(counts[..i + 1]) == CountLines(counts[..i]) + ["  " + counts[i].0 + ": " + NatToString(counts[i].1)];
      lines := lines + ["  " + counts[i].0 + ": " + NatToString(counts[i].1)];
    }
    assert counts[..|counts|] == counts;
  }

  /** One `if '<column>' in df.columns:` block of the report. */
  method AppendBlock(summary: seq<string>, es: seq<Record>, key: string, title: string, last: bool) returns (lines: seq<string>)
    ensures lines == summary + Block(es, key, title, last)
  {
    lines := summary;
    if HasColumn(es, key) {
      var counts := ValueCounts(ColumnValues(es, key));
      lines := AppendCounts(summary + [title], counts);
      Associative(summary, [title], CountLines(counts));
      if !last {
        lines := lines + [""];
        Associative(summary, [title] + CountLines(counts), [""]);
      } else {
        AppendNothing([title] + CountLines(counts));
      }
    } else {
      AppendNothing(summary);
    }
  }

  /** `create_summary_report`: the lines joined by newlines. */
  method CreateSummaryReport(errata: seq<Record>, now: string) returns (report: string)
    ensures report == Join(SummaryLines(errata, now), "\n")
  {
    if EmptyFrame(errata) {
      return NoData;
    }
    var summary := Headline(errata, now);
    summary := AppendBlock(summary, errata, Unit, UnitTitle, false);
    summary := AppendBlock(summary, errata, Resource, ResourceTitle, false);
    summary := AppendBlock(summary, errata, ImprovementType, TypeTitle, true);
    report := Join(summary, "\n");
  }

  // ---------------------------------------------------------------------
  // properties of the report

  /** Without records the report is the one fixed sentence. */
  lemma SummaryOfNothing(es: seq<Record>, now: string)
    requires EmptyFrame(es)
    ensures Join(SummaryLines(es, now), "\n") == NoData
  {
  }

  lemma {:induction false} ColumnValuesAll(es: seq<Record>, key: string)
    requires forall i :: 0 <= i < |es| ==> key in es[i]
    ensures |ColumnValues(es, key)| == |es|
    decreases |es|
  {
    if es != [] {
      ColumnValuesAll(es[..|es| - 1], key);
    }
  }

  lemma {:induction false} ColumnValuesHas(es: seq<Record>, key: string, j: nat)
    requires j < |es| && key in es[j]
    ensures es[j][key] in ColumnValues(es, key)
    decreases |es|
  {
    if j < |es| - 1 {
      ColumnValuesHas(es[..|es| - 1], key, j);
    }
  }

  /** When every record has the column, its counts add up to the total the report opens with. */
  lemma CountsAddUp(es: seq<Record>, key: string)
    requires forall i :: 0 <= i < |es| ==> key in es[i]
    ensures Total(ValueCounts(ColumnValues(es, key))) == |es|
  {
    ColumnValuesAll(es, key);
    ValueCountsSpec(ColumnValues(es, key));
  }

  /** Every value of the column appears in its block with the number of records holding it. */
  lemma BlockListed(es: seq<Record>, key: string, title: string, last: bool, j: nat)
    requires j < |es| && key in es[j]
    ensures var v := es[j][key];
      "  " + v + ": " + NatToString(Count(ColumnValues(es, key), v)) in Block(es, key, title, last)
  {
    var vs := ColumnValues(es, key);
    var v := es[j][key];
    ColumnValuesHas(es, key, j);
    ValueCountsSpec(vs);
    var vc := ValueCounts(vs);
    var k :| 0 <= k < |vs| && vs[k] == v;
    assert Listed(vc, vs[k]);
    var i :| 0 <= i < |vc| && vc[i].0 == v;
    assert HasColumn(es, key);
    var line := "  " + v + ": " + NatToString(Count(vs, v));
    assert CountLines(vc)[i] == line;
    InMiddle([title], CountLines(vc), if last then [] else [""], line);
  }

  /** Every unit of a record appears in the report with the number of records in it. */
  lemma UnitListed(es: seq<Record>, now: string, j: nat)
    requires j < |es| && Unit in es[j]
    ensures var v := es[j][Unit];
      "  " + v + ": " + NatToString(Count(ColumnValues(es, Unit), v)) in SummaryLines(es, now)
  {
    BlockListed(es, Unit, UnitTitle, false, j);
    assert es[j] != map[];
    var v := es[j][Unit];
    var line := "  " + v + ": " + NatToString(Count(ColumnValues(es, Unit), v));
    var front := Headline(es, now) + Block(es, Unit, UnitTitle, false) + Block(es, Resource, ResourceTitle, false);
    InMiddle(Headline(es, now), Block(es, Unit, UnitTitle, false), Block(es, Resource, ResourceTitle, false), line);
    InMiddle([], front, Block(es, ImprovementType, TypeTitle, true), line);
    AppendNothing(front);
  }
}
