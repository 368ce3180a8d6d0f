/**
 * `CSVWriter`: the output file as state, and the deduplication against it.
 *
 * The file is modelled as whether it exists and the lines it holds, each
 * line a sequence of cell texts. Writing stamps every record that has no
 * `Date_Extracted` with the current time, completes the configured columns
 * with "" and drops every other key, and writes the header only when the
 * mode is 'w' or the file does not exist yet.
 *
 * Deduplication reads the file back the way `pandas.read_csv` does (the
 * first line names the columns; an empty cell is read as a missing value)
 * and keeps the new records whose five key columns match no stored line.
 */
module Csv {
  import opened Text
  import opened Records

  /** `mode='w'` (overwrite) and `mode='a'` (append). */
  datatype Mode = Overwrite | Append

  /** The columns a record is matched on. */
  const KeyColumns: seq<string> := [Unit, Resource, Location, InstructionalMoment, PageNumbers]

  /** A record after `errata['Date_Extracted'] = current_time` when it had no such key. */
  function Stamped(r: Record, now: string): (s: Record)
    ensures s.Keys == r.Keys + {DateExtracted}
    ensures forall k :: k in r ==> s[k] == r[k]
    ensures DateExtracted !in r ==> s[DateExtracted] == now
  {
    if DateExtracted in r then r else r[DateExtracted := now]
  }

  /** The CSV line of a record: its value in each configured column, "" where it has none. */
  function Line(r: Record, columns: seq<string>): seq<string> {
    seq(|columns|, j requires 0 <= j < |columns| => Get(r, columns[j]))
  }

  function Lines(rs: seq<Record>, columns: seq<string>): seq<seq<string>> {
    seq(|rs|, i requires 0 <= i < |rs| => Line(rs[i], columns))
  }

  /** The lines a write leaves in the file. */
  function LinesAfter(mode: Mode, present: bool, lines: seq<seq<string>>, columns: seq<string>, rows: seq<seq<string>>): seq<seq<string>> {
    (if mode == Append then lines else [])
    + (if mode == Overwrite || !present then [columns] else [])
    + rows
  }

  // ---------------------------------------------------------------------
  // keys, as the merge compares them

  /** A cell as `read_csv` gives it back: an empty or absent cell is a missing value. */
  function ReadCell(line: seq<string>, j: nat): Option<string> {
    if j < |line| && line[j] != [] then Some(line[j]) else None
  }

  /** The key a new record brings into the merge: a key it lacks is a missing value. */
  function NewKey(r: Record, keys: seq<string>): seq<Option<string>> {
    seq(|keys|, j requires 0 <= j < |keys| => if keys[j] in r then Some(r[keys[j]]) else None)
  }

  /** The key of a stored line, found through the header line. */
  function StoredKey(line: seq<string>, header: seq<string>, keys: seq<string>): seq<Option<string>> {
    seq(|keys|, j requires 0 <= j < |keys| => ReadCell(line, IndexOf(header, keys[j])))
  }

  /** The keys of the data lines, i.e. every line after the header. */
  function StoredKeys(lines: seq<seq<string>>, keys: seq<string>): seq<seq<Option<string>>>
    requires lines != []
  {
    seq(|lines| - 1, k requires 0 <= k < |lines| - 1 => StoredKey(lines[k + 1], lines[0], keys))
  }

  /** The left anti-join: the new records whose key is not stored, in their order. */
  function Unique(news: seq<Record>, stored: seq<seq<Option<string>>>, keys: seq<string>): seq<Record>
    decreases |news|
  {
    if news == [] then []
    else (if NewKey(news[0], keys) in stored then [] else [news[0]]) + Unique(news[1..], stored, keys)
  }

  /** The stored data reads back as an empty frame: no file, an empty file, or a header alone. */
  predicate NothingStored(lines: seq<seq<string>>) {
    |lines| <= 1 || lines[0] == []
  }

  /** The merge can look up every key column on both sides; otherwise it raises. */
  predicate Mergeable(news: seq<Record>, header: seq<string>, keys: seq<string>) {
    forall j :: 0 <= j < |keys| ==> keys[j] in header && exists i :: 0 <= i < |news| && keys[j] in news[i]
  }

  /** `deduplicate_errata` as written, on the stored lines. */
  function Deduplicated(news: seq<Record>, lines: seq<seq<string>>, keys: seq<string>): seq<Record> {
    if NothingStored(lines) || !Mergeable(news, lines[0], keys) then news
    else Unique(news, StoredKeys(lines, keys), keys)
  }

  // ---------------------------------------------------------------------
  // the intended comparison: text against text, a missing value read as ""

  function TextCell(line: seq<string>, j: nat): string {
    if j < |line| then line[j] else []
  }

  function TextKey(r: Record, keys: seq<string>): seq<string> {
    seq(|keys|, j requires 0 <= j < |keys| => Get(r, keys[j]))
  }

  function StoredTextKey(line: seq<string>, header: seq<string>, keys: seq<string>): seq<string> {
    seq(|keys|, j requires 0 <= j < |keys| => TextCell(line, IndexOf(header, keys[j])))
  }

  function StoredTextKeys(lines: seq<seq<string>>, keys: seq<string>): seq<seq<string>>
    requires lines != []
  {
    seq(|lines| - 1, k requires 0 <= k < |lines| - 1 => StoredTextKey(lines[k + 1], lines[0], keys))
  }

  function UniqueIntended(news: seq<Record>, stored: seq<seq<string>>, keys: seq<string>): seq<Record>
    decreases |news|
  {
    if news == [] then []
    else (if TextKey(news[0], keys) in stored then [] else [news[0]]) + UniqueIntended(news[1..], stored, keys)
  }

  /** `deduplicate_errata` comparing the key columns as text. */
  function DeduplicatedIntended(news: seq<Record>, lines: seq<seq<string>>, keys: seq<string>): seq<Record> {
    if NothingStored(lines) || !Mergeable(news, lines[0], keys) then news
    else UniqueIntended(news, StoredTextKeys(lines, keys), keys)
  }

  // ---------------------------------------------------------------------
  // the writer

  class CsvWriter {
    /** `config['output']['csv_columns']`. */
    const columns: seq<string>
    /** Whether the file at `csv_path` exists. */
    var present: bool
    /** The lines of that file. */
    var lines: seq<seq<string>>

    /** The file holds one header line, the configured columns, and lines as wide as it. */
    predicate Valid()
      reads this
    {
      && (present <==> lines != [])
      && (lines != [] ==> lines[0] == columns)
      && forall k :: 0 <= k < |lines| ==> |lines[k]| == |columns|
    }

    constructor (columns: seq<string>, present: bool, lines: seq<seq<string>>)
      requires present || lines == []
      ensures this.columns == columns && this.present == present && this.lines == lines
    {
      this.columns := columns;
      this.present := present;
      this.lines := lines;
    }

    /**
     * `write_errata_data`. `now` is the current time, `writable` whether
     * `to_csv` can write the file; `stamped` are the records as the caller
     * sees them afterwards (the source adds the key to the caller's
     * dictionaries).
     */
    method WriteErrataData(errata: seq<Record>, mode: Mode, now: string, writable: bool) returns (ok: bool, stamped: seq<Record>)
      modifies this
      ensures |stamped| == |errata|
      ensures forall i :: 0 <= i < |errata| ==> stamped[i] == Stamped(errata[i], now)
      ensures ok == writable
      ensures !writable ==> present == old(present) && lines == old(lines)
      ensures writable ==> present && lines == LinesAfter(mode, old(present), old(lines), columns, Lines(stamped, columns))
      ensures writable && (old(Valid()) || mode == Overwrite) ==> Valid()
    {
      stamped := [];
      for i := 0 to |errata|
        invariant |stamped| == i
        invariant forall k :: 0 <= k < i ==> stamped[k] == Stamped(errata[k], now)
      {
        var e := errata[i];
        if DateExtracted !in e {
          e := e[DateExtracted := now];
        }
        stamped := stamped + [e];
      }
      if !writable {
        return false, stamped;
      }
      var writeHeader := mode == Overwrite || !present;
      var rows := Lines(stamped, columns);
      lines := (if mode == Append then lines else []) + (if writeHeader then [columns] else []) + rows;
      present := true;
      ok := true;
    }

    /** `append_errata_data`: a write in mode 'a'. */
    method AppendErrataData(errata: seq<Record>, now: string, writable: bool) returns (ok: bool, stamped: seq<Record>)
      modifies this
      ensures |stamped| == |errata|
      ensures forall i :: 0 <= i < |errata| ==> stamped[i] == Stamped(errata[i], now)
      ensures ok == writable
      ensures !writable ==> present == old(present) && lines == old(lines)
      ensures writable ==> present && lines == LinesAfter(Append, old(present), old(lines), columns, Lines(stamped, columns))
      ensures writable && old(Valid()) ==> Valid()
    {
      ok, stamped := WriteErrataData(errata, Append, now, writable);
    }

    /**
     * `deduplicate_errata` as written: the merge compares the key columns
     * as `read_csv` reads them back.
     */
    method DeduplicateErrataAsWritten(newErrata: seq<Record>) returns (result: seq<Record>)
      ensures result == Deduplicated(newErrata, lines, KeyColumns)
      ensures NothingStored(lines) || !Mergeable(newErrata, lines[0], KeyColumns) ==> result == newErrata
      ensures !NothingStored(lines) && Mergeable(newErrata, lines[0], KeyColumns) ==>
        forall x :: x in result <==> x in newErrata && NewKey(x, KeyColumns) !in StoredKeys(lines, KeyColumns)
      ensures |result| <= |newErrata|
    {
      if NothingStored(lines) || !Mergeable(newErrata, lines[0], KeyColumns) {
        return newErrata;
      }
      result := Unique(newErrata, StoredKeys(lines, KeyColumns), KeyColumns);
      UniqueAsWrittenMembers(newErrata, StoredKeys(lines, KeyColumns), KeyColumns);
    }

    /**
     * `deduplicate_errata`: the new records whose key the file does not
     * hold yet, with the key columns compared as text.
     */
    method DeduplicateErrata(newErrata: seq<Record>) returns (result: seq<Record>)
      ensures result == DeduplicatedIntended(newErrata, lines, KeyColumns)
      ensures NothingStored(lines) || !Mergeable(newErrata, lines[0], KeyColumns) ==> result == newErrata
      ensures !NothingStored(lines) && Mergeable(newErrata, lines[0], KeyColumns) ==>
        forall x :: x in result <==> x in newErrata && TextKey(x, KeyColumns) !in StoredTextKeys(lines, KeyColumns)
      ensures |result| <= |newErrata|
    {
      if NothingStored(lines) || !Mergeable(newErrata, lines[0], KeyColumns) {
        return newErrata;
      }
      result := UniqueIntended(newErrata, StoredTextKeys(lines, KeyColumns), KeyColumns);
      UniqueMembers(newErrata, StoredTextKeys(lines, KeyColumns), KeyColumns);
    }
  }

  // ---------------------------------------------------------------------
  // properties of the writer

  /** Mode 'w' keeps nothing of what the file held: the header, then the new lines. */
  lemma OverwriteDropsStored(present: bool, lines: seq<seq<string>>, columns: seq<string>, rows: seq<seq<string>>)
    ensures LinesAfter(Overwrite, present, lines, columns, rows) == [columns] + rows
  {
  }

  /** Mode 'a' keeps what the file held and adds the new lines after it, with a header only for a new file. */
  lemma AppendKeepsStored(present: bool, lines: seq<seq<string>>, columns: seq<string>, rows: seq<seq<string>>)
    requires present <==> lines != []
    ensures var after := LinesAfter(Append, present, lines, columns, rows);
      && after[..|lines|] == lines
      && after[|after| - |rows|..] == rows
      && |after| == |lines| + |rows| + (if present then 0 else 1)
  {
  }

  /** A line holds each record's own value in every column it is written under. */
  lemma LineCell(r: Record, columns: seq<string>, key: string)
    requires key in columns
    ensures TextCell(Line(r, columns), IndexOf(columns, key)) == Get(r, key)
  {
  }

  // ---------------------------------------------------------------------
  // properties of the deduplication

  /** A record is kept exactly when it is a new record whose key is not stored. */
  lemma {:induction false} UniqueMembers(news: seq<Record>, stored: seq<seq<string>>, keys: seq<string>)
    ensures forall x :: x in UniqueIntended(news, stored, keys) <==> x in news && TextKey(x, keys) !in stored
    ensures |UniqueIntended(news, stored, keys)| <= |news|
    decreases |news|
  {
    if news != [] {
      UniqueMembers(news[1..], stored, keys);
      assert news == [news[0]] + news[1..];
    }
  }

  /** As written, too: a record is kept exactly when it is new and its key, as `read_csv` compares it, is not stored. */
  lemma {:induction false} UniqueAsWrittenMembers(news: seq<Record>, stored: seq<seq<Option<string>>>, keys: seq<string>)
    ensures forall x :: x in Unique(news, stored, keys) <==> x in news && NewKey(x, keys) !in stored
    ensures |Unique(news, stored, keys)| <= |news|
    decreases |news|
  {
    if news != [] {
      UniqueAsWrittenMembers(news[1..], stored, keys);
      assert news == [news[0]] + news[1..];
    }
  }

  /** The anti-join keeps the order of the new records: it works on each part of a split alone. */
  lemma {:induction false} UniqueAppend(a: seq<Record>, b: seq<Record>, stored: seq<seq<string>>, keys: seq<string>)
    ensures UniqueIntended(a + b, stored, keys) == UniqueIntended(a, stored, keys) + UniqueIntended(b, stored, keys)
    decreases |a|
  {
    if a == [] {
      assert a + b == b;
    } else {
      assert (a + b)[1..] == a[1..] + b;
      UniqueAppend(a[1..], b, stored, keys);
    }
  }

  /** No stored cell reads back as the empty text. */
  lemma StoredNeverEmpty(lines: seq<seq<string>>, keys: seq<string>, p: nat)
    requires lines != [] && p < |keys|
    ensures forall k :: 0 <= k < |StoredKeys(lines, keys)| ==> StoredKeys(lines, keys)[k][p] != Some([])
  {
  }

  /**
   * A key column that every new record holds as the empty text never
   * matches: the stored side reads that cell back as a missing value.
   */
  lemma {:induction false} EmptyKeyNeverMatches(news: seq<Record>, lines: seq<seq<string>>, keys: seq<string>, p: nat)
    requires lines != [] && p < |keys|
    requires forall i :: 0 <= i < |news| ==> keys[p] in news[i] && news[i][keys[p]] == []
    ensures Unique(news, StoredKeys(lines, keys), keys) == news
    decreases |news|
  {
    if news != [] {
      var stored := StoredKeys(lines, keys);
      StoredNeverEmpty(lines, keys, p);
      assert NewKey(news[0], keys)[p] == Some([]);
      assert NewKey(news[0], keys) !in stored;
      EmptyKeyNeverMatches(news[1..], lines, keys, p);
      assert news == [news[0]] + news[1..];
    }
  }

  /**
   * Records with an empty `Instructional_Moment`, which is every record the
   * parser produces, are never recognised as duplicates.
   */
  lemma DeduplicatedKeepsAll(news: seq<Record>, lines: seq<seq<string>>)
    requires forall i :: 0 <= i < |news| ==> InstructionalMoment in news[i] && news[i][InstructionalMoment] == []
    ensures Deduplicated(news, lines, KeyColumns) == news
  {
    if !NothingStored(lines) && Mergeable(news, lines[0], KeyColumns) {
      EmptyKeyNeverMatches(news, lines, KeyColumns, 3);
    }
  }

  lemma {:induction false} UniqueIntendedAllStored(news: seq<Record>, stored: seq<seq<string>>, keys: seq<string>)
    requires forall i :: 0 <= i < |news| ==> TextKey(news[i], keys) in stored
    ensures UniqueIntended(news, stored, keys) == []
    decreases |news|
  {
    if news != [] {
      UniqueIntendedAllStored(news[1..], stored, keys);
    }
  }

  /** The key read back from a written line is the key of the record written. */
  lemma WrittenKey(r: Record, columns: seq<string>, keys: seq<string>)
    requires forall j :: 0 <= j < |keys| ==> keys[j] in columns
    ensures StoredTextKey(Line(r, columns), columns, keys) == TextKey(r, keys)
  {
    forall j | 0 <= j < |keys|
      ensures StoredTextKey(Line(r, columns), columns, keys)[j] == TextKey(r, keys)[j]
    {
      LineCell(r, columns, keys[j]);
    }
  }

  /** Every appended record's key is among the stored keys afterwards. */
  lemma AppendedKeysStored(lines: seq<seq<string>>, columns: seq<string>, xs: seq<Record>, keys: seq<string>, i: nat)
    requires lines != [] && lines[0] == columns
    requires forall j :: 0 <= j < |keys| ==> keys[j] in columns
    requires i < |xs|
    ensures TextKey(xs[i], keys) in StoredTextKeys(lines + Lines(xs, columns), keys)
  {
    var all := lines + Lines(xs, columns);
    var k := |lines| + i;
    assert all[k] == Line(xs[i], columns);
    WrittenKey(xs[i], columns, keys);
    assert StoredTextKeys(all, keys)[k - 1] == StoredTextKey(all[k], columns, keys);
  }

  /** With text keys, records just appended are all recognised as duplicates of themselves. */
  lemma AppendThenDeduplicate(present: bool, lines: seq<seq<string>>, columns: seq<string>, xs: seq<Record>, keys: seq<string>)
    requires present <==> lines != []
    requires lines != [] ==> lines[0] == columns
    requires keys != [] && forall j :: 0 <= j < |keys| ==> keys[j] in columns
    requires forall i, j :: 0 <= i < |xs| && 0 <= j < |keys| ==> keys[j] in xs[i]
    ensures DeduplicatedIntended(xs, LinesAfter(Append, present, lines, columns, Lines(xs, columns)), keys) == []
  {
    var head := lines + (if present then [] else [columns]);
    var after := LinesAfter(Append, present, lines, columns, Lines(xs, columns));
    assert after == head + Lines(xs, columns);
    assert keys[0] in columns;
    if xs != [] {
      assert Mergeable(xs, after[0], keys) by {
        forall j | 0 <= j < |keys| ensures keys[j] in after[0] && keys[j] in xs[0] { }
      }
      forall i | 0 <= i < |xs| ensures TextKey(xs[i], keys) in StoredTextKeys(after, keys) {
        AppendedKeysStored(head, columns, xs, keys, i);
      }
      UniqueIntendedAllStored(xs, StoredTextKeys(after, keys), keys);
    }
  }
}
