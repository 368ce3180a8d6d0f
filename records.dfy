/**
 * An errata record is a dictionary from column names to text
 * (`ErrataParser._clean_errata_data`, `ErrataParser._is_valid_errata_record`).
 * Cleaning strips every value, collapses its whitespace runs to one space
 * and then normalises the page, date and categorical columns.
 */
module Records {
  import opened Text
  import Dates
  import PageNormalization
  import Categorical

  type Record = map<string, string>

  const DateExtracted: string := "Date_Extracted"
  const GradeLevel: string := "Grade_Level"
  const Unit: string := "Unit"
  const Resource: string := "Resource"
  const Location: string := "Location"
  const InstructionalMoment: string := "Instructional_Moment"
  const PageNumbers: string := "Page_Numbers"
  const ImprovementDescription: string := "Improvement_Description"
  const ImprovementType: string := "Improvement_Type"
  const DateUpdated: string := "Date_Updated"

  /** `record.get(key)`, with a missing key read as the empty text (both are falsy). */
  function Get(r: Record, key: string): string {
    if key in r then r[key] else []
  }

  /** `re.sub(r'\s+', ' ', value.strip())`. */
  function Tidy(v: string): string {
    CollapseSpaces(Strip(v))
  }

  predicate IsCategorical(key: string) {
    key == Unit || key == Resource || key == Location
  }

  /** The cleaning of one value, chosen by its column. */
  function CleanValue(key: string, v: string): string {
    var c := Tidy(v);
    if key == PageNumbers then PageNormalization.NormalizePageNumbers(c)
    else if key == DateUpdated then Dates.NormalizeDate(c)
    else if IsCategorical(key) then Categorical.NormalizeCategorical(c)
    else c
  }

  /** The dictionary `_clean_errata_data` builds: the same keys, each value cleaned. */
  function Cleaned(r: Record): (c: Record) {
    map k | k in r :: CleanValue(k, r[k])
  }

  /**
   * `_clean_errata_data`: a loop over the keys that fills a new
   * dictionary. The order of the keys does not matter, since each value is
   * cleaned on its own.
   */
  method CleanErrataData(r: Record) returns (c: Record)
    ensures c == Cleaned(r)
  {
    c := map[];
    var todo := r.Keys;
    while todo != {}
      invariant todo <= r.Keys
      invariant c.Keys == r.Keys - todo
      invariant forall k :: k in c ==> c[k] == CleanValue(k, r[k])
      decreases |todo|
    {
      var k :| k in todo;
      c := c[k := CleanValue(k, r[k])];
      todo := todo - {k};
    }
  }

  /** A record is kept when its unit, resource and description are all non-empty. */
  predicate IsValidRecord(r: Record) {
    Get(r, Unit) != [] && Get(r, Resource) != [] && Get(r, ImprovementDescription) != []
  }

  // ---------------------------------------------------------------------
  // properties of the cleaning

  /** A tidied value has no whitespace at its ends, and inside only single spaces. */
  lemma TidyShape(v: string)
    ensures var c := Tidy(v);
      && (c == [] || (!IsSpace(c[0]) && !IsSpace(c[|c| - 1])))
      && NoDoubleSpace(c)
      && forall i :: 0 <= i < |c| && IsSpace(c[i]) ==> c[i] == ' '
  {
    var s := Strip(v);
    CollapseNoDoubleSpace(s);
    if s != [] {
      CollapseLast(s);
    }
  }

  /** An empty value stays empty in every column. */
  lemma EmptyStaysEmpty(key: string)
    ensures CleanValue(key, []) == []
  {
    assert Strip([]) == [];
  }

  /** A column with no normaliser of its own is just tidied. */
  lemma PlainColumn(key: string, v: string)
    requires key != PageNumbers && key != DateUpdated && !IsCategorical(key)
    ensures var c := CleanValue(key, v);
      && (c == [] || (!IsSpace(c[0]) && !IsSpace(c[|c| - 1])))
      && NoDoubleSpace(c)
  {
    TidyShape(v);
  }

  /** A cleaned date is empty, a valid zero-padded date, or the tidied text itself. */
  lemma DateColumn(v: string)
    ensures var c := CleanValue(DateUpdated, v);
      c == [] || Dates.IsCanonicalDate(c) || c == Tidy(v)
  {
  }

  /** Cleaning a date column twice changes nothing more. */
  lemma DateColumnTwice(v: string)
    requires Dates.IsCanonicalDate(CleanValue(DateUpdated, v))
    ensures CleanValue(DateUpdated, CleanValue(DateUpdated, v)) == CleanValue(DateUpdated, v)
  {
    var c := CleanValue(DateUpdated, v);
    Dates.CanonicalFixed(c);
    CanonicalNoSpace(c);
    StripNoSpace(c);
    CollapseNoSpace(c);
  }

  lemma CanonicalNoSpace(r: string)
    requires Dates.IsCanonicalDate(r)
    ensures forall i :: 0 <= i < |r| ==> !IsSpace(r[i])
  {
    forall i | 0 <= i < |r| ensures !IsSpace(r[i]) {
      if i < 4 {
        assert r[..4][i] == r[i];
      } else if 5 <= i < 7 {
        assert r[5..7][i - 5] == r[i];
      } else if 8 <= i {
        assert r[8..][i - 8] == r[i];
      }
    }
  }
}
