/**
 * The pure helpers of the dashboard: the classification of an improvement
 * as student- or teacher-facing by keywords, the one-line description of
 * where a correction is, and the ordering of grade levels for the
 * selection lists. A missing value of a data frame (`NaN`) is `None`.
 */
module Dashboard {
  import opened Text

  /** The three classes the documentation names; the code returns only two of them. */
  datatype ContentType = TeacherFacing | StudentFacing | Ambiguous

  /** The three keyword lists, checked in this order. */
  datatype KeywordList = TeacherResource | TeacherDescription | StudentResource

  function KeywordCount(list: KeywordList): nat {
    match list
    case TeacherResource => 10
    case TeacherDescription => 10
    case StudentResource => 13
  }

  function Keyword(list: KeywordList, i: nat): string
    requires i < KeywordCount(list)
  {
    match list
    case TeacherResource =>
      [ "teacher", "teacher edition", "teacher guide", "answer key", "solutions", "rubric",
        "scoring guide", "responding to student thinking", "notes", "script" ][i]
    case TeacherDescription =>
      [ "responding to student thinking", "teacher guide", "answer key", "scoring guide", "rubric",
        "teacher edition", "instructor", "facilitator", "teaching notes", "pedagogical" ][i]
    case StudentResource =>
      [ "student workbook", "student", "practice problem", "warm-up", "cool-down", "activity",
        "task", "lesson", "assessment", "checkpoint", "quiz", "test", "exit ticket" ][i]
  }

  /** Some keyword of the list is a substring of `text`. */
  predicate HasKeyword(list: KeywordList, text: string) {
    exists i :: 0 <= i < KeywordCount(list) && Contains(Keyword(list, i), text)
  }

  /** A missing or empty value is read as "", then lower-cased. */
  function LowerOrEmpty(v: Option<string>): string {
    if v.None? then [] else Lower(v.value)
  }

  /** What `classify_content_type` returns. */
  function Classification(resource: Option<string>, description: Option<string>): ContentType {
    var r := LowerOrEmpty(resource);
    var d := LowerOrEmpty(description);
    if HasKeyword(TeacherResource, r) then TeacherFacing
    else if HasKeyword(TeacherDescription, d) then TeacherFacing
    else if HasKeyword(StudentResource, r) then StudentFacing
    else TeacherFacing
  }

  /** One of the `for keyword in ...: if keyword in text: return` loops. */
  method FindKeyword(list: KeywordList, text: string) returns (found: bool)
    ensures found <==> HasKeyword(list, text)
  {
    var i := 0;
    while i < KeywordCount(list)
      invariant i <= KeywordCount(list)
      invariant forall k :: 0 <= k < i ==> !Contains(Keyword(list, k), text)
    {
      if Contains(Keyword(list, i), text) {
        return true;
      }
      i := i + 1;
    }
    return false;
  }

  /** `classify_content_type`. */
  method ClassifyContentType(resource: Option<string>, description: Option<string>) returns (kind: ContentType)
    ensures kind == Classification(resource, description)
  {
    var r := LowerOrEmpty(resource);
    var d := LowerOrEmpty(description);
    var found := FindKeyword(TeacherResource, r);
    if found {
      return TeacherFacing;
    }
    found := FindKeyword(TeacherDescription, d);
    if found {
      return TeacherFacing;
    }
    found := FindKeyword(StudentResource, r);
    if found {
      return StudentFacing;
    }
    return TeacherFacing;
  }

  // ---------------------------------------------------------------------
  // properties of the classification

  /** Everything is either teacher- or student-facing; nothing is classed as ambiguous. */
  lemma NeverAmbiguous(resource: Option<string>, description: Option<string>)
    ensures Classification(resource, description) != Ambiguous
  {
  }

  /**
   * Student-facing exactly when the resource names no teacher material,
   * the description names no teacher material, and the resource names
   * student material.
   */
  lemma StudentFacingIff(resource: Option<string>, description: Option<string>)
    ensures Classification(resource, description) == StudentFacing <==>
      && !HasKeyword(TeacherResource, LowerOrEmpty(resource))
      && !HasKeyword(TeacherDescription, LowerOrEmpty(description))
      && HasKeyword(StudentResource, LowerOrEmpty(resource))
  {
  }

  /** Nothing to go on (both values missing) counts as teacher-facing. */
  lemma MissingIsTeacherFacing()
    ensures Classification(None, None) == TeacherFacing
  {
    forall i | 0 <= i < KeywordCount(StudentResource)
      ensures !Contains(Keyword(StudentResource, i), [])
    {
      ContainsEmpty(Keyword(StudentResource, i), []);
    }
  }

  /** A resource that mentions a teacher, in any case, is teacher-facing whatever else it says. */
  lemma TeacherWins(resource: string, description: Option<string>)
    requires Contains("teacher", Lower(resource))
    ensures Classification(Some(resource), description) == TeacherFacing
  {
    assert Contains(Keyword(TeacherResource, 0), Lower(resource));
  }

  // ---------------------------------------------------------------------
  // format_resource_info

  const NoInformation: string := "No resource information available"

  /** A value that is shown: present, non-empty and not the text "nan". */
  predicate Shown(v: Option<string>) {
    v.Some? && v.value != [] && v.value != "nan"
  }

  /** The parts, in order: the resource, the location, and "Page(s): " with the pages. */
  function InfoParts(resource: Option<string>, location: Option<string>, pages: Option<string>): seq<string> {
    (if Shown(resource) then [resource.value] else [])
    + (if Shown(location) then [location.value] else [])
    + (if Shown(pages) then ["Page(s): " + pages.value] else [])
  }

  /** `format_resource_info`. */
  function FormatResourceInfo(resource: Option<string>, location: Option<string>, pages: Option<string>): string {
    var parts := InfoParts(resource, location, pages);
    if parts != [] then Join(parts, " - ") else NoInformation
  }

  // ---------------------------------------------------------------------
  // properties of the formatting

  /** The text "nan" is shown as if the value were missing. */
  lemma NanIsMissing(location: Option<string>, pages: Option<string>)
    ensures FormatResourceInfo(Some("nan"), location, pages) == FormatResourceInfo(None, location, pages)
    ensures FormatResourceInfo(Some([]), location, pages) == FormatResourceInfo(None, location, pages)
  {
  }

  /** With nothing shown the fixed message is the result. */
  lemma NothingShown(resource: Option<string>, location: Option<string>, pages: Option<string>)
    requires !Shown(resource) && !Shown(location) && !Shown(pages)
    ensures FormatResourceInfo(resource, location, pages) == NoInformation
  {
  }

  /** All three shown: resource, location and pages, separated by " - ". */
  lemma AllShown(resource: string, location: string, pages: string)
    requires Shown(Some(resource)) && Shown(Some(location)) && Shown(Some(pages))
    ensures FormatResourceInfo(Some(resource), Some(location), Some(pages)) == resource + " - " + location + " - " + "Page(s): " + pages
  {
    var p := "Page(s): " + pages;
    var parts := [resource, location, p];
    assert InfoParts(Some(resource), Some(location), Some(pages)) == parts;
    assert parts[1..][1..] == [p];
    assert Join(parts[1..], " - ") == location + " - " + p;
    assert Join(parts, " - ") == resource + " - " + (location + " - " + p);
  }

  /** The result starts with the first shown part, and each further part costs its length plus 3. */
  lemma FormatLength(resource: Option<string>, location: Option<string>, pages: Option<string>)
    requires InfoParts(resource, location, pages) != []
    ensures var parts := InfoParts(resource, location, pages);
      var r := FormatResourceInfo(resource, location, pages);
      && r[..|parts[0]|] == parts[0]
      && |r| == SumLengths(parts) + 3 * (|parts| - 1)
  {
    var parts := InfoParts(resource, location, pages);
    JoinLength(parts, " - ");
    if |parts| > 1 {
      assert Join(parts, " - ") == parts[0] + (" - " + Join(parts[1..], " - "));
    }
  }

  // ---------------------------------------------------------------------
  // the order of grade levels in the selection lists

  /** The curriculum order of grade levels. */
  const GradeOrder: seq<string> :=
    [ "Kindergarten", "Grade 1", "Grade 2", "Grade 3", "Grade 4", "Grade 5", "Grade 6", "Grade 7", "Grade 8",
      "Algebra 1", "Geometry", "Algebra 2" ]

  predicate NoDuplicates(xs: seq<string>) {
    forall i, j :: 0 <= i < j < |xs| ==> xs[i] != xs[j]
  }

  /**
   * `sorted` lists each level once: first those of `order`, in that order,
   * then the others in the order they first appear in `levels`.
   */
  ghost predicate OrderedLevels(sorted: seq<string>, order: seq<string>, levels: seq<string>) {
    && NoDuplicates(sorted)
    && (forall x :: x in sorted <==> x in levels)
    && (forall i, j :: 0 <= i < j < |sorted| && sorted[j] in order ==>
          sorted[i] in order && IndexOf(order, sorted[i]) < IndexOf(order, sorted[j]))
    && (forall i, j :: 0 <= i < j < |sorted| && sorted[i] !in order ==>
          sorted[j] !in order && IndexOf(levels, sorted[i]) < IndexOf(levels, sorted[j]))
  }

  /** The first loop: the levels of `order` that occur in `levels`, in the order of `order`. */
  method KnownLevels(order: seq<string>, levels: seq<string>) returns (known: seq<string>)
    requires NoDuplicates(order)
    ensures NoDuplicates(known)
    ensures forall x :: x in known <==> x in levels && x in order
    ensures forall a, b :: 0 <= a < b < |known| ==> IndexOf(order, known[a]) < IndexOf(order, known[b])
  {
    known := [];
    for i := 0 to |order|
      invariant NoDuplicates(known)
      invariant forall x :: x in known <==> x in levels && x in order[..i]
      invariant forall k :: 0 <= k < |known| ==> IndexOf(order, known[k]) < i
      invariant forall a, b :: 0 <= a < b < |known| ==> IndexOf(order, known[a]) < IndexOf(order, known[b])
    {
      assert order[..i + 1] == order[..i] + [order[i]];
      if order[i] in levels {
        assert IndexOf(order, order[i]) == i;
        known := known + [order[i]];
      }
    }
    assert order[..|order|] == order;
  }

  /** The second loop: every level not listed yet, in the order of `levels`. */
  method AppendOthers(known: seq<string>, order: seq<string>, levels: seq<string>) returns (sorted: seq<string>)
    requires NoDuplicates(known)
    requires forall x :: x in known <==> x in levels && x in order
    ensures |known| <= |sorted| && sorted[..|known|] == known
    ensures NoDuplicates(sorted)
    ensures forall x :: x in sorted <==> x in levels
    ensures forall k :: |known| <= k < |sorted| ==> sorted[k] !in order
    ensures forall a, b :: |known| <= a < b < |sorted| ==> IndexOf(levels, sorted[a]) < IndexOf(levels, sorted[b])
  {
    sorted := known;
    for i := 0 to |levels|
      invariant |known| <= |sorted| && sorted[..|known|] == known
      invariant NoDuplicates(sorted)
      invariant forall x :: x in sorted <==> x in levels && (x in order || x in levels[..i])
      invariant forall k :: |known| <= k < |sorted| ==> sorted[k] !in order && IndexOf(levels, sorted[k]) < i
      invariant forall a, b :: |known| <= a < b < |sorted| ==> IndexOf(levels, sorted[a]) < IndexOf(levels, sorted[b])
    {
      assert levels[..i + 1] == levels[..i] + [levels[i]];
      if levels[i] !in sorted {
        assert IndexOf(levels, levels[i]) == i;
        sorted := sorted + [levels[i]];
      }
    }
    assert levels[..|levels|] == levels;
  }

  /** The two loops that order the grade levels, for any order without repetitions. */
  method OrderLevels(order: seq<string>, levels: seq<string>) returns (sorted: seq<string>)
    requires NoDuplicates(order)
    ensures OrderedLevels(sorted, order, levels)
  {
    var known := KnownLevels(order, levels);
    sorted := AppendOthers(known, order, levels);
    forall i, j | 0 <= i < j < |sorted| && sorted[j] in order
      ensures sorted[i] in order && IndexOf(order, sorted[i]) < IndexOf(order, sorted[j])
    {
      assert j < |known|;
      assert sorted[i] == known[i] && sorted[j] == known[j];
    }
  }

  lemma GradeOrderNoDuplicates()
    ensures NoDuplicates(GradeOrder)
  {
  }

  /**
   * The grade-level lists of the dashboard: the curriculum grades present,
   * Kindergarten to Algebra 2, then any other level in order of appearance.
   */
  method SortGradeLevels(levels: seq<string>) returns (sorted: seq<string>)
    ensures OrderedLevels(sorted, GradeOrder, levels)
  {
    GradeOrderNoDuplicates();
    sorted := OrderLevels(GradeOrder, levels);
  }
}
