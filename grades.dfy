/**
 * The grade level of an errata page, read from its title or its URL
 * (`ErrataParser._extract_grade_level_from_strings` for the HTML backend,
 * `ErrataParser._extract_grade_level` for the browser backend).
 *
 * Six title patterns are searched in order, case-insensitively. The label
 * is then chosen by asking which keyword occurs in the pattern's own text:
 * `'kindergarten' in pattern`, `'grade' in pattern`, `'algebra' in pattern`,
 * and so on. The text of the `pre-algebra` pattern contains "algebra", so
 * a title matched by it takes the algebra branch, which reads the pattern's
 * first group; that pattern has no group, so the lookup raises.
 */
module Grades {
  import opened Text
  import Components

  // ---------------------------------------------------------------------
  // case-insensitive search

  /** `re.search(kw, s[i..], re.IGNORECASE)` finds something, for a keyword without metacharacters. */
  predicate FoundFrom(kw: string, s: string, i: nat)
    decreases |s| - i
  {
    i + |kw| <= |s| && (MatchesAt(kw, s, i) || FoundFrom(kw, s, i + 1))
  }

  /**
   * `kw\s*(\d+)` (with `gap`) or `kw(\d+)` (without) at `i`: the text of
   * the group. A greedy `\s*` never needs to give back a space, since a
   * space cannot start the digit group.
   */
  function NumberAt(kw: string, s: string, i: nat, gap: bool): (r: Option<string>)
    ensures r.Some? ==> MatchesAt(kw, s, i) && r.value != [] && forall k :: 0 <= k < |r.value| ==> IsDigit(r.value[k])
  {
    if !MatchesAt(kw, s, i) then None
    else
      var j := if gap then Components.SkipSpaces(s, i + |kw|) else i + |kw|;
      if j < |s| && IsDigit(s[j]) then
        var e := Components.DigitRun(s, j);
        Components.RunAreDigits(s, j);
        Some(s[j..e])
      else None
  }

  /** The group of the leftmost match of `kw\s*(\d+)` or `kw(\d+)` at or after `i`. */
  function NumberFrom(kw: string, s: string, i: nat, gap: bool): (r: Option<string>)
    ensures r.Some? ==> r.value != [] && forall k :: 0 <= k < |r.value| ==> IsDigit(r.value[k])
    decreases |s| - i
  {
    if i > |s| then None
    else
      var here := NumberAt(kw, s, i, gap);
      if here.Some? then here else NumberFrom(kw, s, i + 1, gap)
  }

  // ---------------------------------------------------------------------
  // the title patterns

  datatype TitlePattern = Kindergarten | GradeNumber | AlgebraNumber | Geometry | PreAlgebra | Calculus

  /** The title patterns in the order they are tried. */
  const PatternCount: nat := 6

  function PatternAt(i: nat): TitlePattern
    requires i < PatternCount
  {
    if i == 0 then Kindergarten
    else if i == 1 then GradeNumber
    else if i == 2 then AlgebraNumber
    else if i == 3 then Geometry
    else if i == 4 then PreAlgebra
    else Calculus
  }

  /** The regular expression exactly as the source writes it. */
  function PatternText(p: TitlePattern): string {
    match p
    case Kindergarten => "kindergarten"
    case GradeNumber => "grade\\s*(\\d+)"
    case AlgebraNumber => "algebra\\s*(\\d+)"
    case Geometry => "geometry"
    case PreAlgebra => "pre-algebra"
    case Calculus => "calculus"
  }

  /** Only the two number patterns have a group. */
  predicate HasGroup(p: TitlePattern) {
    p == GradeNumber || p == AlgebraNumber
  }

  /**
   * `re.search(pattern, title, re.IGNORECASE)`: `None` when nothing
   * matches, otherwise the first group's text (empty for a pattern
   * without a group).
   */
  function TitleMatch(p: TitlePattern, title: string): (r: Option<string>)
    ensures r.Some? && HasGroup(p) ==> r.value != []
    ensures r.Some? && !HasGroup(p) ==> r.value == []
  {
    match p
    case Kindergarten => if FoundFrom("kindergarten", title, 0) then Some([]) else None
    case GradeNumber => NumberFrom("grade", title, 0, true)
    case AlgebraNumber => NumberFrom("algebra", title, 0, true)
    case Geometry => if FoundFrom("geometry", title, 0) then Some([]) else None
    case PreAlgebra => if FoundFrom("pre-algebra", title, 0) then Some([]) else None
    case Calculus => if FoundFrom("calculus", title, 0) then Some([]) else None
  }

  /** What the label lookup gives: a label, or the `IndexError` of `match.group(1)` on a pattern without a group. */
  datatype Lookup = Label(name: string) | NoSuchGroup

  /**
   * The `if/elif` chain after a match, as written: it tests which keyword
   * occurs in the pattern's text (Python's `in`, case-sensitive). `None`
   * when no branch applies, so that the loop would go on.
   */
  function LabelAsWritten(p: TitlePattern, group: string): Option<Lookup> {
    var text := PatternText(p);
    if Contains("kindergarten", text) then Some(Label("Kindergarten"))
    else if Contains("grade", text) then Some(if HasGroup(p) then Label("Grade " + group) else NoSuchGroup)
    else if Contains("algebra", text) then Some(if HasGroup(p) then Label("Algebra " + group) else NoSuchGroup)
    else if Contains("geometry", text) then Some(Label("Geometry"))
    else if Contains("pre-algebra", text) then Some(Label("Pre-Algebra"))
    else if Contains("calculus", text) then Some(Label("Calculus"))
    else None
  }

  /** The title loop as written, from pattern `i` on: the first pattern that matches and has a branch decides. */
  function TitleLookup(i: nat, title: string): Option<Lookup>
    decreases PatternCount - i
  {
    if i >= PatternCount then None
    else
      var m := TitleMatch(PatternAt(i), title);
      var l := if m.Some? then LabelAsWritten(PatternAt(i), m.value) else None;
      if l.Some? then l else TitleLookup(i + 1, title)
  }

  /** The label each pattern evidently stands for: `pre-algebra` gives "Pre-Algebra". */
  function LabelIntended(p: TitlePattern, group: string): string {
    match p
    case Kindergarten => "Kindergarten"
    case GradeNumber => "Grade " + group
    case AlgebraNumber => "Algebra " + group
    case Geometry => "Geometry"
    case PreAlgebra => "Pre-Algebra"
    case Calculus => "Calculus"
  }

  function TitleLabel(i: nat, title: string): Option<string>
    decreases PatternCount - i
  {
    if i >= PatternCount then None
    else
      var m := TitleMatch(PatternAt(i), title);
      if m.Some? then Some(LabelIntended(PatternAt(i), m.value)) else TitleLabel(i + 1, title)
  }

  // ---------------------------------------------------------------------
  // the URL patterns

  /** `kindergarten`, `grade-(\d+)`, `algebra-(\d+)`, `geometry`, `pre-algebra`, `calculus`, with their labels. */
  function UrlLabel(url: string): (r: Option<string>)
  {
    if FoundFrom("kindergarten", url, 0) then Some("Kindergarten")
    else
      var g := NumberFrom("grade-", url, 0, false);
      if g.Some? then Some("Grade " + g.value)
      else
        var a := NumberFrom("algebra-", url, 0, false);
        if a.Some? then Some("Algebra " + a.value)
        else if FoundFrom("geometry", url, 0) then Some("Geometry")
        else if FoundFrom("pre-algebra", url, 0) then Some("Pre-Algebra")
        else if FoundFrom("calculus", url, 0) then Some("Calculus")
        else None
  }

  const UnknownGrade: string := "Unknown Grade"

  // ---------------------------------------------------------------------
  // the HTML backend: title, then URL, each only when non-empty

  /**
   * `_extract_grade_level_from_strings` as written. `NoSuchGroup` is the
   * exception that leaves the function.
   */
  function GradeFromStrings(title: string, url: string): (r: Lookup)
    ensures title != [] && TitleLookup(0, title).Some? ==> r == TitleLookup(0, title).value
    ensures (title == [] || TitleLookup(0, title).None?) && url != [] && UrlLabel(url).Some? ==>
      r == Label(UrlLabel(url).value)
    ensures (title == [] || TitleLookup(0, title).None?) && (url == [] || UrlLabel(url).None?) ==>
      r == Label(UnknownGrade)
  {
    var t := if title != [] then TitleLookup(0, title) else None;
    if t.Some? then t.value
    else
      var u := if url != [] then UrlLabel(url) else None;
      if u.Some? then Label(u.value) else Label(UnknownGrade)
  }

  /** The same with the `pre-algebra` branch reached. */
  function GradeFromStringsIntended(title: string, url: string): (r: string)
    ensures title != [] && TitleLabel(0, title).Some? ==> r == TitleLabel(0, title).value
    ensures (title == [] || TitleLabel(0, title).None?) && url != [] && UrlLabel(url).Some? ==> r == UrlLabel(url).value
    ensures (title == [] || TitleLabel(0, title).None?) && (url == [] || UrlLabel(url).None?) ==> r == UnknownGrade
  {
    var t := if title != [] then TitleLabel(0, title) else None;
    if t.Some? then t.value
    else
      var u := if url != [] then UrlLabel(url) else None;
      if u.Some? then u.value else UnknownGrade
  }

  // ---------------------------------------------------------------------
  // the browser backend: the exception is caught, and a word fallback

  /** `any(k in word for k in [...])` over the words of `title.lower()`. */
  predicate AnyWordHasKeyword(words: seq<string>) {
    words != [] &&
      (|| Contains("kindergarten", words[0]) || Contains("grade", words[0])
       || Contains("algebra", words[0]) || Contains("geometry", words[0])
       || AnyWordHasKeyword(words[1..]))
  }

  /** `s.split('|')[0]`: everything before the first bar. */
  function BeforeBar(s: string): (r: string)
    ensures |r| <= |s| && r == s[..|r|]
    ensures forall k :: 0 <= k < |r| ==> r[k] != '|'
    ensures |r| < |s| ==> s[|r|] == '|'
  {
    if s == [] || s[0] == '|' then [] else [s[0]] + BeforeBar(s[1..])
  }

  /**
   * `_extract_grade_level` as written: the title (its exception turns into
   * "Unknown Grade"), then the URL even when it is empty, then the title's
   * words, then "Unknown Grade".
   */
  function BrowserGrade(title: string, url: string): (r: string)
  {
    var t := TitleLookup(0, title);
    if t.Some? then (if t.value.Label? then t.value.name else UnknownGrade)
    else
      var u := UrlLabel(url);
      if u.Some? then u.value
      else if AnyWordHasKeyword(Words(Lower(title))) then Strip(BeforeBar(title))
      else UnknownGrade
  }

  // ---------------------------------------------------------------------
  // properties

  /** The labels a grade can be given by the patterns. */
  predicate IsPatternLabel(g: string) {
    || g in {"Kindergarten", "Geometry", "Pre-Algebra", "Calculus"}
    || (|g| > 6 && g[..6] == "Grade " && forall k :: 6 <= k < |g| ==> IsDigit(g[k]))
    || (|g| > 8 && g[..8] == "Algebra " && forall k :: 8 <= k < |g| ==> IsDigit(g[k]))
  }

  lemma LabelIntendedIsLabel(p: TitlePattern, group: string)
    requires HasGroup(p) ==> group != [] && forall k :: 0 <= k < |group| ==> IsDigit(group[k])
    ensures IsPatternLabel(LabelIntended(p, group))
  {
    var g := LabelIntended(p, group);
    if p == GradeNumber {
      assert g[..6] == "Grade ";
      assert forall k :: 6 <= k < |g| ==> g[k] == group[k - 6];
    } else if p == AlgebraNumber {
      assert g[..8] == "Algebra ";
      assert forall k :: 8 <= k < |g| ==> g[k] == group[k - 8];
    }
  }

  lemma {:induction false} TitleLabelIsLabel(i: nat, title: string)
    ensures TitleLabel(i, title).Some? ==> IsPatternLabel(TitleLabel(i, title).value)
    decreases PatternCount - i
  {
    if i < PatternCount {
      var m := TitleMatch(PatternAt(i), title);
      if m.Some? {
        LabelIntendedIsLabel(PatternAt(i), m.value);
      } else {
        TitleLabelIsLabel(i + 1, title);
      }
    }
  }

  lemma UrlLabelIsLabel(url: string)
    ensures UrlLabel(url).Some? ==> IsPatternLabel(UrlLabel(url).value)
  {
    if !FoundFrom("kindergarten", url, 0) {
      var g := NumberFrom("grade-", url, 0, false);
      if g.Some? {
        var l := "Grade " + g.value;
        assert l[..6] == "Grade ";
        assert forall k :: 6 <= k < |l| ==> l[k] == g.value[k - 6];
      } else {
        var a := NumberFrom("algebra-", url, 0, false);
        if a.Some? {
          var l := "Algebra " + a.value;
          assert l[..8] == "Algebra ";
          assert forall k :: 8 <= k < |l| ==> l[k] == a.value[k - 8];
        }
      }
    }
  }

  /** With the intended dispatch every page gets a pattern label or "Unknown Grade". */
  lemma IntendedGradeIsKnown(title: string, url: string)
    ensures var g := GradeFromStringsIntended(title, url);
      IsPatternLabel(g) || g == UnknownGrade
  {
    TitleLabelIsLabel(0, title);
    UrlLabelIsLabel(url);
  }

  /** A title that matches a pattern decides the grade, whatever the URL says. */
  lemma TitleFirst(title: string, url: string, url2: string)
    requires title != [] && TitleLabel(0, title).Some?
    ensures GradeFromStringsIntended(title, url) == GradeFromStringsIntended(title, url2)
  {
  }

  lemma Present(p: string, s: string, k: nat)
    requires OccursAt(p, s, k)
    ensures Contains(p, s)
  {
    ContainsFromIff(p, s, 0);
  }

  /** Where each dispatch keyword stands in the pattern text that contains it. */
  lemma KeywordAt(p: TitlePattern, kw: string, k: nat)
    requires (p, kw, k) in {(Kindergarten, "kindergarten", 0), (GradeNumber, "grade", 0), (AlgebraNumber, "algebra", 0),
                            (Geometry, "geometry", 0), (Calculus, "calculus", 0), (PreAlgebra, "algebra", 4)}
    ensures OccursAt(kw, PatternText(p), k)
  {
    var t := PatternText(p);
    assert t[k..k + |kw|] == kw;
  }

  lemma GradeDispatch(group: string)
    ensures LabelAsWritten(GradeNumber, group) == Some(Label("Grade " + group))
  {
    var t := PatternText(GradeNumber);
    PairAbsent("kindergarten", t, 0);
    KeywordAt(GradeNumber, "grade", 0);
    Present("grade", t, 0);
  }

  lemma AlgebraDispatch(group: string)
    ensures LabelAsWritten(AlgebraNumber, group) == Some(Label("Algebra " + group))
  {
    var t := PatternText(AlgebraNumber);
    PairAbsent("kindergarten", t, 0);
    PairAbsent("grade", t, 0);
    KeywordAt(AlgebraNumber, "algebra", 0);
    Present("algebra", t, 0);
  }

  lemma GeometryDispatch(group: string)
    ensures LabelAsWritten(Geometry, group) == Some(Label("Geometry"))
  {
    var t := PatternText(Geometry);
    PairAbsent("kindergarten", t, 0);
    PairAbsent("grade", t, 0);
    PairAbsent("algebra", t, 0);
    KeywordAt(Geometry, "geometry", 0);
    Present("geometry", t, 0);
  }

  lemma CalculusDispatch(group: string)
    ensures LabelAsWritten(Calculus, group) == Some(Label("Calculus"))
  {
    var t := PatternText(Calculus);
    PairAbsent("kindergarten", t, 0);
    PairAbsent("grade", t, 0);
    PairAbsent("algebra", t, 1);
    PairAbsent("geometry", t, 0);
    KeywordAt(Calculus, "calculus", 0);
    Present("calculus", t, 0);
  }

  /** The as-written dispatch gives the intended label for every pattern but `pre-algebra`. */
  lemma DispatchAgrees(p: TitlePattern, group: string)
    requires p != PreAlgebra
    ensures LabelAsWritten(p, group) == Some(Label(LabelIntended(p, group)))
  {
    match p
    case Kindergarten =>
      KeywordAt(Kindergarten, "kindergarten", 0);
      Present("kindergarten", PatternText(p), 0);
    case GradeNumber => GradeDispatch(group);
    case AlgebraNumber => AlgebraDispatch(group);
    case Geometry => GeometryDispatch(group);
    case Calculus => CalculusDispatch(group);
  }

  /** The `pre-algebra` pattern lands in the algebra branch and asks for a group it does not have. */
  lemma PreAlgebraRaises(group: string)
    ensures LabelAsWritten(PreAlgebra, group) == Some(NoSuchGroup)
  {
    var t := PatternText(PreAlgebra);
    PairAbsent("kindergarten", t, 0);
    PairAbsent("grade", t, 0);
    KeywordAt(PreAlgebra, "algebra", 4);
    Present("algebra", t, 4);
  }

  /**
   * The as-written title loop and the intended one stop at the same
   * pattern; they differ only where that pattern is `pre-algebra`.
   */
  lemma {:induction false} LookupAgrees(i: nat, title: string)
    ensures Agree(TitleLookup(i, title), TitleLabel(i, title))
    decreases PatternCount - i
  {
    if i < PatternCount {
      LookupAgrees(i + 1, title);
      LookupStep(i, title);
    } else {
      LookupPast(i, title);
    }
  }

  /** Past the last pattern both loops have found nothing. */
  lemma LookupPast(i: nat, title: string)
    requires i >= PatternCount
    ensures TitleLookup(i, title) == None && TitleLabel(i, title) == None
  {
  }

  /**
   * The two loops' answers agree: both stop or neither does; a label found
   * as written is the intended one; and where the as-written lookup raises,
   * the intended label is "Pre-Algebra".
   */
  predicate Agree(l: Option<Lookup>, t: Option<string>) {
    && (l.Some? <==> t.Some?)
    && (l.Some? && l.value.Label? ==> t.value == l.value.name)
    && (l == Some(NoSuchGroup) ==> t == Some("Pre-Algebra"))
  }

  /** One pattern: both loops stop at it and agree, or both go on to the next, so agreement there carries back. */
  lemma LookupStep(i: nat, title: string)
    requires i < PatternCount
    ensures Agree(TitleLookup(i + 1, title), TitleLabel(i + 1, title)) ==> Agree(TitleLookup(i, title), TitleLabel(i, title))
  {
    if TitleMatch(PatternAt(i), title).Some? {
      LookupHit(i, title);
    } else {
      LookupMiss(i, title);
    }
  }

  /** Where pattern `i` matches, both loops stop there, and agree as `LookupAgrees` says. */
  lemma LookupHit(i: nat, title: string)
    requires i < PatternCount && TitleMatch(PatternAt(i), title).Some?
    ensures TitleLookup(i, title).Some? && TitleLabel(i, title).Some?
    ensures TitleLookup(i, title).value.Label? ==> TitleLabel(i, title).value == TitleLookup(i, title).value.name
    ensures TitleLookup(i, title) == Some(NoSuchGroup) ==> TitleLabel(i, title) == Some("Pre-Algebra")
  {
    var p := PatternAt(i);
    var m := TitleMatch(p, title);
    if p == PreAlgebra {
      PreAlgebraRaises(m.value);
    } else {
      DispatchAgrees(p, m.value);
    }
  }

  /** Where pattern `i` does not match, both loops go on to the next pattern. */
  lemma LookupMiss(i: nat, title: string)
    requires i < PatternCount && TitleMatch(PatternAt(i), title).None?
    ensures TitleLookup(i, title) == TitleLookup(i + 1, title)
    ensures TitleLabel(i, title) == TitleLabel(i + 1, title)
  {
  }

  /** Where the HTML backend's lookup does not raise, it gives the intended grade; where it raises, the intended grade is "Pre-Algebra". */
  lemma GradeAgrees(title: string, url: string)
    ensures GradeFromStrings(title, url).Label? ==> GradeFromStrings(title, url).name == GradeFromStringsIntended(title, url)
    ensures GradeFromStrings(title, url).NoSuchGroup? ==> GradeFromStringsIntended(title, url) == "Pre-Algebra"
  {
    LookupAgrees(0, title);
  }

  /** Text without a bar keeps none after stripping. */
  lemma StripNoBar(s: string)
    requires forall k :: 0 <= k < |s| ==> s[k] != '|'
    ensures forall k :: 0 <= k < |Strip(s)| ==> Strip(s)[k] != '|'
  {
    var r := Strip(s);
    var a, b :| 0 <= a <= b <= |s| && r == s[a..b] && CutSpaces(s, a, b);
    SliceNoBar(s, a, b);
  }

  /** A slice of bar-free text is bar-free. */
  lemma SliceNoBar(s: string, a: nat, b: nat)
    requires a <= b <= |s|
    requires forall k :: 0 <= k < |s| ==> s[k] != '|'
    ensures forall k :: 0 <= k < |s[a..b]| ==> s[a..b][k] != '|'
  {
    forall k | 0 <= k < |s[a..b]|
      ensures s[a..b][k] != '|'
    {
      assert s[a..b][k] == s[a + k];
    }
  }

  /**
   * The browser backend answers a pattern label, "Unknown Grade", or the
   * title's first bar-separated part, stripped.
   */
  lemma BrowserGradeKinds(title: string, url: string)
    ensures var g := BrowserGrade(title, url);
      || IsPatternLabel(g) || g == UnknownGrade
      || (g == Strip(BeforeBar(title)) && forall k :: 0 <= k < |g| ==> g[k] != '|')
  {
    LookupAgrees(0, title);
    TitleLabelIsLabel(0, title);
    UrlLabelIsLabel(url);
    StripNoBar(BeforeBar(title));
  }

  // ---------------------------------------------------------------------
  // a title that shows the difference

  lemma {:induction false} NotFound(kw: string, s: string, i: nat)
    requires forall k :: i <= k ==> !MatchesAt(kw, s, k)
    ensures !FoundFrom(kw, s, i)
    decreases |s| - i
  {
    if i + |kw| <= |s| {
      NotFound(kw, s, i + 1);
    }
  }

  lemma {:induction false} NoNumber(kw: string, s: string, i: nat, gap: bool)
    requires forall k :: i <= k <= |s| ==> NumberAt(kw, s, k, gap).None?
    ensures NumberFrom(kw, s, i, gap).None?
    decreases |s| - i
  {
    if i <= |s| {
      NoNumber(kw, s, i + 1, gap);
    }
  }

  /** No group from `i` only when the pattern matches at no position from `i`. */
  lemma {:induction false} NumberFromMissed(kw: string, s: string, i: nat, gap: bool)
    requires NumberFrom(kw, s, i, gap).None?
    ensures forall k :: i <= k <= |s| ==> NumberAt(kw, s, k, gap).None?
    decreases |s| - i
  {
    if i <= |s| {
      NumberFromMissed(kw, s, i + 1, gap);
    }
  }

  /** `k` lies from `i` on, and no position in `[i, k)` matches. */
  predicate NumberFirstAt(kw: string, s: string, i: nat, gap: bool, k: nat) {
    i <= k <= |s| && forall q :: i <= q < k ==> NumberAt(kw, s, q, gap).None?
  }

  /** A group found from `i` is the group of the leftmost position that matches. */
  lemma {:induction false} NumberFromFirst(kw: string, s: string, i: nat, gap: bool)
    requires NumberFrom(kw, s, i, gap).Some?
    ensures exists k :: NumberFirstAt(kw, s, i, gap, k) && NumberAt(kw, s, k, gap) == NumberFrom(kw, s, i, gap)
    decreases |s| - i
  {
    if NumberAt(kw, s, i, gap).Some? {
      assert NumberFirstAt(kw, s, i, gap, i);
    } else {
      NumberFromFirst(kw, s, i + 1, gap);
      var k :| NumberFirstAt(kw, s, i + 1, gap, k) && NumberAt(kw, s, k, gap) == NumberFrom(kw, s, i + 1, gap);
      assert NumberFirstAt(kw, s, i, gap, k);
    }
  }

  /** Case-insensitive form of `PairAbsent`, for positions from `lo` on. */
  lemma NoMatchByPair(kw: string, s: string, j: nat, lo: nat)
    requires j + 1 < |kw|
    requires forall k :: lo <= k && k + 1 < |s| ==> !(SameLetter(s[k], kw[j]) && SameLetter(s[k + 1], kw[j + 1]))
    ensures forall k :: 0 <= k && lo <= k + j ==> !MatchesAt(kw, s, k)
  {
    forall k | 0 <= k && lo <= k + j ensures !MatchesAt(kw, s, k) {
      if k + |kw| <= |s| {
        assert !(SameLetter(s[k + j], kw[j]) && SameLetter(s[k + j + 1], kw[j + 1]));
      }
    }
  }

  /** What the patterns find in the title "Pre-Algebra". */
  lemma PreAlgebraNoGr(s: string)
    requires s == "Pre-Algebra"
    ensures forall k :: 0 <= k && k + 1 < |s| ==> !(SameLetter(s[k], 'g') && SameLetter(s[k + 1], 'r'))
  {
  }

  lemma PreAlgebraNoEo(s: string)
    requires s == "Pre-Algebra"
    ensures forall k :: 0 <= k && k + 1 < |s| ==> !(SameLetter(s[k], 'e') && SameLetter(s[k + 1], 'o'))
  {
  }

  lemma PreAlgebraAl(s: string)
    requires s == "Pre-Algebra"
    ensures forall k :: 5 <= k && k + 1 < |s| ==> !(SameLetter(s[k], 'a') && SameLetter(s[k + 1], 'l'))
    ensures forall k :: 0 <= k < 4 ==> !SameLetter(s[k], 'a')
  {
  }

  lemma PreAlgebraNoAlgebraNumber(s: string)
    requires s == "Pre-Algebra"
    ensures TitleMatch(AlgebraNumber, s).None?
  {
    PreAlgebraAl(s);
    NoMatchByPair("algebra", s, 0, 5);
    forall k | 0 <= k <= |s| ensures NumberAt("algebra", s, k, true).None? {
      if k < 4 {
        assert !SameLetter(s[k + 0], "algebra"[0]);
      } else if k == 4 {
        assert Components.SkipSpaces(s, 11) == 11;
      }
    }
    NoNumber("algebra", s, 0, true);
  }

  lemma PreAlgebraNoGradeNumber(s: string)
    requires s == "Pre-Algebra"
    ensures TitleMatch(GradeNumber, s).None?
  {
    PreAlgebraNoGr(s);
    NoMatchByPair("grade", s, 0, 0);
    forall k | 0 <= k <= |s| ensures NumberAt("grade", s, k, true).None? {
    }
    NoNumber("grade", s, 0, true);
  }

  lemma PreAlgebraNoGeometry(s: string)
    requires s == "Pre-Algebra"
    ensures TitleMatch(Geometry, s).None?
  {
    PreAlgebraNoEo(s);
    NoMatchByPair("geometry", s, 1, 0);
    NotFound("geometry", s, 0);
  }

  lemma PreAlgebraFound(s: string)
    requires s == "Pre-Algebra"
    ensures TitleMatch(Kindergarten, s).None? && TitleMatch(PreAlgebra, s).Some?
  {
    assert MatchesAt("pre-algebra", s, 0);
  }

  /** The first four patterns miss and `pre-algebra` matches: the as-written lookup raises. */
  lemma PreAlgebraLookup(s: string)
    requires TitleMatch(Kindergarten, s).None? && TitleMatch(GradeNumber, s).None?
    requires TitleMatch(AlgebraNumber, s).None? && TitleMatch(Geometry, s).None?
    requires TitleMatch(PreAlgebra, s).Some?
    ensures TitleLookup(0, s) == Some(NoSuchGroup)
    ensures TitleLabel(0, s) == Some("Pre-Algebra")
  {
    PreAlgebraRaises(TitleMatch(PreAlgebra, s).value);
    assert TitleLookup(0, s) == TitleLookup(4, s);
    assert TitleLabel(0, s) == TitleLabel(4, s);
  }

  /**
   * A page titled "Pre-Algebra": the HTML backend's lookup raises whatever
   * the URL, the browser backend answers "Unknown Grade", and the intended
   * lookup answers "Pre-Algebra".
   */
  lemma PreAlgebraTitle(url: string)
    ensures GradeFromStrings("Pre-Algebra", url) == NoSuchGroup
    ensures BrowserGrade("Pre-Algebra", url) == UnknownGrade
    ensures GradeFromStringsIntended("Pre-Algebra", url) == "Pre-Algebra"
  {
    var s := "Pre-Algebra";
    PreAlgebraFound(s);
    PreAlgebraNoGradeNumber(s);
    PreAlgebraNoAlgebraNumber(s);
    PreAlgebraNoGeometry(s);
    PreAlgebraLookup(s);
  }
}
