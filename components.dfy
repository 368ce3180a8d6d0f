/**
 * `ErrataParser._parse_component_text`: the "component" cell of an errata
 * row is split into a resource, a location and a page-number list.
 *
 * Two regular expressions are involved, both case-insensitive:
 *   - a page reference: a keyword `pgs?\.?\s*` or `pages?\s*` followed by a
 *     list `\d+(?:-\d+)?(?:,\s*\d+(?:-\d+)?)*`; the first one found gives the
 *     page numbers and every one met by a left-to-right scan (together with a
 *     comma and whitespace in front of it) is deleted from the text;
 *   - six resource prefixes `(<Name>.*?)(?:,|$)`, tried in a fixed order.
 */
module Components {
  import opened Text

  // ---------------------------------------------------------------------
  // page references

  /** Index just past the whitespace run that starts at `i`. */
  function SkipSpaces(s: string, i: nat): (j: nat)
    requires i <= |s|
    ensures i <= j <= |s|
    ensures j < |s| ==> !IsSpace(s[j])
    decreases |s| - i
  {
    if i < |s| && IsSpace(s[i]) then SkipSpaces(s, i + 1) else i
  }

  /** Index just past the digit run that starts at `i` (`\d*`, greedy). */
  function DigitRun(s: string, i: nat): (j: nat)
    requires i <= |s|
    ensures i <= j <= |s|
    ensures j < |s| ==> !IsDigit(s[j])
    ensures j > i ==> IsDigit(s[j - 1])
    decreases |s| - i
  {
    if i < |s| && IsDigit(s[i]) then DigitRun(s, i + 1) else i
  }

  /** Characters a page list is made of. */
  predicate IsPageChar(c: char) {
    IsDigit(c) || c == '-' || c == ',' || IsSpace(c)
  }

  /** `\d+(?:-\d+)?` at a digit `i`: the end of one page or one page range. */
  function RangeEnd(s: string, i: nat): (j: nat)
    requires i < |s| && IsDigit(s[i])
    ensures i < j <= |s| && IsDigit(s[j - 1])
    ensures j < |s| ==> !IsDigit(s[j])
  {
    var e := DigitRun(s, i);
    if e + 1 < |s| && s[e] == '-' && IsDigit(s[e + 1]) then DigitRun(s, e + 1) else e
  }

  /** `(?:,\s*\d+(?:-\d+)?)*` from `i`, greedy: further pages of the list. */
  function ListTail(s: string, i: nat): (j: nat)
    requires i <= |s|
    ensures i <= j <= |s|
    ensures j > i ==> IsDigit(s[j - 1])
    decreases |s| - i
  {
    if i < |s| && s[i] == ',' then
      var k := SkipSpaces(s, i + 1);
      if k < |s| && IsDigit(s[k]) then ListTail(s, RangeEnd(s, k)) else i
    else i
  }

  /** The end of the page list whose first digit is at `i`. */
  function PageListEnd(s: string, i: nat): (j: nat)
    requires i < |s| && IsDigit(s[i])
    ensures i < j <= |s| && IsDigit(s[j - 1])
  {
    ListTail(s, RangeEnd(s, i))
  }

  lemma {:induction false} SkippedAreSpaces(s: string, i: nat)
    requires i <= |s|
    ensures forall k :: i <= k < SkipSpaces(s, i) ==> IsSpace(s[k])
    decreases |s| - i
  {
    if i < |s| && IsSpace(s[i]) {
      SkippedAreSpaces(s, i + 1);
    }
  }

  lemma {:induction false} RunAreDigits(s: string, i: nat)
    requires i <= |s|
    ensures forall k :: i <= k < DigitRun(s, i) ==> IsDigit(s[k])
    decreases |s| - i
  {
    if i < |s| && IsDigit(s[i]) {
      RunAreDigits(s, i + 1);
    }
  }

  lemma RangeChars(s: string, i: nat)
    requires i < |s| && IsDigit(s[i])
    ensures forall k :: i <= k < RangeEnd(s, i) ==> IsDigit(s[k]) || s[k] == '-'
  {
    var e := DigitRun(s, i);
    RunAreDigits(s, i);
    if e + 1 < |s| && s[e] == '-' && IsDigit(s[e + 1]) {
      RunAreDigits(s, e + 1);
    }
  }

  lemma {:induction false} ListTailChars(s: string, i: nat)
    requires i <= |s|
    ensures forall k :: i <= k < ListTail(s, i) ==> IsPageChar(s[k])
    decreases |s| - i
  {
    if i < |s| && s[i] == ',' {
      var k := SkipSpaces(s, i + 1);
      if k < |s| && IsDigit(s[k]) {
        SkippedAreSpaces(s, i + 1);
        RangeChars(s, k);
        ListTailChars(s, RangeEnd(s, k));
      }
    }
  }

  /** A page list holds only digits, dashes, commas and whitespace. */
  lemma PageListChars(s: string, i: nat)
    requires i < |s| && IsDigit(s[i])
    ensures forall k :: i <= k < PageListEnd(s, i) ==> IsPageChar(s[k])
  {
    RangeChars(s, i);
    ListTailChars(s, RangeEnd(s, i));
  }

  /** `c` is the lower-case letter `l` or its capital (`re.IGNORECASE` on ASCII). */
  predicate Letter(c: char, l: char) {
    c == l || c as int == l as int - 32
  }

  /**
   * The keyword `pgs?\.?\s*` or `pages?\s*` at `i`, followed by a digit:
   * the index of that digit. Backtracking can never help either alternative,
   * since what an optional part gives back cannot start a digit run.
   */
  function KeywordEnd(s: string, i: nat): (r: Option<nat>)
    ensures r.Some? ==> i < r.value < |s| && IsDigit(s[r.value])
    ensures r.Some? ==> i < |s| && (s[i] == 'p' || s[i] == 'P')
  {
    if i + 1 < |s| && (s[i] == 'p' || s[i] == 'P') && (s[i + 1] == 'g' || s[i + 1] == 'G') then
      var a := if i + 2 < |s| && (s[i + 2] == 's' || s[i + 2] == 'S') then i + 3 else i + 2;
      var b := if a < |s| && s[a] == '.' then a + 1 else a;
      var c := SkipSpaces(s, b);
      if c < |s| && IsDigit(s[c]) then Some(c) else None
    else if i + 3 < |s| && (s[i] == 'p' || s[i] == 'P') && (s[i + 1] == 'a' || s[i + 1] == 'A') && (s[i + 2] == 'g' || s[i + 2] == 'G') && (s[i + 3] == 'e' || s[i + 3] == 'E') then
      var a := if i + 4 < |s| && (s[i + 4] == 's' || s[i + 4] == 'S') then i + 5 else i + 4;
      var c := SkipSpaces(s, a);
      if c < |s| && IsDigit(s[c]) then Some(c) else None
    else None
  }

  /** A page reference: keyword at `at`, page list from `digits` to `end`. */
  datatype PageRef = PageRef(at: nat, digits: nat, end: nat)

  /** `re.search` for a page reference: the leftmost one at or after `i`. */
  function PageSearch(s: string, i: nat): (r: Option<PageRef>)
    ensures r.Some? ==> && i <= r.value.at && KeywordEnd(s, r.value.at) == Some(r.value.digits)
                        && r.value.end == PageListEnd(s, r.value.digits)
    decreases |s| - i
  {
    if i >= |s| then None
    else
      var k := KeywordEnd(s, i);
      if k.Some? then Some(PageRef(i, k.value, PageListEnd(s, k.value)))
      else PageSearch(s, i + 1)
  }

  /**
   * The removal pattern `,?\s*` + page reference, tried at `i`: the end of the
   * text it deletes. A leading comma is taken when present; giving it back
   * cannot help, because the keyword cannot start with a comma.
   */
  function RemovalEnd(s: string, i: nat): (r: Option<nat>)
    requires i < |s|
    ensures r.Some? ==> i < r.value <= |s|
  {
    var k := if s[i] == ',' then SkipSpaces(s, i + 1) else SkipSpaces(s, i);
    var c := KeywordEnd(s, k);
    if c.Some? then Some(PageListEnd(s, c.value)) else None
  }

  /** `re.sub(<removal pattern>, '', s[i..])`: delete each match met left to right. */
  function RemovePageRefs(s: string, i: nat): (r: string)
    requires i <= |s|
    ensures |r| <= |s| - i
    decreases |s| - i
  {
    if i == |s| then []
    else
      var e := RemovalEnd(s, i);
      if e.Some? then RemovePageRefs(s, e.value)
      else [s[i]] + RemovePageRefs(s, i + 1)
  }

  // ---------------------------------------------------------------------
  // resource prefixes

  /** The resource names, in the order they are tried. */
  const ResourceNames: seq<string> :=
    ["Teacher Edition", "Student Edition", "Teacher Guide", "Student Guide", "Glossary", "Answer Key"]

  /**
   * The lazy `.*?(?:,|$)` after a resource name at `j`: the first position
   * holding a comma, or the end of the text (or the position of a final
   * newline). `.` does not cross a newline, so any other newline stops the
   * match.
   */
  function LazyStop(s: string, j: nat): (r: Option<nat>)
    requires j <= |s|
    ensures r.Some? ==> j <= r.value <= |s|
    ensures r.Some? ==> r.value == |s| || s[r.value] == ',' || (r.value == |s| - 1 && s[r.value] == '\n')
    ensures r.Some? ==> forall k :: j <= k < r.value ==> s[k] != ',' && s[k] != '\n'
    decreases |s| - j
  {
    if j < |s| && s[j] == ',' then Some(j)
    else if j == |s| || (j == |s| - 1 && s[j] == '\n') then Some(j)
    else if s[j] == '\n' then None
    else LazyStop(s, j + 1)
  }

  /** A resource match: group 1 is `s[start..stop]`, the whole match `s[start..end]`. */
  datatype ResourceMatch = ResourceMatch(start: nat, stop: nat, end: nat)

  predicate WellFormed(m: ResourceMatch, s: string) {
    m.start <= m.stop <= m.end <= |s|
  }

  function ResourceAt(name: string, s: string, i: nat): (r: Option<ResourceMatch>)
    ensures r.Some? ==> WellFormed(r.value, s) && r.value.start == i
    ensures r.Some? ==> MatchesAt(name, s, i) && i + |name| <= r.value.stop
    ensures r.Some? ==> r.value.end == r.value.stop || (r.value.end == r.value.stop + 1 && s[r.value.stop] == ',')
  {
    if MatchesAt(name, s, i) then
      var t := LazyStop(s, i + |name|);
      if t.None? then None
      else Some(ResourceMatch(i, t.value, if t.value < |s| && s[t.value] == ',' then t.value + 1 else t.value))
    else None
  }

  /** `re.search(r'(<name>.*?)(?:,|$)', s, re.IGNORECASE)` from position `i`. */
  function ResourceSearch(name: string, s: string, i: nat): (r: Option<ResourceMatch>)
    ensures r.Some? ==> WellFormed(r.value, s) && i <= r.value.start
    ensures r.Some? ==> ResourceAt(name, s, r.value.start) == r
    decreases |s| + 1 - i
  {
    if i > |s| then None
    else if ResourceAt(name, s, i).Some? then ResourceAt(name, s, i)
    else ResourceSearch(name, s, i + 1)
  }

  /**
   * The patterns are tried from `names[i]` on and the first that matches
   * wins: its index and its match.
   */
  function FirstResource(names: seq<string>, s: string, i: nat): (r: Option<(nat, ResourceMatch)>)
    ensures r.Some? ==> i <= r.value.0 < |names| && ResourceSearch(names[r.value.0], s, 0) == Some(r.value.1)
    ensures r.Some? ==> forall k :: i <= k < r.value.0 ==> ResourceSearch(names[k], s, 0).None?
    ensures r.None? ==> forall k :: i <= k < |names| ==> ResourceSearch(names[k], s, 0).None?
    decreases |names| - i
  {
    if i >= |names| then None
    else
      var m := ResourceSearch(names[i], s, 0);
      if m.Some? then Some((i, m.value)) else FirstResource(names, s, i + 1)
  }

  // ---------------------------------------------------------------------
  // the split

  datatype Component = Component(resource: string, location: string, pages: string)

  /**
   * The text left once page references are deleted and the ends stripped;
   * what that is with a reference is `RemainingWithReference`.
   */
  function RemainingText(s: string): (t: string)
    ensures PageSearch(s, 0).None? ==> t == s
    ensures PageSearch(s, 0).Some? ==> t == Strip(RemovePageRefs(s, 0))
  {
    if PageSearch(s, 0).Some? then Strip(RemovePageRefs(s, 0)) else s
  }

  /**
   * The page numbers of the first page reference, or `""`: the text that
   * follows the keyword, a list in the grammar `\d+(?:-\d+)?(?:,\s*\d+(?:-\d+)?)*`
   * that stops where no further range can be added.
   */
  function PageNumbers(s: string): (p: string)
    ensures p == [] <==> PageSearch(s, 0).None?
    ensures p != [] ==> IsDigit(p[0]) && IsDigit(p[|p| - 1])
    ensures forall k :: 0 <= k < |p| ==> IsPageChar(p[k])
    ensures p != [] ==> IsPageList(p)
    ensures p != [] ==> var r := PageSearch(s, 0).value;
      && p == s[r.digits..r.end] && KeywordEnd(s, r.at) == Some(r.digits)
      && ListStops(s, r.end)
  {
    var r := PageSearch(s, 0);
    if r.None? then []
    else
      var d := r.value.digits;
      var e := r.value.end;
      assert e == PageListEnd(s, d) == ListTail(s, RangeEnd(s, d));
      PageSliceShape(s, d);
      PageListGrammar(s, d);
      ListTailStops(s, RangeEnd(s, d));
      s[d..e]
  }

  /** `\d+(?:-\d+)?` matches all of `r`: one page, or two separated by a dash. */
  predicate IsRange(r: string) {
    || (r != [] && AllDigits(r))
    || exists k :: 0 < k < |r| - 1 && r[k] == '-' && AllDigits(r[..k]) && AllDigits(r[k + 1..])
  }

  /** `\d+(?:-\d+)?(?:,\s*\d+(?:-\d+)?)*` matches all of `p`. */
  predicate IsPageList(p: string)
    decreases |p|
  {
    || IsRange(p)
    || exists k, m :: 0 < k < m < |p| && p[k] == ',' && IsRange(p[..k]) && AllSpaces(p[k + 1..m]) && IsPageList(p[m..])
  }

  predicate AllSpaces(w: string) {
    forall q :: 0 <= q < |w| ==> IsSpace(w[q])
  }

  /** Nothing can extend a page list that ends at `e`: no digit, and no comma with a further page. */
  predicate ListStops(s: string, e: nat)
    requires e <= |s|
  {
    && (e < |s| ==> !IsDigit(s[e]))
    && (e < |s| && s[e] == ',' ==> var k := SkipSpaces(s, e + 1); !(k < |s| && IsDigit(s[k])))
  }

  lemma RangeGrammar(s: string, a: nat)
    requires a < |s| && IsDigit(s[a])
    ensures IsRange(s[a..RangeEnd(s, a)])
  {
    var e := DigitRun(s, a);
    RunAreDigits(s, a);
    SliceDigits(s, a, e);
    if e + 1 < |s| && s[e] == '-' && IsDigit(s[e + 1]) {
      var f := DigitRun(s, e + 1);
      RunAreDigits(s, e + 1);
      SliceDigits(s, e + 1, f);
      RangeDash(s, a, e, f);
    }
  }

  /** Digits at every position from `a` to `e` make `s[a..e]` all digits. */
  lemma SliceDigits(s: string, a: nat, e: nat)
    requires a <= e <= |s|
    requires forall k :: a <= k < e ==> IsDigit(s[k])
    ensures AllDigits(s[a..e])
  {
    var w := s[a..e];
    forall q | 0 <= q < |w| ensures IsDigit(w[q]) {
      assert w[q] == s[a + q];
    }
  }

  /** Two digit runs around a dash make a page range. */
  lemma RangeDash(s: string, a: nat, e: nat, f: nat)
    requires a < e && e + 1 < f <= |s| && s[e] == '-'
    requires AllDigits(s[a..e]) && AllDigits(s[e + 1..f])
    ensures IsRange(s[a..f])
  {
    var r := s[a..f];
    assert r[..e - a] == s[a..e];
    assert r[e - a + 1..] == s[e + 1..f];
    assert r[e - a] == '-';
  }

  /** The list the keyword is followed by, from its first digit, is in the page-list grammar. */
  lemma {:induction false} PageListGrammar(s: string, a: nat)
    requires a < |s| && IsDigit(s[a])
    ensures IsPageList(s[a..PageListEnd(s, a)])
    decreases |s| - a
  {
    var e := RangeEnd(s, a);
    var t := ListTail(s, e);
    RangeGrammar(s, a);
    if t != e {
      var k := SkipSpaces(s, e + 1);
      assert s[e] == ',' && k < |s| && IsDigit(s[k]);
      assert t == PageListEnd(s, k);
      PageListGrammar(s, k);
      SkippedAreSpaces(s, e + 1);
      PageListJoin(s, a, e, k, t);
    }
  }

  /** A range in `s`, a comma, spaces and a page list after them make one page list. */
  lemma PageListJoin(s: string, a: nat, e: nat, k: nat, t: nat)
    requires a < e < k < t <= |s| && s[e] == ','
    requires IsRange(s[a..e]) && IsPageList(s[k..t])
    requires forall q :: e < q < k ==> IsSpace(s[q])
    ensures IsPageList(s[a..t])
  {
    var p := s[a..t];
    assert p[..e - a] == s[a..e];
    assert p[k - a..] == s[k..t];
    var w := p[e - a + 1..k - a];
    forall q | 0 <= q < |w| ensures IsSpace(w[q]) {
      assert w[q] == s[e + 1 + q];
    }
    PageListCons(p, e - a, k - a);
  }

  /** A range, a comma, spaces and a further page list make a page list. */
  lemma PageListCons(p: string, k: nat, m: nat)
    requires 0 < k < m < |p| && p[k] == ','
    requires IsRange(p[..k]) && AllSpaces(p[k + 1..m]) && IsPageList(p[m..])
    ensures IsPageList(p)
  {
  }

  /** `ListTail` stops only where the list cannot go on. */
  lemma {:induction false} ListTailStops(s: string, i: nat)
    requires 0 < i <= |s| && IsDigit(s[i - 1])
    requires i < |s| ==> !IsDigit(s[i])
    ensures ListStops(s, ListTail(s, i))
    decreases |s| - i
  {
    if i < |s| && s[i] == ',' {
      var k := SkipSpaces(s, i + 1);
      if k < |s| && IsDigit(s[k]) {
        ListTailStops(s, RangeEnd(s, k));
      }
    }
  }

  lemma PageSliceShape(s: string, d: nat)
    requires d < |s| && IsDigit(s[d])
    ensures var p := s[d..PageListEnd(s, d)];
      && p != [] && IsDigit(p[0]) && IsDigit(p[|p| - 1])
      && forall k :: 0 <= k < |p| ==> IsPageChar(p[k])
  {
    var e := PageListEnd(s, d);
    PageListChars(s, d);
    var p := s[d..e];
    assert p[0] == s[d] && p[|p| - 1] == s[e - 1];
    forall k | 0 <= k < |p| ensures IsPageChar(p[k]) {
      assert p[k] == s[d + k];
    }
  }

  /** Every name is non-empty and begins and ends with a non-space character. */
  predicate ProperNames(names: seq<string>) {
    forall k :: 0 <= k < |names| ==> names[k] != [] && !IsSpace(names[k][0]) && !IsSpace(names[k][|names[k]| - 1])
  }

  lemma ResourceNamesProper()
    ensures ProperNames(ResourceNames)
  {
  }

  /**
   * The resource patterns applied to the text left after page removal: the
   * resource and the location. With no match the whole text is the resource.
   */
  function SplitResource(names: seq<string>, text: string): (string, string)
  {
    var found := FirstResource(names, text, 0);
    if found.None? then (text, [])
    else
      var m := found.value.1;
      var resource := Strip(text[m.start..m.stop]);
      var location := Strip(StripChar(Strip(RemoveAll(text, text[m.start..m.end])), ','));
      (if resource == [] then text else resource, location)
  }

  /** `_parse_component_text`: resource, location and page numbers of a component cell. */
  function ParseComponentText(s: string): Component
  {
    if s == [] then Component([], [], [])
    else
      var split := SplitResource(ResourceNames, RemainingText(s));
      Component(split.0, split.1, PageNumbers(s))
  }

  // ---------------------------------------------------------------------
  // properties

  /** The search finds nothing exactly when no position from `i` on starts a page keyword. */
  lemma {:induction false} PageSearchLeftmost(s: string, i: nat)
    ensures PageSearch(s, i).None? <==> forall k :: i <= k < |s| ==> KeywordEnd(s, k).None?
    decreases |s| - i
  {
    if i < |s| {
      if KeywordEnd(s, i).None? {
        PageSearchStep(s, i);
        PageSearchLeftmost(s, i + 1);
      } else {
        assert PageSearch(s, i).Some?;
      }
    }
  }

  /** No page keyword starts in front of the one the search finds. */
  lemma {:induction false} PageSearchFirst(s: string, i: nat)
    requires PageSearch(s, i).Some?
    ensures forall k :: i <= k < PageSearch(s, i).value.at ==> KeywordEnd(s, k).None?
    decreases |s| - i
  {
    if KeywordEnd(s, i).None? {
      PageSearchFirst(s, i + 1);
    }
  }

  /** Skipping positions that hold no letter p does not change the search: a keyword starts with p. */
  lemma {:induction false} PageSearchSkip(s: string, i: nat, j: nat)
    requires i <= j <= |s|
    requires forall k :: i <= k < j ==> s[k] != 'p' && s[k] != 'P'
    ensures PageSearch(s, i) == PageSearch(s, j)
    decreases j - i
  {
    if i < j {
      PageSearchPast(s, i);
      PageSearchSkip(s, i + 1, j);
    }
  }

  /** The search moves past a position that does not hold `p` or `P`. */
  lemma PageSearchPast(s: string, i: nat)
    requires i < |s| && s[i] != 'p' && s[i] != 'P'
    ensures PageSearch(s, i) == PageSearch(s, i + 1)
  {
    NoKeywordWithoutP(s, i);
    PageSearchStep(s, i);
  }

  lemma PageSearchStep(s: string, i: nat)
    requires i < |s| && KeywordEnd(s, i).None?
    ensures PageSearch(s, i) == PageSearch(s, i + 1)
  {
  }

  /** Every page keyword starts with `p` or `P`. */
  lemma NoKeywordWithoutP(s: string, i: nat)
    requires i < |s| && s[i] != 'p' && s[i] != 'P'
    ensures KeywordEnd(s, i).None?
  {
  }

  /**
   * Before the leftmost page keyword at `at`, the removal pattern matches at
   * `i` only when a comma and whitespace lie between, and it then deletes up
   * to the end of that keyword's page list.
   */
  lemma RemovalBeforeKeyword(s: string, i: nat, at: nat, c: nat)
    requires i <= at < |s|
    requires KeywordEnd(s, at) == Some(c)
    requires forall k :: i <= k < at ==> KeywordEnd(s, k).None?
    ensures RemovalEnd(s, i).Some? ==> RemovalEnd(s, i) == Some(PageListEnd(s, c))
  {
    var st := if s[i] == ',' then i + 1 else i;
    SkipStops(s, st, at);
    var k := SkipSpaces(s, st);
    if k < at {
      assert KeywordEnd(s, k).None?;
    }
  }

  /** What the removal pattern deletes in front of the leftmost keyword is commas and whitespace. */
  lemma RemovalGap(s: string, i: nat, at: nat, c: nat)
    requires i <= at < |s|
    requires KeywordEnd(s, at) == Some(c)
    requires forall k :: i <= k < at ==> KeywordEnd(s, k).None?
    requires RemovalEnd(s, i).Some?
    ensures forall k :: i <= k < at ==> s[k] == ',' || IsSpace(s[k])
  {
    var st := if s[i] == ',' then i + 1 else i;
    SkipStops(s, st, at);
    SkippedAreSpaces(s, st);
    var k := SkipSpaces(s, st);
    assert KeywordEnd(s, k).Some?;
    assert at <= k;
  }

  /** At a keyword the removal pattern deletes through that keyword's page list. */
  lemma RemovalAtKeyword(s: string, at: nat, c: nat)
    requires at < |s| && KeywordEnd(s, at) == Some(c)
    ensures RemovalEnd(s, at) == Some(PageListEnd(s, c))
  {
    assert SkipSpaces(s, at) == at;
  }

  /** The first position from `i` on where the removal pattern matches, given one at `m`. */
  lemma {:induction false} FirstRemoval(s: string, i: nat, m: nat) returns (j: nat)
    requires i <= m < |s| && RemovalEnd(s, m).Some?
    ensures i <= j <= m && RemovalEnd(s, j).Some?
    ensures forall k :: i <= k < j ==> RemovalEnd(s, k).None?
    decreases m - i
  {
    if RemovalEnd(s, i).Some? {
      j := i;
    } else {
      j := FirstRemoval(s, i + 1, m);
    }
  }

  /** Positions where the removal pattern does not match are copied through. */
  lemma {:induction false} KeptUntil(s: string, i: nat, j: nat)
    requires i <= j <= |s|
    requires forall k :: i <= k < j ==> RemovalEnd(s, k).None?
    ensures RemovePageRefs(s, i) == s[i..j] + RemovePageRefs(s, j)
    decreases j - i
  {
    if i < j {
      KeepStep(s, i);
      KeptUntil(s, i + 1, j);
      ConsSlice(s, i, j);
      Associative([s[i]], s[i + 1..j], RemovePageRefs(s, j));
    } else {
      assert s[i..j] + RemovePageRefs(s, j) == RemovePageRefs(s, j);
    }
  }

  lemma KeepStep(s: string, i: nat)
    requires i < |s| && RemovalEnd(s, i).None?
    ensures RemovePageRefs(s, i) == [s[i]] + RemovePageRefs(s, i + 1)
  {
  }

  /** The whitespace run from `i` ends at or before the first non-space at `m`. */
  lemma {:induction false} SkipStops(s: string, i: nat, m: nat)
    requires i <= m < |s| && !IsSpace(s[m])
    ensures SkipSpaces(s, i) <= m
    decreases m - i
  {
    if i < m && IsSpace(s[i]) {
      SkipStops(s, i + 1, m);
    }
  }

  lemma ConsSlice(s: string, i: nat, j: nat)
    requires i < j <= |s|
    ensures s[i..j] == [s[i]] + s[i + 1..j]
  {
  }

  /**
   * The deletion removes the first page reference together with the comma
   * and whitespace right before it, and keeps every character in front of
   * those verbatim.
   */
  lemma FirstReferenceRemoved(s: string) returns (j: nat)
    requires PageSearch(s, 0).Some?
    ensures var r := PageSearch(s, 0).value;
            && j <= r.at
            && RemovePageRefs(s, 0) == s[..j] + RemovePageRefs(s, r.end)
            && (forall k :: j <= k < r.at ==> s[k] == ',' || IsSpace(s[k]))
            && (forall k :: 0 <= k < j ==> RemovalEnd(s, k).None?)
  {
    var r := PageSearch(s, 0).value;
    PageSearchFirst(s, 0);
    RemovalAtKeyword(s, r.at, r.digits);
    j := FirstRemoval(s, 0, r.at);
    RemovalBeforeKeyword(s, j, r.at, r.digits);
    RemovalGap(s, j, r.at, r.digits);
    KeptUntil(s, 0, j);
    assert RemovePageRefs(s, j) == RemovePageRefs(s, r.end);
  }

  /** The page list is empty exactly when no page keyword followed by a digit occurs. */
  lemma PagesIffKeyword(s: string)
    ensures ParseComponentText(s).pages == [] <==> forall k :: 0 <= k < |s| ==> KeywordEnd(s, k).None?
  {
    PageSearchLeftmost(s, 0);
  }

  /** When no page keyword occurs, the deletion changes nothing. */
  lemma {:induction false} NoReferenceKept(s: string, i: nat)
    requires i <= |s|
    requires forall k :: 0 <= k < |s| ==> KeywordEnd(s, k).None?
    ensures RemovePageRefs(s, i) == s[i..]
    decreases |s| - i
  {
    if i < |s| {
      var k := if s[i] == ',' then SkipSpaces(s, i + 1) else SkipSpaces(s, i);
      assert k < |s| ==> KeywordEnd(s, k).None?;
      NoReferenceKept(s, i + 1);
      assert s[i..] == [s[i]] + s[i + 1..];
    }
  }

  /**
   * Where the removal pattern matches nowhere from `i` on, the rest of the
   * text is kept as it is.
   */
  lemma RemovalNone(s: string, i: nat)
    requires i <= |s|
    requires forall k :: i <= k < |s| ==> RemovalEnd(s, k).None?
    ensures RemovePageRefs(s, i) == s[i..]
  {
    KeptUntil(s, i, |s|);
    assert s[i..|s|] == s[i..];
  }

  /**
   * The first match of the removal pattern from `i` on, at `k`, is deleted
   * up to its end; the text before it is kept and the scan goes on after it.
   * With `RemovalNone` this says that every match a left-to-right scan meets
   * is deleted and everything between matches is kept.
   */
  lemma RemovalFirst(s: string, i: nat, k: nat)
    requires i <= k < |s| && RemovalEnd(s, k).Some?
    requires forall j :: i <= j < k ==> RemovalEnd(s, j).None?
    ensures RemovePageRefs(s, i) == s[i..k] + RemovePageRefs(s, RemovalEnd(s, k).value)
  {
    KeptUntil(s, i, k);
  }

  /**
   * With a page reference, the text left is what precedes the first one
   * (less the comma and whitespace in front of it), followed by what the
   * deletion leaves of the text after its page list, with the ends stripped.
   */
  lemma RemainingWithReference(s: string)
    requires PageSearch(s, 0).Some?
    ensures var r := PageSearch(s, 0).value;
      exists j: nat :: j <= r.at && RemainingText(s) == Strip(s[..j] + RemovePageRefs(s, r.end))
                 && forall k :: j <= k < r.at ==> s[k] == ',' || IsSpace(s[k])
  {
    var j := FirstReferenceRemoved(s);
  }

  /**
   * The deletion is a single pass: `ppg 1g 2` loses `pg 1` and keeps the
   * `p` in front of it, and the `p` and `g` that end up side by side form
   * a page reference that is left in the text.
   */
  lemma DeletionFormsReference(s: string)
    requires s == "ppg 1g 2"
    ensures RemovePageRefs(s, 0) == "pg 2"
    ensures PageSearch(RemovePageRefs(s, 0), 0).Some?
  {
    DeletionResult(s);
    ReferenceLeft("pg 2");
  }

  lemma DeletionResult(s: string)
    requires s == "ppg 1g 2"
    ensures RemovePageRefs(s, 0) == "pg 2"
  {
    DeletionMatches(s);
    DeletionSplit(s);
    assert s[0..1] == "p" && s[5..] == "g 2";
  }

  lemma DeletionSplit(s: string)
    requires |s| > 5 && RemovalEnd(s, 0).None? && RemovalEnd(s, 1) == Some(5)
    requires forall k :: 5 <= k < |s| ==> RemovalEnd(s, k).None?
    ensures RemovePageRefs(s, 0) == s[0..1] + s[5..]
  {
    RemovalFirst(s, 0, 1);
    RemovalNone(s, 5);
  }

  lemma DeletionMatches(s: string)
    requires s == "ppg 1g 2"
    ensures RemovalEnd(s, 0).None? && RemovalEnd(s, 1) == Some(5)
    ensures forall k :: 5 <= k < |s| ==> RemovalEnd(s, k).None?
  {
    assert SkipSpaces(s, 4) == 4 && SkipSpaces(s, 3) == 4;
    assert KeywordEnd(s, 1) == Some(4);
    assert DigitRun(s, 5) == 5;
    assert DigitRun(s, 4) == 5;
    assert RangeEnd(s, 4) == 5;
    DeletionTail(s);
  }

  lemma DeletionTail(s: string)
    requires s == "ppg 1g 2"
    ensures forall k :: 5 <= k < |s| ==> RemovalEnd(s, k).None?
  {
    forall k | 5 <= k < |s|
      ensures RemovalEnd(s, k).None?
    {
      var j := SkipSpaces(s, k);
      if j < |s| {
        NoKeywordWithoutP(s, j);
      }
    }
  }

  lemma ReferenceLeft(t: string)
    requires t == "pg 2"
    ensures PageSearch(t, 0).Some?
  {
    assert SkipSpaces(t, 3) == 3 && SkipSpaces(t, 2) == 3;
    assert KeywordEnd(t, 0) == Some(3);
  }

  /**
   * The resource is empty exactly when the text left after page removal
   * is empty. When no resource pattern matches, that whole text is the
   * resource and the location is empty; when one does, the resource begins
   * (case-insensitively) with the first name in the fixed order that
   * matches.
   */
  lemma ResourceRule(names: seq<string>, text: string)
    requires ProperNames(names)
    ensures var split := SplitResource(names, text);
            var found := FirstResource(names, text, 0);
            && (split.0 == [] <==> text == [])
            && (found.None? ==> split == (text, []))
            && (found.Some? ==> MatchesAt(names[found.value.0], split.0, 0))
  {
    var found := FirstResource(names, text, 0);
    if found.Some? {
      GroupStartsWithName(names[found.value.0], text, found.value.1);
    }
  }

  /** Group 1 of a resource match, stripped, still begins with the name. */
  lemma GroupStartsWithName(name: string, text: string, m: ResourceMatch)
    requires name != [] && !IsSpace(name[0]) && !IsSpace(name[|name| - 1])
    requires ResourceAt(name, text, m.start) == Some(m)
    ensures MatchesAt(name, Strip(text[m.start..m.stop]), 0)
  {
    var g := text[m.start..m.stop];
    assert MatchesAt(name, g, 0) by {
      forall q | 0 <= q < |name| ensures SameLetter(g[q], name[q]) {
        assert g[q] == text[m.start + q];
      }
    }
    assert !IsSpace(g[0]) && !IsSpace(g[|name| - 1]) by {
      assert SameLetter(g[0], name[0]) && SameLetter(g[|name| - 1], name[|name| - 1]);
    }
    StripKeepsPrefix(g, |name|);
    var r := Strip(g);
    forall q | 0 <= q < |name| ensures SameLetter(r[q], name[q]) {
      assert r[q] == r[..|name|][q] == g[..|name|][q] == g[q];
    }
  }

  // ---------------------------------------------------------------------
  // worked examples

  /** The lazy `.*?(?:,|$)` runs to the end of a text without commas and newlines. */
  lemma {:induction false} LazyStopToEnd(s: string, j: nat)
    requires j <= |s|
    requires forall k :: j <= k < |s| ==> s[k] != ',' && s[k] != '\n'
    ensures LazyStop(s, j) == Some(|s|)
    decreases |s| - j
  {
    if j < |s| {
      LazyStopToEnd(s, j + 1);
    }
  }

  /** `re.search` finds nothing from `i` only when the pattern matches at no position from `i`. */
  lemma {:induction false} ResourceSearchMissed(name: string, s: string, i: nat)
    requires ResourceSearch(name, s, i).None?
    ensures forall k :: i <= k <= |s| ==> ResourceAt(name, s, k).None?
    decreases |s| + 1 - i
  {
    if i <= |s| {
      ResourceSearchMissed(name, s, i + 1);
    }
  }

  /** The match `re.search` reports is the leftmost: no position before it matches. */
  lemma {:induction false} ResourceSearchFirst(name: string, s: string, i: nat)
    requires ResourceSearch(name, s, i).Some?
    ensures forall k :: i <= k < ResourceSearch(name, s, i).value.start ==> ResourceAt(name, s, k).None?
    decreases |s| + 1 - i
  {
    if ResourceAt(name, s, i).None? {
      ResourceSearchFirst(name, s, i + 1);
    }
  }

  /** A name whose first two letters never occur side by side is not found. */
  lemma {:induction false} ResourceAbsent(name: string, s: string, i: nat)
    requires |name| >= 2
    requires forall k :: i <= k && k + 1 < |s| ==> !(SameLetter(s[k], name[0]) && SameLetter(s[k + 1], name[1]))
    ensures ResourceSearch(name, s, i).None?
    decreases |s| + 1 - i
  {
    if i <= |s| {
      assert !MatchesAt(name, s, i) by {
        if i + 1 < |s| {
          assert !(SameLetter(s[i], name[0]) && SameLetter(s[i + 1], name[1]));
        }
      }
      ResourceAbsent(name, s, i + 1);
    }
  }

  /** A digit run that stops at `j`. */
  lemma {:induction false} DigitRunExact(s: string, i: nat, j: nat)
    requires i <= j <= |s|
    requires forall k :: i <= k < j ==> IsDigit(s[k])
    requires j == |s| || !IsDigit(s[j])
    ensures DigitRun(s, i) == j
    decreases j - i
  {
    if i < j {
      DigitRunExact(s, i + 1, j);
    }
  }

  predicate AllDigits(s: string) {
    forall k :: 0 <= k < |s| ==> IsDigit(s[k])
  }

  /**
   * The shape `<text>, pgs. <digits>-<digits>`, with the text free of the
   * letter p, given position by position: the comma is at `n`, the dash of
   * the range at `d`.
   */
  predicate TrailingRange(s: string, n: nat, d: nat) {
    && n + 7 < d < |s| - 1
    && (forall q :: 0 <= q < n ==> s[q] != 'p' && s[q] != 'P')
    && s[n] == ',' && s[n + 1] == ' ' && s[n + 2] == 'p' && s[n + 3] == 'g' && s[n + 4] == 's'
    && s[n + 5] == '.' && s[n + 6] == ' ' && s[d] == '-'
    && (forall q :: n + 7 <= q < |s| && q != d ==> IsDigit(s[q]))
  }

  /** In that shape the search finds the keyword after the comma and the range runs to the end. */
  lemma TrailingRangeFound(s: string, n: nat, d: nat)
    requires TrailingRange(s, n, d)
    ensures PageSearch(s, 0) == Some(PageRef(n + 2, n + 7, |s|))
  {
    PageSearchSkip(s, 0, n + 2);
    assert IsDigit(s[n + 7]);
    assert SkipSpaces(s, n + 6) == n + 7;
    DigitRunExact(s, n + 7, d);
    DigitRunExact(s, d + 1, |s|);
  }

  /** In that shape the page list is the range. */
  lemma TrailingRangePages(s: string, n: nat, d: nat)
    requires TrailingRange(s, n, d)
    ensures PageNumbers(s) == s[n + 7..]
  {
    TrailingRangeFound(s, n, d);
    assert PageNumbers(s) == s[n + 7..|s|];
  }

  /** In that shape the text left is what precedes the comma. */
  lemma TrailingRangeRemoved(s: string, n: nat, d: nat)
    requires TrailingRange(s, n, d)
    requires n > 0 && !IsSpace(s[0]) && !IsSpace(s[n - 1]) && s[n - 1] != ','
    ensures RemainingText(s) == s[..n]
  {
    TrailingRangeFound(s, n, d);
    var j := FirstReferenceRemoved(s);
    CommaRemoval(s, n, d);
    assert j <= n;
    assert n <= j by {
      assert !(s[n - 1] == ',' || IsSpace(s[n - 1]));
    }
    AppendNothing(s[..n]);
    StripEdges(s[..n]);
  }

  /** In that shape the removal pattern matches at the comma. */
  lemma CommaRemoval(s: string, n: nat, d: nat)
    requires TrailingRange(s, n, d)
    ensures RemovalEnd(s, n).Some?
  {
    assert SkipSpaces(s, n + 1) == n + 2;
    assert IsDigit(s[n + 7]);
    assert SkipSpaces(s, n + 6) == n + 7;
  }

  /** The patterns before `k` find nothing and pattern `k` finds a match: that match wins. */
  lemma {:induction false} FirstResourceAt(names: seq<string>, s: string, i: nat, k: nat)
    requires i <= k < |names|
    requires forall q :: i <= q < k ==> ResourceSearch(names[q], s, 0).None?
    requires ResourceSearch(names[k], s, 0).Some?
    ensures FirstResource(names, s, i) == Some((k, ResourceSearch(names[k], s, 0).value))
    decreases k - i
  {
    if i < k {
      FirstResourceAt(names, s, i + 1, k);
    }
  }

  /**
   * A text without commas and newlines that begins with the `k`-th name,
   * none of the earlier names occurring in it, is all resource.
   */
  lemma WholeTextIsResource(names: seq<string>, text: string, k: nat)
    requires k < |names|
    requires MatchesAt(names[k], text, 0)
    requires forall q :: 0 <= q < k ==> ResourceSearch(names[q], text, 0).None?
    requires forall q :: 0 <= q < |text| ==> text[q] != ',' && text[q] != '\n'
    requires text != [] && !IsSpace(text[0]) && !IsSpace(text[|text| - 1])
    ensures SplitResource(names, text) == (text, [])
  {
    WholeTextMatch(names[k], text);
    FirstResourceAt(names, text, 0, k);
    WholeMatchRemoved(text);
  }

  lemma WholeTextMatch(name: string, text: string)
    requires MatchesAt(name, text, 0)
    requires forall q :: 0 <= q < |text| ==> text[q] != ',' && text[q] != '\n'
    ensures ResourceSearch(name, text, 0) == Some(ResourceMatch(0, |text|, |text|))
  {
    LazyStopToEnd(text, |name|);
  }

  lemma WholeMatchRemoved(text: string)
    requires text != [] && !IsSpace(text[0]) && !IsSpace(text[|text| - 1])
    ensures Strip(text[0..|text|]) == text
    ensures Strip(StripChar(Strip(RemoveAll(text, text[0..|text|])), ',')) == []
  {
    assert text[0..|text|] == text;
    StripEdges(text);
    assert text[|text|..] == [];
  }

  /** The empty cell and the first example of the source's documentation. */
  lemma GlossaryExample()
    ensures ParseComponentText("") == Component("", "", "")
    ensures ParseComponentText("Teacher Edition Glossary, pgs. 346-347")
         == Component("Teacher Edition Glossary", "", "346-347")
  {
    var s := "Teacher Edition Glossary, pgs. 346-347";
    GlossaryShape(s);
    GlossaryResource(s[..24]);
    TrailingRangeComponent(s, 24, 34);
  }

  /** A cell of the shape `<resource>, pgs. <a>-<b>` whose resource part is all resource. */
  lemma TrailingRangeComponent(s: string, n: nat, d: nat)
    requires TrailingRange(s, n, d)
    requires n > 0 && !IsSpace(s[0]) && !IsSpace(s[n - 1]) && s[n - 1] != ','
    requires SplitResource(ResourceNames, s[..n]) == (s[..n], [])
    ensures ParseComponentText(s) == Component(s[..n], [], s[n + 7..])
  {
    TrailingRangePages(s, n, d);
    TrailingRangeRemoved(s, n, d);
  }

  lemma GlossaryShape(s: string)
    requires s == "Teacher Edition Glossary, pgs. 346-347"
    ensures TrailingRange(s, 24, 34) && !IsSpace(s[0]) && !IsSpace(s[23]) && s[23] != ','
    ensures s[..24] == "Teacher Edition Glossary" && s[31..] == "346-347"
  {
  }

  lemma GlossaryResource(text: string)
    requires text == "Teacher Edition Glossary"
    ensures SplitResource(ResourceNames, text) == (text, [])
  {
    ResourceNamesProper();
    assert MatchesAt(ResourceNames[0], text, 0);
    WholeTextIsResource(ResourceNames, text, 0);
  }

  /** A non-empty cell free of the letter p whose text is all resource. */
  lemma NoPageComponent(s: string)
    requires s != []
    requires forall q :: 0 <= q < |s| ==> s[q] != 'p' && s[q] != 'P'
    requires SplitResource(ResourceNames, s) == (s, [])
    ensures ParseComponentText(s) == Component(s, [], [])
  {
    NoPageKept(s);
  }

  lemma NoPageKept(s: string)
    requires forall q :: 0 <= q < |s| ==> s[q] != 'p' && s[q] != 'P'
    ensures PageSearch(s, 0).None?
  {
    PageSearchLeftmost(s, 0);
  }

  /**
   * The second example of the source's documentation. The lazy `.*?` is
   * followed by `(?:,|$)`, so without a comma it runs to the end of the
   * text: all of it is the resource and the location is empty.
   */
  lemma StudentEditionExample()
    ensures ParseComponentText("Student Edition Unit 2") == Component("Student Edition Unit 2", "", "")
  {
    var s := "Student Edition Unit 2";
    StudentShape(s);
    StudentResource(s);
    NoPageComponent(s);
  }

  lemma StudentShape(s: string)
    requires s == "Student Edition Unit 2"
    ensures forall q :: 0 <= q < |s| ==> s[q] != 'p' && s[q] != 'P' && s[q] != ',' && s[q] != '\n'
    ensures !IsSpace(s[0]) && !IsSpace(s[|s| - 1])
    ensures forall q :: 0 <= q && q + 1 < |s| ==> !(SameLetter(s[q], 't') && SameLetter(s[q + 1], 'e'))
    ensures MatchesAt(ResourceNames[1], s, 0)
  {
  }

  lemma StudentResource(s: string)
    requires s != [] && MatchesAt(ResourceNames[1], s, 0)
    requires forall q :: 0 <= q < |s| ==> s[q] != ',' && s[q] != '\n'
    requires !IsSpace(s[0]) && !IsSpace(s[|s| - 1])
    requires forall q :: 0 <= q && q + 1 < |s| ==> !(SameLetter(s[q], 't') && SameLetter(s[q + 1], 'e'))
    ensures SplitResource(ResourceNames, s) == (s, [])
  {
    TeacherEditionAbsent(s);
    WholeTextIsResource(ResourceNames, s, 1);
  }

  lemma TeacherEditionAbsent(s: string)
    requires forall q :: 0 <= q && q + 1 < |s| ==> !(SameLetter(s[q], 't') && SameLetter(s[q + 1], 'e'))
    ensures forall q :: 0 <= q < 1 ==> ResourceSearch(ResourceNames[q], s, 0).None?
  {
    ResourceNamesProper();
    ResourceAbsent(ResourceNames[0], s, 0);
  }
}
