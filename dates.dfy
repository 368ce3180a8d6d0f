/**
 * Date normalisation (`ErrataParser._normalize_date`) and the strict
 * `%Y-%m-%d` check that `CSVWriter.validate_data` performs with `strptime`.
 *
 * `_normalize_date` searches the text with four fixed patterns, in order:
 * `(\d{4})-(\d{1,2})-(\d{1,2})`, `(\d{1,2})/(\d{1,2})/(\d{4})`,
 * `(\d{1,2})-(\d{1,2})-(\d{4})` and `(\d{4})/(\d{1,2})/(\d{1,2})`.
 * For each pattern only the leftmost match is looked at; if its fields do
 * not form a real calendar date the next pattern is tried.
 */
module Dates {
  import opened Text

  /** The four search patterns, in the order the source tries them. */
  datatype Pattern = YearDash | MonthSlash | MonthDash | YearSlash

  const Patterns: seq<Pattern> := [YearDash, MonthSlash, MonthDash, YearSlash]

  /** The three captured groups of a pattern match, as text. */
  datatype Fields = Fields(year: string, month: string, day: string)

  predicate AllDigits(s: string) {
    forall i :: 0 <= i < |s| ==> IsDigit(s[i])
  }

  predicate FourDigitsAt(s: string, i: nat) {
    i + 4 <= |s| && IsDigit(s[i]) && IsDigit(s[i + 1]) && IsDigit(s[i + 2]) && IsDigit(s[i + 3])
  }

  /**
   * `\d{1,2}` followed by the separator `sep`, at position `i`: the number of
   * digits the greedy group ends up with (0 when there is no match).
   */
  function ShortField(s: string, i: nat, sep: char): (n: nat)
    ensures n <= 2
    ensures n > 0 ==> i + n < |s| && s[i + n] == sep && AllDigits(s[i..i + n])
  {
    if i + 2 < |s| && IsDigit(s[i]) && IsDigit(s[i + 1]) && s[i + 2] == sep then 2
    else if i + 1 < |s| && IsDigit(s[i]) && s[i + 1] == sep then
      assert s[i..i + 1] == [s[i]];
      1
    else 0
  }

  /** A trailing `\d{1,2}` at position `i`: two digits when available, else one. */
  function TailField(s: string, i: nat): (n: nat)
    ensures n <= 2
    ensures n > 0 ==> i + n <= |s| && AllDigits(s[i..i + n])
  {
    if i + 1 < |s| && IsDigit(s[i]) && IsDigit(s[i + 1]) then 2
    else if i < |s| && IsDigit(s[i]) then 1
    else 0
  }

  function Separator(p: Pattern): char {
    match p
    case YearDash => '-'
    case MonthDash => '-'
    case MonthSlash => '/'
    case YearSlash => '/'
  }

  predicate YearFirst(p: Pattern) {
    p == YearDash || p == YearSlash
  }

  /** A year of four digits, a month and a day of one or two digits each. */
  predicate Shaped(f: Fields) {
    && |f.year| == 4 && AllDigits(f.year)
    && 1 <= |f.month| <= 2 && AllDigits(f.month)
    && 1 <= |f.day| <= 2 && AllDigits(f.day)
  }

  /**
   * Pattern `p` matches at `i` with groups `f`: the groups are the slices of
   * `s` at the places the pattern lays them out, separated by its separator.
   */
  predicate MatchShape(p: Pattern, s: string, i: nat, f: Fields) {
    && Shaped(f)
    && var m, d, sep := |f.month|, |f.day|, Separator(p);
    && i + 6 + m + d <= |s|
    && if YearFirst(p) then
         && s[i..i + 4] == f.year && s[i + 4] == sep
         && s[i + 5..i + 5 + m] == f.month && s[i + 5 + m] == sep
         && s[i + 6 + m..i + 6 + m + d] == f.day
       else
         && s[i..i + m] == f.month && s[i + m] == sep
         && s[i + m + 1..i + m + 1 + d] == f.day && s[i + m + 1 + d] == sep
         && s[i + m + d + 2..i + m + d + 6] == f.year
  }

  /**
   * The match of pattern `p` that starts exactly at position `i`, if any.
   * Its groups lie in `s` as the pattern lays them out; a trailing day takes
   * two digits whenever two are there (the greedy `\d{1,2}`). That there is
   * no match at all when `None` comes back is `MatchAtComplete`.
   */
  function MatchAt(p: Pattern, s: string, i: nat): (f: Option<Fields>)
    ensures f.Some? ==> MatchShape(p, s, i, f.value)
    ensures f.Some? && YearFirst(p) && |f.value.day| == 1 ==>
      !(i + 7 + |f.value.month| < |s| && IsDigit(s[i + 7 + |f.value.month|]))
  {
    if YearFirst(p) then MatchYearFirst(p, s, i) else MatchMonthFirst(p, s, i)
  }

  /** `(\d{4})-(\d{1,2})-(\d{1,2})` and its `/` form, at `i`. */
  function MatchYearFirst(p: Pattern, s: string, i: nat): (f: Option<Fields>)
    requires YearFirst(p)
    ensures f.Some? ==> MatchShape(p, s, i, f.value)
    ensures f.Some? && |f.value.day| == 1 ==>
      !(i + 7 + |f.value.month| < |s| && IsDigit(s[i + 7 + |f.value.month|]))
  {
    var sep := Separator(p);
    if FourDigitsAt(s, i) && i + 4 < |s| && s[i + 4] == sep then
      var m := ShortField(s, i + 5, sep);
      if m == 0 then None
      else
        var d := TailField(s, i + 6 + m);
        if d == 0 then None
        else
          assert AllDigits(s[i..i + 4]) by {
            var t := s[i..i + 4];
            assert t[0] == s[i] && t[1] == s[i + 1] && t[2] == s[i + 2] && t[3] == s[i + 3];
          }
          Some(Fields(s[i..i + 4], s[i + 5..i + 5 + m], s[i + 6 + m..i + 6 + m + d]))
    else None
  }

  /** `(\d{1,2})-(\d{1,2})-(\d{4})` and its `/` form, at `i`. */
  function MatchMonthFirst(p: Pattern, s: string, i: nat): (f: Option<Fields>)
    requires !YearFirst(p)
    ensures f.Some? ==> MatchShape(p, s, i, f.value)
  {
    var sep := Separator(p);
    var m := ShortField(s, i, sep);
    if m == 0 then None
    else
      var d := ShortField(s, i + m + 1, sep);
      if d == 0 then None
      else
        var y := i + m + d + 2;
        if FourDigitsAt(s, y) then
          assert AllDigits(s[y..y + 4]) by {
            var t := s[y..y + 4];
            assert t[0] == s[y] && t[1] == s[y + 1] && t[2] == s[y + 2] && t[3] == s[y + 3];
          }
          Some(Fields(s[y..y + 4], s[i..i + m], s[i + m + 1..i + m + 1 + d]))
        else None
  }

  /** Digits `t` lying at `i` and followed by `sep` are the field `ShortField` reads there. */
  lemma ShortFieldFinds(s: string, i: nat, sep: char, t: string)
    requires 1 <= |t| <= 2 && AllDigits(t) && !IsDigit(sep)
    requires i + |t| < |s| && s[i..i + |t|] == t && s[i + |t|] == sep
    ensures ShortField(s, i, sep) == |t|
  {
    assert t[0] == s[i];
    if |t| == 2 {
      assert t[1] == s[i + 1];
    }
  }

  /** Four digits `t` lying at `i` satisfy `FourDigitsAt`. */
  lemma FourDigitsFind(s: string, i: nat, t: string)
    requires |t| == 4 && AllDigits(t) && i + 4 <= |s| && s[i..i + 4] == t
    ensures FourDigitsAt(s, i)
  {
    assert t[0] == s[i] && t[1] == s[i + 1] && t[2] == s[i + 2] && t[3] == s[i + 3];
  }

  /** Wherever the pattern's layout is present in `s`, `MatchAt` finds a match there. */
  lemma MatchAtComplete(p: Pattern, s: string, i: nat, f: Fields)
    requires MatchShape(p, s, i, f)
    ensures MatchAt(p, s, i).Some?
  {
    if YearFirst(p) {
      YearFirstComplete(p, s, i, f);
    } else {
      MonthFirstComplete(p, s, i, f);
    }
  }

  lemma YearFirstComplete(p: Pattern, s: string, i: nat, f: Fields)
    requires YearFirst(p) && MatchShape(p, s, i, f)
    ensures MatchYearFirst(p, s, i).Some?
  {
    var m, sep := |f.month|, Separator(p);
    FourDigitsFind(s, i, f.year);
    ShortFieldFinds(s, i + 5, sep, f.month);
    assert f.day[0] == s[i + 6 + m];
  }

  lemma MonthFirstComplete(p: Pattern, s: string, i: nat, f: Fields)
    requires !YearFirst(p) && MatchShape(p, s, i, f)
    ensures MatchMonthFirst(p, s, i).Some?
  {
    var m, d, sep := |f.month|, |f.day|, Separator(p);
    ShortFieldFinds(s, i, sep, f.month);
    ShortFieldFinds(s, i + m + 1, sep, f.day);
    FourDigitsFind(s, i + m + d + 2, f.year);
  }

  /**
   * `re.search`: the leftmost match of `p` at or after position `i`; that it
   * is the leftmost, and that `None` means no match anywhere, is `SearchLeftmost`.
   */
  function Search(p: Pattern, s: string, i: nat): (f: Option<Fields>)
    ensures f.Some? ==> Shaped(f.value)
    decreases |s| - i
  {
    if i > |s| then None
    else if MatchAt(p, s, i).Some? then MatchAt(p, s, i)
    else Search(p, s, i + 1)
  }

  /** A match found by `Search` starts at some `k`, and `p` matches nowhere before `k`; `None` means no match at all. */
  lemma SearchLeftmost(p: Pattern, s: string, i: nat)
    ensures Search(p, s, i).Some? ==>
      exists k :: i <= k <= |s| && MatchAt(p, s, k) == Search(p, s, i) && forall j :: i <= j < k ==> MatchAt(p, s, j).None?
    ensures Search(p, s, i).None? ==> forall k :: i <= k <= |s| ==> MatchAt(p, s, k).None?
  {
    if Search(p, s, i).Some? {
      var k := SearchFound(p, s, i);
    } else {
      SearchMissed(p, s, i);
    }
  }

  /** Where `Search` finds a match: the position it starts at, with no match before it. */
  lemma {:induction false} SearchFound(p: Pattern, s: string, i: nat) returns (k: nat)
    requires Search(p, s, i).Some?
    ensures i <= k <= |s| && MatchAt(p, s, k) == Search(p, s, i)
    ensures forall j :: i <= j < k ==> MatchAt(p, s, j).None?
    decreases |s| - i
  {
    if MatchAt(p, s, i).Some? {
      k := i;
    } else {
      var here := MatchAt(p, s, i);
      k := SearchFound(p, s, i + 1);
      forall j | i <= j < k
        ensures MatchAt(p, s, j).None?
      {
        if j == i {
          assert MatchAt(p, s, j) == here;
        }
      }
    }
  }

  /** Where `Search` finds nothing, the pattern matches at no position. */
  lemma {:induction false} SearchMissed(p: Pattern, s: string, i: nat)
    requires Search(p, s, i).None?
    ensures forall k :: i <= k <= |s| ==> MatchAt(p, s, k).None?
    decreases |s| - i
  {
    if i <= |s| {
      var here := MatchAt(p, s, i);
      SearchMissed(p, s, i + 1);
      forall k | i <= k <= |s|
        ensures MatchAt(p, s, k).None?
      {
        if k == i {
          assert MatchAt(p, s, k) == here;
        }
      }
    }
  }

  // ---------------------------------------------------------------------
  // the calendar, as `datetime` checks it

  predicate IsLeapYear(y: int) {
    y % 4 == 0 && (y % 100 != 0 || y % 400 == 0)
  }

  function DaysInMonth(y: int, m: int): (n: int)
    requires 1 <= m <= 12
    ensures 28 <= n <= 31
  {
    if m == 2 then (if IsLeapYear(y) then 29 else 28)
    else if m == 4 || m == 6 || m == 9 || m == 11 then 30
    else 31
  }

  /** What `datetime` accepts: year 1..9999, month 1..12, a day that exists in that month. */
  predicate ValidDate(y: int, m: int, d: int) {
    1 <= y <= 9999 && 1 <= m <= 12 && 1 <= d <= DaysInMonth(y, m)
  }

  /** `f"{n:02d}"` for `n < 100`. */
  function Pad2(n: nat): (r: string)
    requires n < 100
    ensures |r| == 2 && AllDigits(r) && DigitsValue(r) == n
  {
    var r := [DigitChar(n / 10), DigitChar(n % 10)];
    TwoDigitsValue(r);
    r
  }

  /** A string of the exact shape `YYYY-MM-DD` naming a real calendar date. */
  predicate IsCanonicalDate(r: string) {
    && |r| == 10
    && AllDigits(r[..4]) && r[4] == '-' && AllDigits(r[5..7]) && r[7] == '-' && AllDigits(r[8..])
    && ValidDate(DigitsValue(r[..4]), DigitsValue(r[5..7]), DigitsValue(r[8..]))
  }

  predicate FieldsValid(f: Fields)
    requires |f.year| == 4 && AllDigits(f.year) && AllDigits(f.month) && AllDigits(f.day)
  {
    ValidDate(DigitsValue(f.year), DigitsValue(f.month), DigitsValue(f.day))
  }

  /** `strptime(f"{year}-{int(month):02d}-{int(day):02d}").strftime("%Y-%m-%d")` for valid fields. */
  function Format(f: Fields): (r: string)
    requires |f.year| == 4 && AllDigits(f.year) && AllDigits(f.month) && AllDigits(f.day)
    requires FieldsValid(f)
    ensures IsCanonicalDate(r)
    ensures r[..4] == f.year
    ensures DigitsValue(r[5..7]) == DigitsValue(f.month) && DigitsValue(r[8..]) == DigitsValue(f.day)
  {
    var mm := Pad2(DigitsValue(f.month));
    var dd := Pad2(DigitsValue(f.day));
    var r := f.year + "-" + mm + "-" + dd;
    assert r[..4] == f.year && r[5..7] == mm && r[8..] == dd;
    r
  }

  /** The leftmost match of `p` exists and names a real calendar date. */
  predicate Accepts(p: Pattern, s: string) {
    var f := Search(p, s, 0);
    f.Some? && Shaped(f.value) && FieldsValid(f.value)
  }

  /** The date the leftmost match of an accepting pattern gives. */
  function Chosen(p: Pattern, s: string): (r: string)
    requires Accepts(p, s)
    ensures IsCanonicalDate(r)
  {
    Format(Search(p, s, 0).value)
  }

  /** Pattern `ps[j]` accepts `s`, and none of `ps[i..j]` does. */
  predicate FirstFrom(ps: seq<Pattern>, s: string, i: nat, j: nat) {
    i <= j < |ps| && Accepts(ps[j], s) && forall k :: i <= k < j ==> !Accepts(ps[k], s)
  }

  /** Pattern `ps[j]` accepts `s` and no earlier pattern does. */
  predicate FirstAccepting(ps: seq<Pattern>, s: string, j: nat) {
    FirstFrom(ps, s, 0, j)
  }

  /**
   * Try the patterns `ps[i..]` in order: the date of the first whose
   * leftmost match is a real date, or nothing when none is.
   */
  function TryPatterns(ps: seq<Pattern>, s: string, i: nat): (r: Option<string>)
    ensures forall j: nat :: FirstFrom(ps, s, i, j) ==> r == Some(Chosen(ps[j], s))
    ensures r.None? <==> forall j :: i <= j < |ps| ==> !Accepts(ps[j], s)
    decreases |ps| - i
  {
    if i >= |ps| then None
    else if Accepts(ps[i], s) then
      Some(Chosen(ps[i], s))
    else
      TryPatterns(ps, s, i + 1)
  }

  /** `_normalize_date`: the date of the first accepting pattern, or the input unchanged. */
  function NormalizeDate(s: string): (r: string)
    ensures s == [] ==> r == []
    ensures (forall j :: 0 <= j < |Patterns| ==> !Accepts(Patterns[j], s)) ==> r == s
    ensures forall j: nat :: FirstAccepting(Patterns, s, j) ==> r == Chosen(Patterns[j], s)
    ensures r == s || IsCanonicalDate(r)
  {
    if s == [] then []
    else
      match TryPatterns(Patterns, s, 0)
      case Some(d) => d
      case None => s
  }

  // ---------------------------------------------------------------------
  // properties

  lemma TwoDigitsValue(t: string)
    requires |t| == 2 && AllDigits(t)
    ensures DigitsValue(t) == DigitValue(t[0]) * 10 + DigitValue(t[1]) < 100
  {
    assert t[..|t| - 1] == [t[0]];
    assert DigitsValue([t[0]]) == DigitValue(t[0]) by {
      assert [t[0]][..0] == [];
    }
  }

  lemma TwoDigitsRoundTrip(t: string)
    requires |t| == 2 && AllDigits(t)
    ensures DigitsValue(t) < 100 && Pad2(DigitsValue(t)) == t
  {
    TwoDigitsValue(t);
    var v := DigitsValue(t);
    assert v / 10 == DigitValue(t[0]) && v % 10 == DigitValue(t[1]);
  }

  /** A canonical date is matched by the first pattern at position 0 and formats to itself. */
  lemma CanonicalFixed(r: string)
    requires IsCanonicalDate(r)
    ensures NormalizeDate(r) == r
  {
    var f := Fields(r[..4], r[5..7], r[8..]);
    assert r[..4][0] == r[0] && r[..4][1] == r[1] && r[..4][2] == r[2] && r[..4][3] == r[3];
    assert r[5..7][0] == r[5] && r[5..7][1] == r[6];
    assert r[8..][0] == r[8] && r[8..][1] == r[9];
    assert ShortField(r, 5, '-') == 2;
    assert TailField(r, 8) == 2;
    assert r[8..10] == r[8..];
    assert MatchAt(YearDash, r, 0) == Some(f);
    assert Search(YearDash, r, 0) == Some(f);
    TwoDigitsRoundTrip(r[5..7]);
    TwoDigitsRoundTrip(r[8..]);
    assert Format(f) == r;
    assert FirstAccepting(Patterns, r, 0);
  }

  /** Normalising twice gives the same text as normalising once (the extractor does it twice). */
  lemma NormalizeDateIdempotent(s: string)
    ensures NormalizeDate(NormalizeDate(s)) == NormalizeDate(s)
  {
    if NormalizeDate(s) != s {
      CanonicalFixed(NormalizeDate(s));
    }
  }

  lemma {:induction false} NoSeparatorNoMatch(p: Pattern, s: string, i: nat)
    requires Separator(p) !in s
    ensures Search(p, s, i) == None
    decreases |s| - i
  {
    if i <= |s| {
      NoSeparatorNoMatch(p, s, i + 1);
    }
  }

  /**
   * Month-first input `M/D/YYYY` (one or two digits for month and day) naming a
   * real date becomes `YYYY-MM-DD` with the month in the middle.
   */
  lemma {:induction false} MonthFirstSlash(m: string, d: string, y: string)
    requires 1 <= |m| <= 2 && AllDigits(m)
    requires 1 <= |d| <= 2 && AllDigits(d)
    requires |y| == 4 && AllDigits(y)
    requires ValidDate(DigitsValue(y), DigitsValue(m), DigitsValue(d))
    ensures var r := NormalizeDate(m + "/" + d + "/" + y);
            && r[..4] == y && r[4] == '-' && r[7] == '-'
            && DigitsValue(r[5..7]) == DigitsValue(m) && DigitsValue(r[8..]) == DigitsValue(d)
  {
    var s := m + "/" + d + "/" + y;
    assert forall k :: 0 <= k < |s| ==> s[k] != '-';
    NoSeparatorNoMatch(YearDash, s, 0);
    var f := Fields(y, m, d);
    assert s[..|m|] == m;
    assert s[|m| + 1..|m| + 1 + |d|] == d;
    assert s[|m| + |d| + 2..|m| + |d| + 6] == y;
    assert MatchAt(MonthSlash, s, 0) == Some(f);
    assert Search(MonthSlash, s, 0) == Some(f);
    assert TryPatterns(Patterns, s, 1) == Some(Format(f));
  }

  /** Only four-digit years are recognised: `8/4/25` is returned unchanged. */
  lemma TwoDigitYearUnchanged()
    ensures NormalizeDate("8/4/25") == "8/4/25"
  {
    var s := "8/4/25";
    assert forall k :: 0 <= k < |s| ==> s[k] != '-';
    NoSeparatorNoMatch(YearDash, s, 0);
    NoSeparatorNoMatch(MonthDash, s, 0);
    SkipWithoutSlash(s, 3, |s|);
    assert MatchAt(MonthSlash, s, 0) == None;
    assert MatchAt(MonthSlash, s, 1) == None;
    assert MatchAt(MonthSlash, s, 2) == None;
    assert Search(MonthSlash, s, 0) == Search(MonthSlash, s, 3);
    assert Search(YearSlash, s, 0) == None;
  }

  lemma {:induction false} NoDigitNoMatch(p: Pattern, s: string, i: nat)
    requires forall k :: 0 <= k < |s| ==> !IsDigit(s[k])
    ensures Search(p, s, i) == None
    decreases |s| - i
  {
    if i <= |s| {
      NoDigitNoMatch(p, s, i + 1);
    }
  }

  /** Text without a digit is returned unchanged. */
  lemma {:induction false} NoDigitsUnchanged(s: string)
    requires forall k :: 0 <= k < |s| ==> !IsDigit(s[k])
    ensures NormalizeDate(s) == s
  {
    forall j | 0 <= j < |Patterns|
      ensures !Accepts(Patterns[j], s)
    {
      NoDigitNoMatch(Patterns[j], s, 0);
    }
  }

  lemma NoDateUnchanged()
    ensures NormalizeDate("not-a-date") == "not-a-date"
  {
    NoDigitsUnchanged("not-a-date");
  }

  /** A first-pattern match that is not a real date (30 February) falls through to the next pattern. */
  lemma InvalidMatchFallsThrough()
    ensures NormalizeDate("2024-02-30 3/4/2024") == "2024-03-04"
  {
    var s := "2024-02-30 3/4/2024";
    FebruaryThirtiethRejected(s);
    var good := SlashDateFound(s);
    assert TryPatterns(Patterns, s, 1) == Some(Format(good));
  }

  lemma FebruaryThirtiethRejected(s: string)
    requires s == "2024-02-30 3/4/2024"
    ensures Search(YearDash, s, 0).Some? && !FieldsValid(Search(YearDash, s, 0).value)
  {
    var bad := Fields(s[0..4], s[5..7], s[8..10]);
    assert MatchAt(YearDash, s, 0) == Some(bad);
    assert DigitsValue(bad.month) == 2 by { TwoDigitsValue(bad.month); }
    assert DigitsValue(bad.day) == 30 by { TwoDigitsValue(bad.day); }
  }

  lemma SlashDateFound(s: string) returns (good: Fields)
    requires s == "2024-02-30 3/4/2024"
    ensures Search(MonthSlash, s, 0) == Some(good)
    ensures |good.year| == 4 && AllDigits(good.year) && AllDigits(good.month) && AllDigits(good.day)
    ensures FieldsValid(good) && Format(good) == "2024-03-04"
  {
    good := Fields(s[15..19], s[11..12], s[13..14]);
    assert ShortField(s, 11, '/') == 1;
    assert ShortField(s, 13, '/') == 1;
    assert FourDigitsAt(s, 15);
    assert MatchAt(MonthSlash, s, 11) == Some(good);
    assert !IsDigit(s[10]);
    assert MatchAt(MonthSlash, s, 10) == None;
    assert s[15..19] == "2024" && s[11..12] == "3" && s[13..14] == "4";
    assert s[1] != '/' && s[2] != '/' && s[3] != '/' && s[4] != '/' && s[5] != '/' && s[6] != '/';
    assert s[7] != '/' && s[8] != '/' && s[9] != '/' && s[10] != '/' && s[11] != '/';
    SkipWithoutSlash(s, 0, 10);
    FormatExample(good);
  }

  lemma FormatExample(f: Fields)
    requires f == Fields("2024", "3", "4")
    ensures |f.year| == 4 && AllDigits(f.year) && AllDigits(f.month) && AllDigits(f.day)
    ensures FieldsValid(f) && Format(f) == "2024-03-04"
  {
    assert DigitsValue(f.year) == 2024 by { DigitsValueFour(f.year); }
    assert "3"[..0] == [] && "4"[..0] == [];
    assert DigitsValue(f.month) == 3 && DigitsValue(f.day) == 4;
    var r := Format(f);
    assert r[..4] == "2024";
    assert r[5..7] == "03" by { TwoDigitsRoundTrip("03"); }
    assert r[8..] == "04" by { TwoDigitsRoundTrip("04"); }
    assert r == r[..4] + "-" + r[5..7] + "-" + r[8..];
  }

  /** The month-first slash pattern cannot match where no slash follows within two characters. */
  lemma {:induction false} SkipWithoutSlash(s: string, i: nat, j: nat)
    requires i <= j <= |s|
    requires forall k :: i < k < j + 2 && k < |s| ==> s[k] != '/'
    ensures Search(MonthSlash, s, i) == Search(MonthSlash, s, j)
    decreases j - i
  {
    if i < j {
      SlashStep(s, i);
      SkipWithoutSlash(s, i + 1, j);
    }
  }

  lemma SlashStep(s: string, i: nat)
    requires i < |s|
    requires i + 1 < |s| ==> s[i + 1] != '/'
    requires i + 2 < |s| ==> s[i + 2] != '/'
    ensures Search(MonthSlash, s, i) == Search(MonthSlash, s, i + 1)
  {
    assert ShortField(s, i, '/') == 0;
  }

  lemma DigitsValueFour(t: string)
    requires |t| == 4 && AllDigits(t)
    ensures DigitsValue(t) == ((DigitValue(t[0]) * 10 + DigitValue(t[1])) * 10 + DigitValue(t[2])) * 10 + DigitValue(t[3])
  {
    assert t[..3][..2] == t[..2];
    TwoDigitsValue(t[..2]);
  }

  // ---------------------------------------------------------------------
  // `datetime.strptime(text, '%Y-%m-%d')`, as `validate_data` uses it

  /**
   * Length of the `%m` token at position `i` (regex `1[0-2]|0[1-9]|[1-9]`,
   * alternatives tried in order), or 0.
   */
  function MonthTokenLength(s: string, i: nat): (n: nat)
    ensures n <= 2 && (n > 0 ==> i + n <= |s| && AllDigits(s[i..i + n]))
  {
    if i + 1 < |s| && s[i] == '1' && '0' <= s[i + 1] <= '2' then 2
    else if i + 1 < |s| && s[i] == '0' && '1' <= s[i + 1] <= '9' then 2
    else if i < |s| && '1' <= s[i] <= '9' then 1
    else 0
  }

  /**
   * Length of the `%d` token at the start of `t` (regex
   * `3[01]|[12]\d|0[1-9]|[1-9]| [1-9]`, alternatives tried in order), or 0.
   */
  function DayTokenLength(t: string): (n: nat)
    ensures n <= 2 && n <= |t|
  {
    if |t| >= 2 && t[0] == '3' && (t[1] == '0' || t[1] == '1') then 2
    else if |t| >= 2 && (t[0] == '1' || t[0] == '2') && IsDigit(t[1]) then 2
    else if |t| >= 2 && t[0] == '0' && '1' <= t[1] <= '9' then 2
    else if |t| >= 1 && '1' <= t[0] <= '9' then 1
    else if |t| >= 2 && t[0] == ' ' && '1' <= t[1] <= '9' then 2
    else 0
  }

  /** The digits of a day token (`int(" 5")` is 5). */
  function DayTokenDigits(t: string): (r: string)
    requires DayTokenLength(t) == |t| > 0
    ensures AllDigits(r)
  {
    if t[0] == ' ' then t[1..] else t
  }

  /** `strptime(s, '%Y-%m-%d')` succeeds: the format matches all of `s` and the date exists. */
  predicate ParsesAsIsoDate(s: string) {
    && FourDigitsAt(s, 0) && 4 < |s| && s[4] == '-'
    && var m := MonthTokenLength(s, 5);
    && m > 0 && 5 + m < |s| && s[5 + m] == '-'
    && var t := s[6 + m..];
    && DayTokenLength(t) == |t| > 0
    && ValidDate(DigitsValue(s[..4]), DigitsValue(s[5..5 + m]), DigitsValue(DayTokenDigits(t)))
  }

  /** Every canonical date passes the strict check, so normalised dates draw no warning. */
  lemma CanonicalParses(r: string)
    requires IsCanonicalDate(r)
    ensures ParsesAsIsoDate(r)
  {
    assert r[..4][0] == r[0] && r[..4][1] == r[1] && r[..4][2] == r[2] && r[..4][3] == r[3];
    assert r[5..7][0] == r[5] && r[5..7][1] == r[6];
    assert r[8..][0] == r[8] && r[8..][1] == r[9];
    TwoDigitsValue(r[5..7]);
    TwoDigitsValue(r[8..]);
    assert MonthTokenLength(r, 5) == 2;
    assert DayTokenLength(r[8..]) == 2;
    assert DayTokenDigits(r[8..]) == r[8..];
  }

  /** The strict check is looser than the canonical shape: `2024-1-5` passes it. */
  lemma ShortFieldsParse()
    ensures ParsesAsIsoDate("2024-1-5")
    ensures !IsCanonicalDate("2024-1-5")
  {
    var s := "2024-1-5";
    assert s[..4][0] == s[0] && s[..4][1] == s[1] && s[..4][2] == s[2] && s[..4][3] == s[3];
    DigitsValueFour(s[..4]);
    assert s[5..6] == [s[5]] && [s[5]][..0] == [];
    assert s[7..] == [s[7]] && [s[7]][..0] == [];
  }
}
