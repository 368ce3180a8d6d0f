/**
 * Character classes and string primitives shared by the record flow.
 *
 * The regular expressions of the parser are written here as hand-made
 * matchers. Whitespace is space, tab, newline, carriage return, vertical tab
 * and form feed; Python's `\s` and `str.strip()` also count the separators
 * `\x1c` to `\x1f` (and non-ASCII spaces), which are not modelled. A digit is
 * an ASCII digit; a word character (for `\b`) is an ASCII letter, an ASCII
 * digit or `_`; case-insensitive comparison folds ASCII letters only.
 */
module Text {

  datatype Option<T> = None | Some(value: T)

  /** Position of the first `x` in `xs`, or `|xs|`. */
  function IndexOf(xs: seq<string>, x: string): (i: nat)
    ensures i <= |xs|
    ensures i < |xs| ==> xs[i] == x
    ensures forall j :: 0 <= j < i ==> xs[j] != x
  {
    if xs == [] then 0
    else if xs[0] == x then 0
    else 1 + IndexOf(xs[1..], x)
  }

  predicate IsSpace(c: char) {
    c == ' ' || c == '\t' || c == '\n' || c == '\r' || c == '\U{000B}' || c == '\U{000C}'
  }

  predicate IsDigit(c: char) {
    '0' <= c <= '9'
  }

  predicate IsUpper(c: char) {
    'A' <= c <= 'Z'
  }

  predicate IsLower(c: char) {
    'a' <= c <= 'z'
  }

  predicate IsWordChar(c: char) {
    IsUpper(c) || IsLower(c) || IsDigit(c) || c == '_'
  }

  function ToLower(c: char): (r: char)
    ensures IsUpper(c) ==> IsLower(r) && r as int == c as int + 32
    ensures !IsUpper(c) ==> r == c
    ensures IsSpace(r) <==> IsSpace(c)
    ensures IsDigit(r) <==> IsDigit(c)
    ensures IsWordChar(r) <==> IsWordChar(c)
  {
    if IsUpper(c) then (c as int + 32) as char else c
  }

  function ToUpper(c: char): (r: char)
    ensures IsLower(c) ==> IsUpper(r) && r as int == c as int - 32
    ensures !IsLower(c) ==> r == c
    ensures IsSpace(r) <==> IsSpace(c)
    ensures IsDigit(r) <==> IsDigit(c)
    ensures IsWordChar(r) <==> IsWordChar(c)
  {
    if IsLower(c) then (c as int - 32) as char else c
  }

  /** `str.lower()` restricted to ASCII letters. */
  function Lower(s: string): (r: string)
    ensures |r| == |s|
    ensures forall i :: 0 <= i < |s| ==> r[i] == ToLower(s[i])
  {
    if s == [] then [] else [ToLower(s[0])] + Lower(s[1..])
  }

  /** Case-insensitive equality of two characters (ASCII folding, as `re.IGNORECASE`). */
  predicate SameLetter(a: char, b: char) {
    ToLower(a) == ToLower(b)
  }

  /** `p` occurs in `s` at position `i`, comparing case-insensitively. */
  predicate MatchesAt(p: string, s: string, i: nat) {
    i + |p| <= |s| && forall j :: 0 <= j < |p| ==> SameLetter(s[i + j], p[j])
  }

  /** `p` occurs in `s` at position `i`, comparing exactly. */
  predicate OccursAt(p: string, s: string, i: nat) {
    i + |p| <= |s| && s[i..i + |p|] == p
  }

  /**
   * Python's `p in s`: `p` is a substring of `s` somewhere at or after `i`.
   * Written as a scan so that concrete instances can be evaluated.
   */
  predicate ContainsFrom(p: string, s: string, i: nat)
    decreases |s| - i
  {
    i + |p| <= |s| && (s[i..i + |p|] == p || ContainsFrom(p, s, i + 1))
  }

  predicate Contains(p: string, s: string) {
    ContainsFrom(p, s, 0)
  }

  lemma {:induction false} ContainsFromIff(p: string, s: string, i: nat)
    ensures ContainsFrom(p, s, i) <==> exists k :: i <= k && OccursAt(p, s, k)
    decreases |s| - i
  {
    if i + |p| <= |s| {
      ContainsFromIff(p, s, i + 1);
      if ContainsFrom(p, s, i) && !OccursAt(p, s, i) {
        var k :| i + 1 <= k && OccursAt(p, s, k);
      }
      if exists k :: i <= k && OccursAt(p, s, k) {
        var k :| i <= k && OccursAt(p, s, k);
        if k != i {
          assert i + 1 <= k;
        }
      }
    }
  }

  /** The empty string is contained in every string; nothing non-empty is in "". */
  lemma ContainsEmpty(p: string, s: string)
    ensures Contains([], s)
    ensures p != [] ==> !Contains(p, [])
  {
    assert s[0..0] == [];
  }

  /** `x` is never directly followed by `y` in `s`. */
  predicate NoPair(s: string, x: char, y: char) {
    forall k :: 0 <= k && k + 1 < |s| ==> !(s[k] == x && s[k + 1] == y)
  }

  /** A keyword two of whose neighbouring letters are never neighbours in `s` does not occur in `s`. */
  lemma PairAbsent(p: string, s: string, j: nat)
    requires j + 1 < |p|
    requires NoPair(s, p[j], p[j + 1])
    ensures !Contains(p, s)
  {
    ContainsFromIff(p, s, 0);
    forall k | 0 <= k ensures !OccursAt(p, s, k) {
      if k + |p| <= |s| {
        assert !(s[k + j] == p[j] && s[k + j + 1] == p[j + 1]);
        assert s[k..k + |p|][j] == s[k + j] && s[k..k + |p|][j + 1] == s[k + j + 1];
      }
    }
  }

  // ---------------------------------------------------------------------
  // strip, split, whitespace collapse, join

  function TrimLeft(s: string): (r: string)
    ensures |r| <= |s| && r == s[|s| - |r|..]
    ensures r == [] || !IsSpace(r[0])
    ensures forall i :: 0 <= i < |s| - |r| ==> IsSpace(s[i])
  {
    if s != [] && IsSpace(s[0]) then
      var r := TrimLeft(s[1..]);
      assert s[1..][|s| - 1 - |r|..] == s[|s| - |r|..];
      assert forall i :: 1 <= i < |s| ==> s[1..][i - 1] == s[i];
      r
    else s
  }

  function TrimRight(s: string): (r: string)
    ensures |r| <= |s| && r == s[..|r|]
    ensures r == [] || !IsSpace(r[|r| - 1])
    ensures forall i :: |r| <= i < |s| ==> IsSpace(s[i])
  {
    if s != [] && IsSpace(s[|s| - 1]) then TrimRight(s[..|s| - 1]) else s
  }

  /**
   * `str.strip()`: drop leading and trailing whitespace. The result is the
   * slice of `s` left when whitespace alone is cut from both ends, and it
   * neither starts nor ends with whitespace; these two facts determine it.
   */
  function Strip(s: string): (r: string)
    ensures r == [] || (!IsSpace(r[0]) && !IsSpace(r[|r| - 1]))
    ensures |r| <= |s|
    ensures exists a, b :: 0 <= a <= b <= |s| && r == s[a..b] && CutSpaces(s, a, b)
  {
    var l := TrimLeft(s);
    var r := TrimRight(l);
    var a := |s| - |l|;
    assert r == s[a..a + |r|];
    assert forall k :: a + |r| <= k < |s| ==> s[k] == l[k - a];
    assert CutSpaces(s, a, a + |r|);
    r
  }

  /** Everything of `s` before `a` and from `b` on is whitespace. */
  predicate CutSpaces(s: string, a: nat, b: nat)
    requires a <= b <= |s|
  {
    (forall k :: 0 <= k < a ==> IsSpace(s[k])) && (forall k :: b <= k < |s| ==> IsSpace(s[k]))
  }

  /** Everything of `s` before `a` and from `b` on is the character `c`. */
  predicate CutChar(s: string, a: nat, b: nat, c: char)
    requires a <= b <= |s|
  {
    (forall k :: 0 <= k < a ==> s[k] == c) && (forall k :: b <= k < |s| ==> s[k] == c)
  }

  lemma StripNoSpace(s: string)
    requires forall i :: 0 <= i < |s| ==> !IsSpace(s[i])
    ensures Strip(s) == s
  {
  }

  /** Text whose first and last characters are not whitespace is its own strip. */
  lemma StripEdges(s: string)
    requires s != [] && !IsSpace(s[0]) && !IsSpace(s[|s| - 1])
    ensures Strip(s) == s
  {
  }

  /** Stripping a text that starts with a non-space keeps every prefix that ends in a non-space. */
  lemma StripKeepsPrefix(s: string, n: nat)
    requires 0 < n <= |s| && !IsSpace(s[0]) && !IsSpace(s[n - 1])
    ensures n <= |Strip(s)| && Strip(s)[..n] == s[..n]
  {
    assert TrimLeft(s) == s;
  }

  /**
   * `str.strip(c)` for a single character `c` (used as `strip(',')`): the
   * slice of `s` left when copies of `c` alone are cut from both ends, and
   * it neither starts nor ends with `c`.
   */
  function StripChar(s: string, c: char): (r: string)
    ensures |r| <= |s|
    ensures r == [] || (r[0] != c && r[|r| - 1] != c)
    ensures exists a, b :: 0 <= a <= b <= |s| && r == s[a..b] && CutChar(s, a, b, c)
  {
    if s != [] && s[0] == c then
      var r := StripChar(s[1..], c);
      var a, b :| 0 <= a <= b <= |s| - 1 && r == s[1..][a..b] && CutChar(s[1..], a, b, c);
      CutCharFront(s, c, a, b);
      r
    else if s != [] && s[|s| - 1] == c then
      var r := StripChar(s[..|s| - 1], c);
      var a, b :| 0 <= a <= b <= |s| - 1 && r == s[..|s| - 1][a..b] && CutChar(s[..|s| - 1], a, b, c);
      CutCharBack(s, c, a, b);
      r
    else
      assert s[0..|s|] == s && CutChar(s, 0, |s|, c);
      s
  }

  lemma CutCharFront(s: string, c: char, a: nat, b: nat)
    requires s != [] && s[0] == c && a <= b <= |s| - 1 && CutChar(s[1..], a, b, c)
    ensures s[1..][a..b] == s[a + 1..b + 1] && CutChar(s, a + 1, b + 1, c)
  {
    assert forall k :: 1 <= k < |s| ==> s[k] == s[1..][k - 1];
  }

  lemma CutCharBack(s: string, c: char, a: nat, b: nat)
    requires s != [] && s[|s| - 1] == c && a <= b <= |s| - 1 && CutChar(s[..|s| - 1], a, b, c)
    ensures s[..|s| - 1][a..b] == s[a..b] && CutChar(s, a, b, c)
  {
    assert forall k :: 0 <= k < |s| - 1 ==> s[k] == s[..|s| - 1][k];
  }

  /** The longest prefix of `s` that holds no whitespace. */
  function WordPrefix(s: string): (r: nat)
    ensures r <= |s|
    ensures forall i :: 0 <= i < r ==> !IsSpace(s[i])
    ensures r < |s| ==> IsSpace(s[r])
  {
    if s == [] || IsSpace(s[0]) then 0 else 1 + WordPrefix(s[1..])
  }

  /** `str.split()` with no separator: the maximal runs of non-whitespace. */
  function Words(s: string): (ws: seq<string>)
    decreases |s|
  {
    var t := TrimLeft(s);
    if t == [] then []
    else
      var n := WordPrefix(t);
      [t[..n]] + Words(t[n..])
  }

  /** `sep.join(parts)`. */
  function Join(parts: seq<string>, sep: string): (r: string)
  {
    if parts == [] then []
    else if |parts| == 1 then parts[0]
    else parts[0] + sep + Join(parts[1..], sep)
  }

  lemma {:induction false} JoinLength(parts: seq<string>, sep: string)
    requires parts != []
    ensures |Join(parts, sep)| == SumLengths(parts) + (|parts| - 1) * |sep|
  {
    if |parts| > 1 {
      JoinLength(parts[1..], sep);
    }
  }

  function SumLengths(parts: seq<string>): nat {
    if parts == [] then 0 else |parts[0]| + SumLengths(parts[1..])
  }

  /**
   * `re.sub(r'\s+', ' ', s)`: every whitespace run becomes one space.
   */
  function CollapseSpaces(s: string): (r: string)
    ensures |r| <= |s|
    ensures forall i :: 0 <= i < |r| && IsSpace(r[i]) ==> r[i] == ' '
    ensures (s == []) == (r == [])
    ensures s != [] ==> (IsSpace(r[0]) <==> IsSpace(s[0]))
  {
    if s == [] then []
    else if IsSpace(s[0]) then
      var rest := TrimLeft(s);
      [' '] + CollapseSpaces(rest)
    else
      var n := WordPrefix(s);
      s[..n] + CollapseSpaces(s[n..])
  }

  /** The collapse keeps the words of the text, in order: only whitespace runs change. */
  lemma {:induction false} CollapseKeepsWords(s: string)
    ensures Words(CollapseSpaces(s)) == Words(s)
    decreases |s|
  {
    if s != [] {
      var r := CollapseSpaces(s);
      if IsSpace(s[0]) {
        var t := CollapseSpaces(TrimLeft(s));
        CollapseKeepsWords(TrimLeft(s));
        assert r[1..] == t;
        WordsTrim(r);
        WordsTrim(t);
        WordsTrim(s);
      } else {
        var n := WordPrefix(s);
        var t := CollapseSpaces(s[n..]);
        CollapseKeepsWords(s[n..]);
        assert r == s[..n] + t;
        WordPrefixOfWord(s[..n], t);
        assert r[..n] == s[..n] && r[n..] == t;
      }
    }
  }

  /** Leading whitespace does not change the words of a text. */
  lemma WordsTrim(s: string)
    ensures Words(TrimLeft(s)) == Words(s)
  {
    var t := TrimLeft(s);
    assert TrimLeft(t) == t;
  }

  /** A run without whitespace followed by nothing or by whitespace is taken whole by `WordPrefix`. */
  lemma {:induction false} WordPrefixOfWord(w: string, x: string)
    requires forall i :: 0 <= i < |w| ==> !IsSpace(w[i])
    requires x == [] || IsSpace(x[0])
    ensures WordPrefix(w + x) == |w|
  {
    if w != [] {
      assert (w + x)[1..] == w[1..] + x;
      WordPrefixOfWord(w[1..], x);
    } else {
      assert w + x == x;
    }
  }

  predicate NoDoubleSpace(r: string) {
    forall i :: 0 <= i < |r| - 1 ==> !(IsSpace(r[i]) && IsSpace(r[i + 1]))
  }

  /** No two whitespace characters are adjacent after the collapse. */
  lemma {:induction false} CollapseNoDoubleSpace(s: string)
    ensures NoDoubleSpace(CollapseSpaces(s))
    decreases |s|
  {
    if s != [] {
      var r := CollapseSpaces(s);
      if IsSpace(s[0]) {
        var t := CollapseSpaces(TrimLeft(s));
        CollapseNoDoubleSpace(TrimLeft(s));
        assert r == [' '] + t;
        forall i | 0 <= i < |r| - 1 ensures !(IsSpace(r[i]) && IsSpace(r[i + 1])) {
          if i > 0 {
            assert r[i] == t[i - 1] && r[i + 1] == t[i];
          } else {
            assert !IsSpace(t[0]);
          }
        }
      } else {
        var n := WordPrefix(s);
        var t := CollapseSpaces(s[n..]);
        CollapseNoDoubleSpace(s[n..]);
        assert r == s[..n] + t;
        forall i | 0 <= i < |r| - 1 ensures !(IsSpace(r[i]) && IsSpace(r[i + 1])) {
          if i >= n {
            assert r[i] == t[i - n] && r[i + 1] == t[i + 1 - n];
          } else {
            assert r[i] == s[i];
          }
        }
      }
    }
  }

  /** The collapse ends in whitespace exactly when the text does. */
  lemma {:induction false} CollapseLast(s: string)
    requires s != []
    ensures IsSpace(CollapseSpaces(s)[|CollapseSpaces(s)| - 1]) <==> IsSpace(s[|s| - 1])
    decreases |s|, 1
  {
    if IsSpace(s[0]) {
      CollapseLastSpace(s);
    } else {
      CollapseLastWord(s);
    }
  }

  /** The last element of a concatenation with a non-empty right part is that part's last. */
  lemma LastOfConcat(a: string, b: string)
    requires b != []
    ensures (a + b)[|a + b| - 1] == b[|b| - 1]
  {
  }

  lemma {:induction false} CollapseLastSpace(s: string)
    requires s != [] && IsSpace(s[0])
    ensures IsSpace(CollapseSpaces(s)[|CollapseSpaces(s)| - 1]) <==> IsSpace(s[|s| - 1])
    decreases |s|, 0
  {
    var r := CollapseSpaces(s);
    var rest := TrimLeft(s);
    var t := CollapseSpaces(rest);
    assert r == [' '] + t;
    if rest != [] {
      CollapseLast(rest);
      LastOfConcat([' '], t);
      assert s[|s| - 1] == rest[|rest| - 1];
    } else {
      assert IsSpace(s[|s| - 1]);
    }
  }

  lemma {:induction false} CollapseLastWord(s: string)
    requires s != [] && !IsSpace(s[0])
    ensures IsSpace(CollapseSpaces(s)[|CollapseSpaces(s)| - 1]) <==> IsSpace(s[|s| - 1])
    decreases |s|, 0
  {
    var r := CollapseSpaces(s);
    var n := WordPrefix(s);
    var t := CollapseSpaces(s[n..]);
    assert r == s[..n] + t;
    if n < |s| {
      CollapseLast(s[n..]);
      LastOfConcat(s[..n], t);
      assert s[|s| - 1] == s[n..][|s| - n - 1];
    } else {
      assert r[|r| - 1] == s[|s| - 1];
    }
  }

  /** Text without whitespace is left as it is. */
  lemma {:induction false} CollapseNoSpace(s: string)
    requires forall i :: 0 <= i < |s| ==> !IsSpace(s[i])
    ensures CollapseSpaces(s) == s
  {
    if s != [] {
      assert WordPrefix(s) == |s| by { WordPrefixAll(s); }
      assert s[|s|..] == [];
    }
  }

  lemma {:induction false} WordPrefixAll(s: string)
    requires forall i :: 0 <= i < |s| ==> !IsSpace(s[i])
    ensures WordPrefix(s) == |s|
  {
    if s != [] {
      WordPrefixAll(s[1..]);
    }
  }

  // ---------------------------------------------------------------------
  // str.replace and decimal rendering

  /**
   * `s.replace(pat, '')`: remove every non-overlapping occurrence, left to
   * right. Replacing the empty string by the empty string changes nothing.
   */
  function RemoveAll(s: string, pat: string): (r: string)
    ensures |r| <= |s|
    decreases |s|
  {
    if pat == [] || |s| < |pat| then s
    else if s[..|pat|] == pat then RemoveAll(s[|pat|..], pat)
    else [s[0]] + RemoveAll(s[1..], pat)
  }

  /** Where `pat` does not occur, `replace` leaves the text as it is. */
  lemma {:induction false} RemoveAllNone(s: string, pat: string)
    requires pat != []
    requires forall k: nat :: !OccursAt(pat, s, k)
    ensures RemoveAll(s, pat) == s
    decreases |s|
  {
    if |s| >= |pat| {
      assert !OccursAt(pat, s, 0);
      forall k: nat ensures !OccursAt(pat, s[1..], k) {
        OccursShift(pat, s, k);
      }
      RemoveAllNone(s[1..], pat);
    }
  }

  /**
   * The first occurrence of `pat`, at `k`, is deleted; what lies before it
   * is kept, and the scan goes on right after it.
   */
  lemma {:induction false} RemoveAllFirst(s: string, pat: string, k: nat)
    requires pat != [] && OccursAt(pat, s, k)
    requires forall j: nat :: j < k ==> !OccursAt(pat, s, j)
    ensures RemoveAll(s, pat) == s[..k] + RemoveAll(s[k + |pat|..], pat)
    decreases k
  {
    if k == 0 {
      RemoveAllAtStart(s, pat, k);
    } else {
      NoneBeforeShift(pat, s, k);
      RemoveAllFirst(s[1..], pat, k - 1);
      RemoveAllShift(s, pat, k);
    }
  }

  /** The first occurrence in `s`, at `k > 0`, is the first one in `s[1..]`, at `k - 1`. */
  lemma NoneBeforeShift(pat: string, s: string, k: nat)
    requires 0 < k && OccursAt(pat, s, k)
    requires forall j: nat :: j < k ==> !OccursAt(pat, s, j)
    ensures !OccursAt(pat, s, 0) && k + |pat| <= |s|
    ensures OccursAt(pat, s[1..], k - 1)
    ensures forall j: nat :: j < k - 1 ==> !OccursAt(pat, s[1..], j)
  {
    assert !OccursAt(pat, s, 0);
    OccursShift(pat, s, k - 1);
    forall j: nat | j < k - 1 ensures !OccursAt(pat, s[1..], j) {
      OccursShift(pat, s, j);
    }
  }

  /** The result for `s[1..]`, with its first occurrence at `k - 1`, read in terms of `s`. */
  lemma RemoveAllShift(s: string, pat: string, k: nat)
    requires pat != [] && 0 < k && k + |pat| <= |s| && !OccursAt(pat, s, 0)
    requires RemoveAll(s[1..], pat) == s[1..][..k - 1] + RemoveAll(s[1..][k - 1 + |pat|..], pat)
    ensures RemoveAll(s, pat) == s[..k] + RemoveAll(s[k + |pat|..], pat)
  {
    var t := s[1..];
    assert t[..k - 1] == s[1..k];
    assert t[k - 1 + |pat|..] == s[k + |pat|..];
    RemoveAllStep(s, pat, k);
  }

  lemma RemoveAllStep(s: string, pat: string, k: nat)
    requires pat != [] && 0 < k && k + |pat| <= |s| && !OccursAt(pat, s, 0)
    requires RemoveAll(s[1..], pat) == s[1..k] + RemoveAll(s[k + |pat|..], pat)
    ensures RemoveAll(s, pat) == s[..k] + RemoveAll(s[k + |pat|..], pat)
  {
    var w := RemoveAll(s[k + |pat|..], pat);
    RemoveAllSkip(s, pat);
    Associative([s[0]], s[1..k], w);
    assert s[..k] == [s[0]] + s[1..k];
  }

  /** Where `pat` starts the text, it is deleted and the scan goes on after it. */
  lemma RemoveAllAtStart(s: string, pat: string, k: nat)
    requires pat != [] && k == 0 && OccursAt(pat, s, k)
    ensures RemoveAll(s, pat) == s[..k] + RemoveAll(s[k + |pat|..], pat)
  {
    assert s[..|pat|] == pat;
    assert s[..0] == [];
  }

  /** Where `pat` does not start the text, its first character is kept. */
  lemma RemoveAllSkip(s: string, pat: string)
    requires pat != [] && |pat| <= |s| && !OccursAt(pat, s, 0)
    ensures RemoveAll(s, pat) == [s[0]] + RemoveAll(s[1..], pat)
  {
    assert s[0..|pat|] == s[..|pat|];
  }

  /** An occurrence in `s[1..]` is an occurrence in `s` one position further on. */
  lemma OccursShift(pat: string, s: string, j: nat)
    requires s != []
    ensures OccursAt(pat, s[1..], j) <==> OccursAt(pat, s, j + 1)
  {
    if j + |pat| <= |s| - 1 {
      assert s[1..][j..j + |pat|] == s[j + 1..j + 1 + |pat|];
    }
  }

  function DigitChar(d: nat): (c: char)
    requires d < 10
    ensures IsDigit(c)
  {
    (d + '0' as int) as char
  }

  /** `str(n)` for a natural number. */
  function NatToString(n: nat): (r: string)
    ensures r != []
    ensures forall i :: 0 <= i < |r| ==> IsDigit(r[i])
  {
    if n < 10 then [DigitChar(n)] else NatToString(n / 10) + [DigitChar(n % 10)]
  }

  function DigitValue(c: char): (d: nat)
    requires IsDigit(c)
    ensures d < 10
  {
    c as int - '0' as int
  }

  /** `int(s)` for a string of ASCII digits. */
  function DigitsValue(s: string): nat
    requires forall i :: 0 <= i < |s| ==> IsDigit(s[i])
  {
    if s == [] then 0 else DigitsValue(s[..|s| - 1]) * 10 + DigitValue(s[|s| - 1])
  }

  lemma {:induction false} NatToStringValue(n: nat)
    ensures DigitsValue(NatToString(n)) == n
  {
    if n >= 10 {
      var s := NatToString(n);
      assert s[..|s| - 1] == NatToString(n / 10);
      NatToStringValue(n / 10);
    }
  }

  // ---------------------------------------------------------------------
  // sequence identities, stated once so that callers need not re-derive them

  lemma Associative<T>(a: seq<T>, b: seq<T>, c: seq<T>)
    ensures a + (b + c) == (a + b) + c
  {
  }

  lemma AppendNothing<T>(a: seq<T>)
    ensures a + [] == a && [] + a == a
  {
  }

  lemma ConsTail<T>(xs: seq<T>)
    requires xs != []
    ensures [xs[0]] + xs[1..] == xs
  {
  }

  lemma InitLast<T>(xs: seq<T>)
    requires xs != []
    ensures xs[..|xs| - 1] + [xs[|xs| - 1]] == xs
  {
  }

  lemma InMiddle<T>(a: seq<T>, b: seq<T>, c: seq<T>, x: T)
    requires x in b
    ensures x in a + b + c
  {
  }
}
