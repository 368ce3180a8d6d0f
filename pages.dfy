/**
 * `ErrataParser._normalize_page_numbers`: a page cell is normalised by
 * deleting every page keyword (`\b(pages?|pp?\.?)\s*`, case-insensitive)
 * and then, when page numbers `\d+(?:-\d+)?` remain, joining them with
 * ", "; when none remain, the text left after the deletion is the result.
 */
module PageNormalization {
  import opened Text
  import opened Components

  /** `\b` in front of position `i`, where `s[i]` is a word character. */
  predicate StartsWord(s: string, i: nat)
    requires i < |s|
  {
    i == 0 || !IsWordChar(s[i - 1])
  }

  predicate IsP(c: char) {
    c == 'p' || c == 'P'
  }

  /**
   * End of `(pages?|pp?\.?)\s*` at `i`. The first alternative wins whenever
   * "page" is spelt out; otherwise `pp?\.?` always matches, so every
   * `p` that starts a word starts a keyword.
   */
  function PrefixEnd(s: string, i: nat): (e: nat)
    requires i < |s| && IsP(s[i])
    ensures i < e <= |s|
  {
    var w :=
      if i + 3 < |s| && SameLetter(s[i + 1], 'a') && SameLetter(s[i + 2], 'g') && SameLetter(s[i + 3], 'e') then
        (if i + 4 < |s| && SameLetter(s[i + 4], 's') then i + 5 else i + 4)
      else
        var a := if i + 1 < |s| && IsP(s[i + 1]) then i + 2 else i + 1;
        if a < |s| && s[a] == '.' then a + 1 else a;
    SkipSpaces(s, w)
  }

  /**
   * `re.sub(r'\b(pages?|pp?\.?)\s*', '', s[i..], flags=re.IGNORECASE)`:
   * a left-to-right scan where `\b` looks at the character before `i` in
   * the original text.
   */
  function DeleteKeywords(s: string, i: nat): (r: string)
    requires i <= |s|
    ensures |r| <= |s| - i
    decreases |s| - i
  {
    if i == |s| then []
    else if IsP(s[i]) && StartsWord(s, i) then DeleteKeywords(s, PrefixEnd(s, i))
    else [s[i]] + DeleteKeywords(s, i + 1)
  }

  /** `re.findall(r'\d+(?:-\d+)?', s)`. */
  function FindNumbers(s: string): (ns: seq<string>)
    decreases |s|
  {
    if s == [] then []
    else if IsDigit(s[0]) then
      var e := RangeEnd(s, 0);
      [s[..e]] + FindNumbers(s[e..])
    else FindNumbers(s[1..])
  }

  function NormalizePageNumbers(s: string): (r: string)
    ensures s == [] ==> r == []
  {
    if s == [] then []
    else
      var t := DeleteKeywords(s, 0);
      var ns := FindNumbers(t);
      if ns != [] then Join(ns, ", ") else t
  }

  // ---------------------------------------------------------------------
  // what a page number looks like

  /** One page or one page range, exactly as `\d+(?:-\d+)?` matches it. */
  predicate NumberToken(t: string) {
    t != [] && IsDigit(t[0]) && RangeEnd(t, 0) == |t|
  }

  predicate AllPageChars(s: string) {
    forall k :: 0 <= k < |s| ==> IsPageChar(s[k])
  }

  /** The digit run of a prefix `t` is the same inside `t + r` when `r` does not go on with a digit. */
  lemma {:induction false} DigitRunPrefix(t: string, r: string, j: nat)
    requires j <= |t|
    requires r == [] || !IsDigit(r[0])
    ensures DigitRun(t + r, j) == DigitRun(t, j)
    decreases |t| - j
  {
    if j < |t| && IsDigit(t[j]) {
      DigitRunPrefix(t, r, j + 1);
    }
  }

  /** A page number followed by a comma (or by nothing) is matched whole. */
  lemma TokenInContext(t: string, r: string)
    requires NumberToken(t)
    requires r == [] || r[0] == ','
    ensures RangeEnd(t + r, 0) == |t|
  {
    var w := t + r;
    DigitRunPrefix(t, r, 0);
    var e := DigitRun(t, 0);
    if e + 1 < |t| {
      DigitRunPrefix(t, r, e + 1);
    }
  }

  /** The digit run of a slice `s[..n]` ends where the run in `s` ends, or at `n`. */
  lemma {:induction false} DigitRunSlice(s: string, n: nat, j: nat)
    requires j <= n <= |s|
    ensures DigitRun(s[..n], j) == if DigitRun(s, j) <= n then DigitRun(s, j) else n
    decreases n - j
  {
    if j < n && IsDigit(s[j]) {
      DigitRunSlice(s, n, j + 1);
    }
  }

  /** Every match `findall` reports is itself a whole page number. */
  lemma TokenOfMatch(s: string)
    requires s != [] && IsDigit(s[0])
    ensures NumberToken(s[..RangeEnd(s, 0)])
  {
    var n := RangeEnd(s, 0);
    var e := DigitRun(s, 0);
    DigitRunSlice(s, n, 0);
    if e + 1 < |s| && s[e] == '-' && IsDigit(s[e + 1]) {
      DigitRunSlice(s, n, e + 1);
    }
  }

  lemma {:induction false} FindNumbersTokens(s: string)
    ensures forall k :: 0 <= k < |FindNumbers(s)| ==> NumberToken(FindNumbers(s)[k])
    decreases |s|
  {
    if s != [] {
      if IsDigit(s[0]) {
        TokenOfMatch(s);
        FindNumbersTokens(s[RangeEnd(s, 0)..]);
      } else {
        FindNumbersTokens(s[1..]);
      }
    }
  }

  lemma TokenChars(t: string)
    requires NumberToken(t)
    ensures AllPageChars(t)
  {
    RangeChars(t, 0);
  }

  /** Page numbers joined by ", " are made of page characters. */
  lemma {:induction false} JoinedChars(ns: seq<string>)
    requires forall k :: 0 <= k < |ns| ==> NumberToken(ns[k])
    ensures AllPageChars(Join(ns, ", "))
  {
    if ns != [] {
      TokenChars(ns[0]);
      if |ns| > 1 {
        JoinedChars(ns[1..]);
      }
    }
  }

  lemma FindNumbersSingle(t: string)
    requires NumberToken(t)
    ensures FindNumbers(t) == [t]
  {
    TokenInContext(t, []);
    assert t + [] == t;
    assert t[..|t|] == t;
  }

  /** A page number, ", " and a further text: `findall` reports the number, then goes on in the text. */
  lemma FindNumbersCons(t: string, rest: string)
    requires NumberToken(t)
    ensures FindNumbers(t + (", " + rest)) == [t] + FindNumbers(rest)
  {
    var w := t + (", " + rest);
    TokenInContext(t, ", " + rest);
    assert w[..|t|] == t;
    assert w[|t|..] == ", " + rest;
    assert FindNumbers(w) == [t] + FindNumbers(", " + rest);
    assert (", " + rest)[1..] == " " + rest;
    assert FindNumbers(", " + rest) == FindNumbers(" " + rest);
    assert (" " + rest)[1..] == rest;
  }

  /** `findall` gives back exactly the page numbers a join was made of. */
  lemma {:induction false} FindNumbersJoin(ns: seq<string>)
    requires forall k :: 0 <= k < |ns| ==> NumberToken(ns[k])
    ensures FindNumbers(Join(ns, ", ")) == ns
  {
    if |ns| == 1 {
      FindNumbersSingle(ns[0]);
    } else if |ns| > 1 {
      assert Join(ns, ", ") == ns[0] + (", " + Join(ns[1..], ", "));
      FindNumbersCons(ns[0], Join(ns[1..], ", "));
      FindNumbersJoin(ns[1..]);
    }
  }

  // ---------------------------------------------------------------------
  // properties

  /** Text without any `p` passes the keyword deletion unchanged. */
  lemma {:induction false} DeleteNothing(s: string, i: nat)
    requires i <= |s|
    requires forall k :: i <= k < |s| ==> !IsP(s[k])
    ensures DeleteKeywords(s, i) == s[i..]
    decreases |s| - i
  {
    if i < |s| {
      DeleteNothing(s, i + 1);
    }
  }

  /** The digits of `s`, in order. */
  function DigitsOf(s: string): (ds: string)
    ensures forall k :: 0 <= k < |ds| ==> IsDigit(ds[k])
    ensures |ds| <= |s|
  {
    if s == [] then []
    else if IsDigit(s[0]) then [s[0]] + DigitsOf(s[1..])
    else DigitsOf(s[1..])
  }

  /** A keyword and the whitespace after it hold no digit. */
  lemma PrefixNoDigit(s: string, i: nat)
    requires i < |s| && IsP(s[i])
    ensures forall k :: i <= k < PrefixEnd(s, i) ==> !IsDigit(s[k])
  {
    var w :=
      if i + 3 < |s| && SameLetter(s[i + 1], 'a') && SameLetter(s[i + 2], 'g') && SameLetter(s[i + 3], 'e') then
        (if i + 4 < |s| && SameLetter(s[i + 4], 's') then i + 5 else i + 4)
      else
        var a := if i + 1 < |s| && IsP(s[i + 1]) then i + 2 else i + 1;
        if a < |s| && s[a] == '.' then a + 1 else a;
    SkippedAreSpaces(s, w);
  }

  /** Dropping a stretch without digits from the front does not change the digits. */
  lemma {:induction false} DigitsSkip(s: string, i: nat, j: nat)
    requires i <= j <= |s|
    requires forall k :: i <= k < j ==> !IsDigit(s[k])
    ensures DigitsOf(s[i..]) == DigitsOf(s[j..])
    decreases j - i
  {
    if i < j {
      assert s[i..][1..] == s[i + 1..];
      DigitsSkip(s, i + 1, j);
    }
  }

  /** The keyword deletion never deletes a digit: the digits of the text are kept, in order. */
  lemma {:induction false} DeleteKeepsDigits(s: string, i: nat)
    requires i <= |s|
    ensures DigitsOf(DeleteKeywords(s, i)) == DigitsOf(s[i..])
    decreases |s| - i
  {
    if i < |s| {
      if IsP(s[i]) && StartsWord(s, i) {
        var e := PrefixEnd(s, i);
        PrefixNoDigit(s, i);
        DeleteKeepsDigits(s, e);
        DigitsSkip(s, i, e);
      } else {
        var r := DeleteKeywords(s, i + 1);
        DeleteKeepsDigits(s, i + 1);
        assert ([s[i]] + r)[0] == s[i] && ([s[i]] + r)[1..] == r;
        assert s[i..][0] == s[i] && s[i..][1..] == s[i + 1..];
      }
    }
  }

  /**
   * When page numbers are found, the result is a ", "-separated list of
   * page numbers and ranges, and nothing else.
   */
  lemma NumbersFound(s: string)
    requires FindNumbers(DeleteKeywords(s, 0)) != []
    ensures var r := NormalizePageNumbers(s);
      && r != [] && IsDigit(r[0])
      && AllPageChars(r)
      && FindNumbers(r) == FindNumbers(DeleteKeywords(s, 0))
  {
    var ns := FindNumbers(DeleteKeywords(s, 0));
    FindNumbersTokens(DeleteKeywords(s, 0));
    JoinedChars(ns);
    FindNumbersJoin(ns);
  }

  /** Normalising a page list that has numbers a second time changes nothing. */
  lemma NormalizeIdempotent(s: string)
    requires FindNumbers(DeleteKeywords(s, 0)) != []
    ensures NormalizePageNumbers(NormalizePageNumbers(s)) == NormalizePageNumbers(s)
  {
    var r := NormalizePageNumbers(s);
    NumbersFound(s);
    DeleteNothing(r, 0);
    assert r[0..] == r;
  }

  /** A text with a digit has a page number for `findall` to find. */
  lemma {:induction false} DigitsFound(t: string)
    requires DigitsOf(t) != []
    ensures FindNumbers(t) != []
    decreases |t|
  {
    if !IsDigit(t[0]) {
      DigitsFound(t[1..]);
    }
  }

  /** And a text where `findall` finds a page number has a digit. */
  lemma {:induction false} FoundDigits(t: string)
    requires FindNumbers(t) != []
    ensures DigitsOf(t) != []
    decreases |t|
  {
    if !IsDigit(t[0]) {
      FoundDigits(t[1..]);
    }
  }

  /** A digit anywhere in the text shows up among its digits. */
  lemma {:induction false} HasDigitDigits(s: string, k: nat)
    requires k < |s| && IsDigit(s[k])
    ensures DigitsOf(s) != []
    decreases k
  {
    if !IsDigit(s[0]) {
      HasDigitDigits(s[1..], k - 1);
    }
  }

  /** Page numbers are found after the keyword deletion exactly when the text holds a digit. */
  lemma NumbersIffDigit(s: string)
    ensures FindNumbers(DeleteKeywords(s, 0)) != [] <==> exists k :: 0 <= k < |s| && IsDigit(s[k])
  {
    var t := DeleteKeywords(s, 0);
    DeleteKeepsDigits(s, 0);
    assert s[0..] == s;
    if FindNumbers(t) != [] {
      FoundDigits(t);
      var j := DigitsOfWitness(s);
      assert IsDigit(s[j]);
    }
    if exists k :: 0 <= k < |s| && IsDigit(s[k]) {
      var k :| 0 <= k < |s| && IsDigit(s[k]);
      HasDigitDigits(s, k);
      DigitsFound(t);
    }
  }

  /** A text with digits has a digit at some position. */
  lemma {:induction false} DigitsOfWitness(s: string) returns (j: nat)
    requires DigitsOf(s) != []
    ensures j < |s| && IsDigit(s[j])
    decreases |s|
  {
    if IsDigit(s[0]) {
      j := 0;
    } else {
      var j1 := DigitsOfWitness(s[1..]);
      j := j1 + 1;
    }
  }

  /**
   * For any text with a digit, the result is the ", "-separated list of the
   * page numbers and ranges found after the keyword deletion, and nothing else.
   */
  lemma NumbersFoundAt(s: string, k: nat)
    requires k < |s| && IsDigit(s[k])
    ensures var r := NormalizePageNumbers(s);
      && r == Join(FindNumbers(DeleteKeywords(s, 0)), ", ")
      && r != [] && IsDigit(r[0])
      && AllPageChars(r)
      && FindNumbers(r) == FindNumbers(DeleteKeywords(s, 0))
  {
    HasDigitDigits(s, k);
    DeleteKeepsDigits(s, 0);
    assert s[0..] == s;
    DigitsFound(DeleteKeywords(s, 0));
    NumbersFound(s);
  }

  /** Normalising any text with a digit a second time changes nothing. */
  lemma NormalizeIdempotentAt(s: string, k: nat)
    requires k < |s| && IsDigit(s[k])
    ensures NormalizePageNumbers(NormalizePageNumbers(s)) == NormalizePageNumbers(s)
  {
    HasDigitDigits(s, k);
    DeleteKeepsDigits(s, 0);
    assert s[0..] == s;
    DigitsFound(DeleteKeywords(s, 0));
    NormalizeIdempotent(s);
  }

  /**
   * Without numbers the deletion alone is the result, and it is not
   * idempotent: "ppp" loses its word-initial "pp" and then its last "p".
   */
  lemma NotIdempotentWithoutNumbers()
    ensures NormalizePageNumbers("ppp") == "p"
    ensures NormalizePageNumbers("p") == ""
  {
    var s := "ppp";
    assert PrefixEnd(s, 0) == 2;
    assert DeleteKeywords(s, 2) == "p" + DeleteKeywords(s, 3);
    assert DeleteKeywords(s, 0) == "p";
    assert FindNumbers("p") == FindNumbers("p"[1..]);
    assert PrefixEnd("p", 0) == 1;
  }
}
