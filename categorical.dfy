/**
 * `ErrataParser._normalize_categorical_field`, applied to the Unit,
 * Resource and Location columns: every word is capitalised (first letter
 * upper case, the rest lower case), the words are joined by single spaces,
 * and then four abbreviations are expanded wherever they stand as a whole
 * word, case-insensitively, one abbreviation after the other.
 */
module Categorical {
  import opened Text

  /** A word of `str.split()`: non-empty, no whitespace. */
  predicate IsWord(w: string) {
    w != [] && forall i :: 0 <= i < |w| ==> !IsSpace(w[i])
  }

  predicate AllWords(ws: seq<string>) {
    forall k :: 0 <= k < |ws| ==> IsWord(ws[k])
  }

  /** `str.capitalize()` on ASCII text. */
  function Capitalize(w: string): (r: string)
    ensures |r| == |w|
    ensures w != [] ==> r[0] == ToUpper(w[0])
    ensures forall i :: 1 <= i < |w| ==> r[i] == ToLower(w[i])
  {
    if w == [] then [] else [ToUpper(w[0])] + Lower(w[1..])
  }

  function CapitalizeAll(ws: seq<string>): (r: seq<string>)
    ensures |r| == |ws|
    ensures forall k :: 0 <= k < |ws| ==> r[k] == Capitalize(ws[k])
  {
    if ws == [] then [] else [Capitalize(ws[0])] + CapitalizeAll(ws[1..])
  }

  /** `' '.join(word.capitalize() for word in text.split())`. */
  function CapitalizeWords(s: string): string {
    Join(CapitalizeAll(Words(s)), " ")
  }

  /** `\b<ab>\b` at `i`, case-insensitively; `ab` is made of letters. */
  predicate WholeWordAt(ab: string, s: string, i: nat) {
    && MatchesAt(ab, s, i)
    && (0 < i <= |s| ==> !IsWordChar(s[i - 1]))
    && (i + |ab| < |s| ==> !IsWordChar(s[i + |ab|]))
  }

  /**
   * `re.sub(rf'\b{ab}\b', full, s[i..], flags=re.IGNORECASE)`, scanning left
   * to right. Every abbreviation of the source is non-empty; an empty one
   * would leave the text as it is.
   */
  function Expand(s: string, ab: string, full: string, i: nat): (r: string)
    requires i <= |s|
    decreases |s| - i
  {
    if ab == [] then s[i..]
    else if i == |s| then []
    else if WholeWordAt(ab, s, i) then full + Expand(s, ab, full, i + |ab|)
    else [s[i]] + Expand(s, ab, full, i + 1)
  }

  /** The expansions, in the order the source applies them. */
  const Abbreviations: seq<(string, string)> :=
    [("Te", "Teacher Edition"), ("Tg", "Teacher Guide"), ("Tcg", "Teacher Course Guide"), ("Se", "Student Edition")]

  function ExpandAll(s: string, abbrevs: seq<(string, string)>): (r: string)
    decreases |abbrevs|
  {
    if abbrevs == [] then s
    else ExpandAll(Expand(s, abbrevs[0].0, abbrevs[0].1, 0), abbrevs[1..])
  }

  /**
   * The whole normalisation. What it gives for text without abbreviations
   * is `NormalizeWithoutAbbreviation`; how each abbreviation is replaced is
   * `ExpandFirst` and `ExpandNothing`.
   */
  function NormalizeCategorical(s: string): (r: string)
    ensures s == [] ==> r == []
  {
    if s == [] then [] else ExpandAll(CapitalizeWords(s), Abbreviations)
  }

  // ---------------------------------------------------------------------
  // splitting what was joined

  /** A word, a space and a further text: `split()` yields the word, then the words of the text. */
  lemma SplitCons(w: string, rest: string)
    requires IsWord(w)
    ensures Words(w + (" " + rest)) == [w] + Words(rest)
  {
    var x := w + (" " + rest);
    WordPrefixOfWord(w, " " + rest);
    assert TrimLeft(x) == x;
    assert x[..|w|] == w;
    assert x[|w|..] == " " + rest;
    assert TrimLeft(" " + rest) == TrimLeft(rest) by {
      assert (" " + rest)[1..] == rest;
    }
  }

  lemma SplitOne(w: string)
    requires IsWord(w)
    ensures Words(w) == [w]
  {
    WordPrefixOfWord(w, []);
    assert w + [] == w;
    assert w[..|w|] == w;
    assert w[|w|..] == [];
  }

  lemma JoinCons(ws: seq<string>, sep: string)
    requires |ws| > 1
    ensures Join(ws, sep) == ws[0] + (sep + Join(ws[1..], sep))
  {
  }

  /** `split()` undoes `' '.join` of words. */
  lemma {:induction false} SplitJoin(ws: seq<string>)
    requires AllWords(ws)
    ensures Words(Join(ws, " ")) == ws
  {
    if |ws| == 1 {
      SplitOne(ws[0]);
    } else if |ws| > 1 {
      SplitJoin(ws[1..]);
      SplitJoinStep(ws);
    }
  }

  lemma SplitJoinStep(ws: seq<string>)
    requires |ws| > 1 && IsWord(ws[0])
    requires Words(Join(ws[1..], " ")) == ws[1..]
    ensures Words(Join(ws, " ")) == ws
  {
    SplitConsJoin(ws, " ");
    ConsTail(ws);
  }

  lemma SplitConsJoin(ws: seq<string>, sep: string)
    requires |ws| > 1 && IsWord(ws[0]) && sep == " "
    ensures Words(Join(ws, sep)) == [ws[0]] + Words(Join(ws[1..], sep))
  {
    JoinCons(ws, sep);
    SplitCons(ws[0], Join(ws[1..], sep));
  }

  // ---------------------------------------------------------------------
  // properties of the capitalisation

  lemma CapitalizeIdempotent(w: string)
    ensures Capitalize(Capitalize(w)) == Capitalize(w)
  {
  }

  lemma CapitalizedWords(ws: seq<string>)
    requires AllWords(ws)
    ensures AllWords(CapitalizeAll(ws))
  {
    forall k | 0 <= k < |ws| ensures IsWord(CapitalizeAll(ws)[k]) {
      var w := ws[k];
      assert forall i :: 0 <= i < |w| ==> !IsSpace(w[i]);
    }
  }

  lemma {:induction false} WordsAreWords(s: string)
    ensures AllWords(Words(s))
    decreases |s|
  {
    var t := TrimLeft(s);
    if t != [] {
      var n := WordPrefix(t);
      WordsAreWords(t[n..]);
    }
  }

  /** After the capitalisation the words are exactly the capitalised words of the input. */
  lemma CapitalizedSplit(s: string)
    ensures Words(CapitalizeWords(s)) == CapitalizeAll(Words(s))
  {
    WordsAreWords(s);
    CapitalizedWords(Words(s));
    SplitJoin(CapitalizeAll(Words(s)));
  }

  /** Capitalising twice is capitalising once. */
  lemma CapitalizeWordsIdempotent(s: string)
    ensures CapitalizeWords(CapitalizeWords(s)) == CapitalizeWords(s)
  {
    CapitalizedSplit(s);
    CapitalizeAllIdempotent(Words(s));
  }

  lemma CapitalizeAllIdempotent(ws: seq<string>)
    ensures CapitalizeAll(CapitalizeAll(ws)) == CapitalizeAll(ws)
  {
    var cs := CapitalizeAll(ws);
    forall k | 0 <= k < |ws| ensures CapitalizeAll(cs)[k] == cs[k] {
      CapitalizeIdempotent(ws[k]);
    }
  }

  // ---------------------------------------------------------------------
  // properties of the expansion

  /** Where the abbreviation never stands as a whole word, the text is left as it is. */
  lemma {:induction false} ExpandNothing(s: string, ab: string, full: string, i: nat)
    requires ab != [] && i <= |s|
    requires forall k :: i <= k < |s| ==> !WholeWordAt(ab, s, k)
    ensures Expand(s, ab, full, i) == s[i..]
    decreases |s| - i
  {
    if i < |s| {
      ExpandNothing(s, ab, full, i + 1);
    }
  }

  /**
   * The first whole-word occurrence at or after `i`, at `k`, is replaced by
   * the full form; the text before it is copied and the scan goes on after it.
   * With `ExpandNothing` this says that every whole-word occurrence, left to
   * right, is replaced and nothing else changes.
   */
  lemma ExpandFirst(s: string, ab: string, full: string, i: nat, k: nat)
    requires ab != [] && i <= k <= |s|
    requires WholeWordAt(ab, s, k)
    requires forall j :: i <= j < k ==> !WholeWordAt(ab, s, j)
    ensures k + |ab| <= |s|
    ensures Expand(s, ab, full, i) == s[i..k] + full + Expand(s, ab, full, k + |ab|)
  {
    ExpandCopies(s, ab, full, i, k);
    var rest := Expand(s, ab, full, k + |ab|);
    assert Expand(s, ab, full, k) == full + rest;
    Associative(s[i..k], full, rest);
  }

  /** Up to the first whole-word occurrence the text is copied as it is. */
  lemma {:induction false} ExpandCopies(s: string, ab: string, full: string, i: nat, k: nat)
    requires ab != [] && i <= k <= |s|
    requires forall j :: i <= j < k ==> !WholeWordAt(ab, s, j)
    ensures Expand(s, ab, full, i) == s[i..k] + Expand(s, ab, full, k)
    decreases k - i
  {
    if i < k {
      ExpandCopies(s, ab, full, i + 1, k);
      var rest := Expand(s, ab, full, k);
      assert !WholeWordAt(ab, s, i);
      assert Expand(s, ab, full, i) == [s[i]] + (s[i + 1..k] + rest);
      assert s[i..k] == [s[i]] + s[i + 1..k];
      Associative([s[i]], s[i + 1..k], rest);
    } else {
      assert s[i..k] == [];
    }
  }

  /** Every expansion in the list leaves a text without its abbreviation as it is. */
  lemma {:induction false} ExpandAllNothing(t: string, abbrevs: seq<(string, string)>)
    requires forall a :: 0 <= a < |abbrevs| ==> abbrevs[a].0 != []
    requires forall a, k :: 0 <= a < |abbrevs| && 0 <= k <= |t| ==> !WholeWordAt(abbrevs[a].0, t, k)
    ensures ExpandAll(t, abbrevs) == t
    decreases |abbrevs|
  {
    if abbrevs != [] {
      ExpandNothing(t, abbrevs[0].0, abbrevs[0].1, 0);
      assert t[0..] == t;
      ExpandAllNothing(t, abbrevs[1..]);
    }
  }

  /**
   * When no abbreviation stands as a whole word in the capitalised text, the
   * result is that text: the capitalised words of the input, joined by single
   * spaces.
   */
  lemma NormalizeWithoutAbbreviation(s: string)
    requires forall a, k :: 0 <= a < |Abbreviations| && 0 <= k <= |CapitalizeWords(s)| ==> !WholeWordAt(Abbreviations[a].0, CapitalizeWords(s), k)
    ensures NormalizeCategorical(s) == CapitalizeWords(s) == Join(CapitalizeAll(Words(s)), " ")
    ensures Words(NormalizeCategorical(s)) == CapitalizeAll(Words(s))
  {
    ExpandAllNothing(CapitalizeWords(s), Abbreviations);
    CapitalizedSplit(s);
  }

  /** A text that is just the abbreviation, in any case, becomes the full form. */
  lemma ExpandWhole(s: string, ab: string, full: string)
    requires ab != [] && MatchesAt(ab, s, 0) && |s| == |ab|
    ensures Expand(s, ab, full, 0) == full
  {
    assert WholeWordAt(ab, s, 0);
    assert Expand(s, ab, full, |ab|) == [];
  }

  /** No two adjacent characters spell the first two letters of `ab`, so `ab` stands nowhere. */
  lemma AbsentPair(s: string, ab: string)
    requires |ab| >= 2
    requires forall k :: 0 <= k && k + 1 < |s| ==> !(SameLetter(s[k], ab[0]) && SameLetter(s[k + 1], ab[1]))
    ensures forall k :: 0 <= k <= |s| ==> !WholeWordAt(ab, s, k)
  {
    forall k | 0 <= k <= |s| ensures !WholeWordAt(ab, s, k) {
      if k + 1 < |s| {
        assert !(SameLetter(s[k + 0], ab[0]) && SameLetter(s[k + 1], ab[1]));
      }
    }
  }

  lemma TeacherEditionHasNoAbbreviation(s: string)
    requires s == "Teacher Edition"
    ensures forall k :: 0 <= k && k + 1 < |s| ==> !(SameLetter(s[k], 't') && SameLetter(s[k + 1], 'g'))
    ensures forall k :: 0 <= k && k + 1 < |s| ==> !(SameLetter(s[k], 't') && SameLetter(s[k + 1], 'c'))
    ensures forall k :: 0 <= k && k + 1 < |s| ==> !(SameLetter(s[k], 's') && SameLetter(s[k + 1], 'e'))
  {
  }

  /** "te" (any case) names the Teacher Edition, and the later expansions leave that alone. */
  lemma TeacherEditionExample(s: string)
    requires |s| == 2 && SameLetter(s[0], 't') && SameLetter(s[1], 'e')
    ensures NormalizeCategorical(s) == "Teacher Edition"
  {
    TeCapitalized(s);
    TeExpanded();
  }

  lemma TeCapitalized(s: string)
    requires |s| == 2 && SameLetter(s[0], 't') && SameLetter(s[1], 'e')
    ensures CapitalizeWords(s) == "Te"
  {
    var c := Capitalize(s);
    assert c == "Te";
    SplitOne(s);
  }

  lemma TeExpanded()
    ensures ExpandAll("Te", Abbreviations) == "Teacher Edition"
  {
    var t := "Teacher Edition";
    ExpandWhole("Te", "Te", t);
    assert ExpandAll("Te", Abbreviations) == ExpandAll(t, Abbreviations[1..]);
    TeacherEditionKept(t);
  }

  /** The expansions after the first leave "Teacher Edition" as it is. */
  lemma TeacherEditionKept(t: string)
    requires t == "Teacher Edition"
    ensures ExpandAll(t, Abbreviations[1..]) == t
  {
    var rest := Abbreviations[1..];
    assert |rest| == 3 && rest[0].0 == "Tg" && rest[1].0 == "Tcg" && rest[2].0 == "Se";
    TeacherEditionHasNoAbbreviation(t);
    AbsentPair(t, "Tg");
    AbsentPair(t, "Tcg");
    AbsentPair(t, "Se");
    ExpandAllNothing(t, rest);
  }

  /** A unit title with a lower-case word: every word is capitalised, and no abbreviation is touched. */
  lemma UnitTitleExample()
    ensures NormalizeCategorical("Unit 1: Numbers and Counting") == "Unit 1: Numbers And Counting"
  {
    var s := "Unit 1: Numbers and Counting";
    var t := "Unit 1: Numbers And Counting";
    UnitTitleCapitalized(s, t);
    UnitTitleHasNoAbbreviation(t);
    NormalizeWithoutAbbreviation(s);
  }

  lemma UnitTitleCapitalized(s: string, t: string)
    requires s == "Unit 1: Numbers and Counting" && t == "Unit 1: Numbers And Counting"
    ensures CapitalizeWords(s) == t
  {
    var ws := ["Unit", "1:", "Numbers", "and", "Counting"];
    var cs := ["Unit", "1:", "Numbers", "And", "Counting"];
    UnitTitleWords(ws, s);
    SplitJoin(ws);
    UnitTitleCapitals(ws, cs);
    UnitTitleJoin(cs, t);
  }

  lemma UnitTitleWords(ws: seq<string>, s: string)
    requires ws == ["Unit", "1:", "Numbers", "and", "Counting"] && s == "Unit 1: Numbers and Counting"
    ensures AllWords(ws) && Join(ws, " ") == s
  {
    UnitTitleEachWord(ws);
    JoinFive(ws, " ");
  }

  lemma UnitTitleEachWord(ws: seq<string>)
    requires ws == ["Unit", "1:", "Numbers", "and", "Counting"]
    ensures AllWords(ws)
  {
    forall k | 0 <= k < |ws| ensures IsWord(ws[k]) {
      var w := ws[k];
      assert forall i :: 0 <= i < |w| ==> w[i] != ' ';
    }
  }

  /** A word whose first letter is not lower case and whose other letters are not upper case. */
  predicate IsCapitalized(w: string) {
    w != [] ==> !IsLower(w[0]) && forall i :: 1 <= i < |w| ==> !IsUpper(w[i])
  }

  /** An already capitalised word is left as it is. */
  lemma CapitalizedUnchanged(w: string)
    requires IsCapitalized(w)
    ensures Capitalize(w) == w
  {
  }

  lemma UnitTitleCapitals(ws: seq<string>, cs: seq<string>)
    requires ws == ["Unit", "1:", "Numbers", "and", "Counting"] && cs == ["Unit", "1:", "Numbers", "And", "Counting"]
    ensures CapitalizeAll(ws) == cs
  {
    UnitTitleCase(ws);
    CapitalizeEach(ws, cs);
  }

  lemma UnitTitleCase(ws: seq<string>)
    requires ws == ["Unit", "1:", "Numbers", "and", "Counting"]
    ensures IsCapitalized(ws[0]) && IsCapitalized(ws[1]) && IsCapitalized(ws[2]) && IsCapitalized(ws[4])
    ensures Capitalize(ws[3]) == "And"
  {
  }

  lemma CapitalizeEach(ws: seq<string>, cs: seq<string>)
    requires |ws| == |cs| == 5 && cs[3] == Capitalize(ws[3])
    requires forall k :: 0 <= k < 5 && k != 3 ==> IsCapitalized(ws[k]) && cs[k] == ws[k]
    ensures CapitalizeAll(ws) == cs
  {
    forall k | 0 <= k < 5 && k != 3 ensures Capitalize(ws[k]) == cs[k] {
      CapitalizedUnchanged(ws[k]);
    }
  }

  /** The capitalised example words, joined by spaces, give the capitalised title. */
  lemma UnitTitleJoin(cs: seq<string>, t: string)
    requires cs == ["Unit", "1:", "Numbers", "And", "Counting"] && t == "Unit 1: Numbers And Counting"
    ensures Join(cs, " ") == t
  {
    JoinFive(cs, " ");
  }

  /** Five parts joined: each part, with the separator between neighbours. */
  lemma JoinFive(ws: seq<string>, sep: string)
    requires |ws| == 5
    ensures Join(ws, sep) == ws[0] + sep + ws[1] + sep + ws[2] + sep + ws[3] + sep + ws[4]
  {
    assert Join(ws[4..], sep) == ws[4];
    assert Join(ws[3..], sep) == ws[3] + sep + ws[4];
    assert Join(ws[2..], sep) == ws[2] + sep + (ws[3] + sep + ws[4]);
    assert Join(ws[1..], sep) == ws[1] + sep + (ws[2] + sep + (ws[3] + sep + ws[4]));
  }

  lemma UnitTitleHasNoAbbreviation(t: string)
    requires t == "Unit 1: Numbers And Counting"
    ensures forall a, k :: 0 <= a < |Abbreviations| && 0 <= k <= |t| ==> !WholeWordAt(Abbreviations[a].0, t, k)
  {
    UnitTitlePairs(t);
    AbsentPair(t, "Te");
    AbsentPair(t, "Tg");
    AbsentPair(t, "Tcg");
    AbsentPair(t, "Se");
  }

  /** In the example title, `t` is followed only by a space or `i`, and `s` only by a space. */
  lemma UnitTitlePairs(t: string)
    requires t == "Unit 1: Numbers And Counting"
    ensures forall k :: 0 <= k && k + 1 < |t| && SameLetter(t[k], 't') ==> t[k + 1] == ' ' || t[k + 1] == 'i'
    ensures forall k :: 0 <= k && k + 1 < |t| && SameLetter(t[k], 's') ==> t[k + 1] == ' '
  {
  }
}
