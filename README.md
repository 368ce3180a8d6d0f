# Errata scraper core, modelled in Dafny

The errata scraper signs in to a curriculum website, visits the errata pages
of each course, and reads the accordion sections of each page. Every section
holds a table. Each table row becomes one errata record with ten columns:
extraction date, grade level, unit, resource, location, instructional moment,
page numbers, description, improvement type, and date updated.

Each record goes through these steps:

1. The component cell is split into a resource, a location and page numbers.
2. Every value is cleaned: whitespace is tidied, dates become `YYYY-MM-DD`,
   page lists become `12-15, 20`, and names are capitalised with their
   abbreviations expanded.
3. A record is kept only when it has a unit, a resource and a description.

The run then works on all the records of all pages:

- it validates them;
- it deduplicates them against the CSV file already on disk;
- it writes them to that file;
- it summarises them.

A dashboard classifies records as teacher-facing or student-facing, formats
the resource information, and lists grade levels in curriculum order.

The model has twelve modules:

- `Text`: Python's string built-ins on ASCII text.
- `Dates`: `_normalize_date` and the `strptime` check of validation.
- `Components`: `_parse_component_text` and its regular expressions.
- `PageNormalization`: `_normalize_page_numbers`.
- `Categorical`: `_normalize_categorical_field`.
- `Grades`: the two grade-level lookups.
- `Records`: record cleaning and validity.
- `Extraction`: the table and page loops of both page backends.
- `Csv`: the CSV writer class, the write modes and the deduplication.
- `CsvChecks`: `validate_data` and `create_summary_report`.
- `Dashboard`: the three dashboard helpers.
- `Scraper`: the `ErrataScraper` class.

How the Python constructs are represented:

- A regular expression becomes a function that scans by position. Its
  contract and lemmas state what the expression matches.
- A loop that builds a list becomes a method whose loop invariant ties it to
  a recursive function.
- The scraper and the CSV writer are classes whose fields the methods update.
- The CSV file is modelled by two fields, `present` and `lines` (a sequence
  of cell lines). A missing file holds no lines: the constructor requires
  it, and every write makes the file present. So the deduplication reads
  only `lines`, and a missing file, an empty one and one holding only the
  header all count as nothing stored.
- The clock, the outcome of signing in, the outcome of each page fetch and
  whether the file can be written are parameters.

## Model

| member | source | states |
|---|---|---|
| Text.ToLower | src/streamlit_app.py:231-232 | lower-casing turns a capital `c` into the small letter `c + 32`, leaves every other character alone, and keeps whitespace, digits and word characters what they were |
| Text.ToUpper | src/parser.py:709 | upper-casing turns a small letter `c` into the capital `c - 32`, leaves every other character alone, and keeps whitespace, digits and word characters what they were |
| Text.Lower | src/streamlit_app.py:231-232 | `str.lower()` keeps the length and lower-cases each character in place |
| Text.ContainsFromIff | src/streamlit_app.py:256-268 | the scan used for Python's `kw in text` holds exactly when `kw` occurs in `text` at some position from `i` on |
| Text.ContainsEmpty | src/streamlit_app.py:256-268 | `'' in s` is always true, and a non-empty keyword is never in `''` |
| Text.TrimLeft | src/parser.py:250-252 | the result is a suffix of the input that does not start with whitespace, and everything dropped is whitespace |
| Text.TrimRight | src/parser.py:250-252 | the result is a prefix of the input that does not end with whitespace, and everything dropped is whitespace |
| Text.Strip | src/parser.py:250-252 | `str.strip()` gives a slice `s[a..b]` of the input such that everything before `a` and from `b` on is whitespace, and the slice neither starts nor ends with whitespace: only the ends are cut |
| Text.StripNoSpace | src/parser.py:614 | stripping text that has no whitespace changes nothing |
| Text.StripEdges | src/parser.py:328 | a text whose ends are not whitespace is its own strip |
| Text.StripKeepsPrefix | src/parser.py:326 | stripping a text that starts with a non-space keeps every prefix that ends in a non-space |
| Text.StripChar | src/parser.py:328 | `strip(',')` gives a slice `s[a..b]` such that everything before `a` and from `b` on is a comma, and the slice neither starts nor ends with a comma: only the ends are cut |
| Text.WordPrefix | src/parser.py:709 | the first word of `split()` is the longest prefix without whitespace, and it stops at whitespace |
| Text.JoinLength | src/streamlit_app.py:65 | the length of `sep.join(parts)` is the sum of the part lengths plus one separator between each pair of parts |
| Text.CollapseSpaces | src/parser.py:614 | `re.sub(r'\s+', ' ', ...)` leaves only plain spaces as whitespace, is empty exactly when its input is, and does not grow the text |
| Text.CollapseKeepsWords | src/parser.py:614 | the collapse keeps the words of the text, in order: `split()` of the result is `split()` of the input |
| Text.WordsTrim | src/parser.py:709 | leading whitespace does not change what `split()` yields |
| Text.CollapseNoDoubleSpace | src/parser.py:614 | after the collapse, no two whitespace characters are adjacent |
| Text.CollapseLast | src/parser.py:614 | the collapse ends in whitespace exactly when the input does |
| Text.CollapseNoSpace | src/parser.py:614 | text without whitespace is not changed by the collapse |
| Text.WordPrefixAll | src/parser.py:709 | a text without whitespace is one whole word |
| Text.WordPrefixOfWord | src/parser.py:709 | a word followed by whitespace is taken whole by `split()` |
| Text.RemoveAll | src/parser.py:328 | `s.replace(pat, '')` never makes the text longer; which occurrences it deletes is `Text.RemoveAllNone` and `Text.RemoveAllFirst` |
| Text.RemoveAllNone | src/parser.py:328 | where `pat` occurs nowhere, the text is unchanged |
| Text.RemoveAllFirst | src/parser.py:328 | the leftmost occurrence of `pat`, at `k`, is deleted, the text before it is kept, and the replacement goes on right after it: every occurrence a left-to-right scan meets is deleted and everything between is kept |
| Text.DigitChar | src/csv_writer.py:198 | a digit value below ten is written as an ASCII digit |
| Text.NatToString | src/csv_writer.py:198 | `str(n)` is a non-empty run of ASCII digits |
| Text.DigitValue | src/parser.py:688 | a digit character has a value below ten |
| Text.NatToStringValue | src/csv_writer.py:198 | `int(str(n)) == n`: reading back the printed count gives the count |
| Dates.ShortField | src/parser.py:673-674 | `\d{1,2}` followed by the separator takes at most two digits, and the separator stands right after them |
| Dates.TailField | src/parser.py:672 | a trailing `\d{1,2}` takes one or two digits that are all digits |
| Dates.MatchAt | src/parser.py:671-679 | a match at `i` lays its groups out as slices of the text in the pattern's order: four year digits, the separator, one or two month digits, the separator, one or two day digits (or month, day, year); a trailing day takes two digits whenever two are there |
| Dates.MatchAtComplete | src/parser.py:671-679 | wherever that layout is present in the text, the matcher finds a match there |
| Dates.Search | src/parser.py:679 | `re.search` returns groups with the shape of a date; where they come from is `Dates.SearchLeftmost` |
| Dates.SearchLeftmost | src/parser.py:679 | the match returned is the leftmost: it is the match at some position `k` and no position before `k` matches; nothing is returned exactly when no position matches |
| Dates.DaysInMonth | src/parser.py:688 | every month has 28 to 31 days, with the leap-year rule for February |
| Dates.Pad2 | src/parser.py:688 | `f"{n:02d}"` is two digits that read back as `n` |
| Dates.Format | src/parser.py:688-689 | a valid match formats to a canonical `YYYY-MM-DD` date with the same year, month and day |
| Dates.Chosen | src/parser.py:688-689 | the date an accepting pattern gives is canonical |
| Dates.TryPatterns | src/parser.py:678-691 | the pattern loop returns the date of the first pattern whose leftmost match is a real calendar date, and nothing exactly when no pattern's leftmost match is one |
| Dates.NormalizeDate | src/parser.py:657-693 | `""` stays `""`; when no pattern's leftmost match is a real date the input comes back unchanged; otherwise the result is the date of the first pattern whose leftmost match is a real date; in every case it is the input or a canonical date |
| Dates.TwoDigitsValue | src/parser.py:688 | two digits read as a number below 100 |
| Dates.TwoDigitsRoundTrip | src/parser.py:688 | zero-padding the value of two digits gives back the same two digits |
| Dates.CanonicalFixed | src/parser.py:672-689 | a canonical date normalises to itself |
| Dates.NormalizeDateIdempotent | src/parser.py:619-620 | normalising twice gives the same as normalising once, so the second normalisation in cleaning changes nothing |
| Dates.NoSeparatorNoMatch | src/parser.py:671-679 | a pattern never matches a text that lacks its separator |
| Dates.MonthFirstSlash | src/parser.py:673-689 | `M/D/YYYY` naming a real date becomes year, dash, month, dash, day, with the same values |
| Dates.TwoDigitYearUnchanged | src/parser.py:671-693 | `8/4/25` has no four-digit year and comes back unchanged |
| Dates.NoDigitNoMatch | src/parser.py:671-679 | no pattern matches a text without digits |
| Dates.NoDigitsUnchanged | src/parser.py:693 | a text without digits is returned unchanged |
| Dates.NoDateUnchanged | src/parser.py:693 | `not-a-date` comes back unchanged |
| Dates.InvalidMatchFallsThrough | src/parser.py:690-691 | a first match that is not a real date (30 February) falls through to the next pattern: `2024-02-30 3/4/2024` gives `2024-03-04` |
| Dates.FebruaryThirtiethRejected | src/parser.py:688-691 | in that text the ISO pattern matches `2024-02-30`, which is not a real date |
| Dates.SlashDateFound | src/parser.py:673-689 | in that text the month-first slash pattern finds `3/4/2024`, which formats to `2024-03-04` |
| Dates.FormatExample | src/parser.py:688-689 | year 2024, month 3, day 4 formats to `2024-03-04` |
| Dates.SkipWithoutSlash | src/parser.py:673 | the slash pattern cannot start where no slash follows within two characters |
| Dates.SlashStep | src/parser.py:673 | one such position can be skipped by the search |
| Dates.DigitsValueFour | src/parser.py:688 | four digits read as the usual decimal number |
| Dates.MonthTokenLength | src/csv_writer.py:247 | `strptime`'s `%m` token takes at most two digits |
| Dates.DayTokenLength | src/csv_writer.py:247 | `strptime`'s `%d` token takes at most two characters |
| Dates.DayTokenDigits | src/csv_writer.py:247 | the digits of a day token are digits |
| Dates.CanonicalParses | src/csv_writer.py:245-249 | every canonical date passes the `strptime(..., '%Y-%m-%d')` check, so normalised dates draw no warning |
| Dates.ShortFieldsParse | src/csv_writer.py:247 | the check also accepts `2024-1-5`, which is not canonical |
| Components.SkipSpaces | src/parser.py:304 | `\s*` stops at the first non-space |
| Components.DigitRun | src/parser.py:304 | `\d*` stops at the first non-digit and ends on a digit when it took any |
| Components.RangeEnd | src/parser.py:304 | `\d+(?:-\d+)?` ends on a digit, and takes every digit there is: no digit follows it |
| Components.ListTail | src/parser.py:304 | the `(?:,\s*\d+(?:-\d+)?)*` tail ends on a digit when it took anything |
| Components.PageListEnd | src/parser.py:304 | a page list runs from its first digit to a digit |
| Components.SkippedAreSpaces | src/parser.py:304 | what `\s*` skips is whitespace |
| Components.RunAreDigits | src/parser.py:304 | what `\d*` takes is digits |
| Components.RangeChars | src/parser.py:304 | a page or range is made of digits and dashes |
| Components.ListTailChars | src/parser.py:304 | the tail of a page list is made of digits, dashes, commas and whitespace |
| Components.PageListChars | src/parser.py:304 | a whole page list is made of digits, dashes, commas and whitespace |
| Components.KeywordEnd | src/parser.py:304 | `pgs?\.?\s*` or `pages?\s*` starts with `p` and leads to a digit |
| Components.PageSearch | src/parser.py:304 | the page search finds a keyword at or after the start, with its page list |
| Components.RemovalEnd | src/parser.py:308 | the removal pattern deletes at least one character |
| Components.RemovePageRefs | src/parser.py:308 | deleting the page references never makes the text longer; which text it deletes is `Components.RemovalFirst` and `Components.RemovalNone` |
| Components.LazyStop | src/parser.py:312-317 | the lazy `.*?(?:,\|$)` stops at the first comma or at the end, and crosses no comma and no newline |
| Components.ResourceAt | src/parser.py:312-324 | a resource match starts with the name (any case), and the whole match ends at group 1's end or one comma later |
| Components.ResourceSearch | src/parser.py:324 | a returned match is a match of the pattern at its own start, at or after the search position |
| Components.ResourceSearchMissed | src/parser.py:324 | `re.search` finds nothing only when the pattern matches at no position |
| Components.ResourceSearchFirst | src/parser.py:324 | the match `re.search` returns is the leftmost: no earlier position matches |
| Components.FirstResource | src/parser.py:323-331 | the resource loop takes the first pattern, in the fixed order, that matches; every earlier pattern finds nothing |
| Components.RemainingText | src/parser.py:305-308 | without a page reference the text is left as it is; with one it is the stripped text left once every match of the removal pattern is deleted |
| Components.PageNumbers | src/parser.py:303-306 | empty exactly when no page reference is found; otherwise the list that follows the first keyword, `s[digits..end]`, which the grammar `\d+(?:-\d+)?(?:,\s*\d+(?:-\d+)?)*` matches whole, which starts and ends with a digit, holds only page characters, and ends where no further page can be added |
| Components.PageSliceShape | src/parser.py:306 | group 1 of a page reference starts and ends with a digit and holds only page characters |
| Components.RangeGrammar | src/parser.py:304 | what `\d+(?:-\d+)?` takes is one page, or two pages joined by a dash |
| Components.PageListGrammar | src/parser.py:304 | the list the search takes is matched whole by the page-list grammar |
| Components.ListTailStops | src/parser.py:304 | the list stops only where neither a digit nor a comma, whitespace and a digit follow |
| Components.ResourceNamesProper | src/parser.py:311-318 | the six resource names are non-empty, with no whitespace at their ends |
| Components.PageSearchLeftmost | src/parser.py:304 | the page search finds nothing exactly when no position holds a keyword followed by a digit |
| Components.PageSearchFirst | src/parser.py:304 | no keyword starts before the one the search reports |
| Components.PageSearchSkip | src/parser.py:304 | positions without a letter p can be skipped by the search |
| Components.PageSearchStep | src/parser.py:304 | a position without a keyword can be skipped by the search |
| Components.RemovalBeforeKeyword | src/parser.py:304-308 | before the leftmost keyword, a removal deletes through that keyword's page list |
| Components.RemovalGap | src/parser.py:308 | what the removal deletes in front of the leftmost keyword is commas and whitespace |
| Components.RemovalAtKeyword | src/parser.py:304-308 | at a keyword, the removal deletes through the same page list the search reports |
| Components.FirstRemoval | src/parser.py:308 | there is a first position at which the removal pattern matches |
| Components.KeptUntil | src/parser.py:308 | characters where the removal pattern does not match are copied through |
| Components.KeepStep | src/parser.py:308 | one such character is copied |
| Components.SkipStops | src/parser.py:304 | a whitespace run stops at the first non-space |
| Components.FirstReferenceRemoved | src/parser.py:304-308 | the deletion removes the first page reference together with the comma and spaces before it, and keeps everything in front verbatim |
| Components.PagesIffKeyword | src/parser.py:303-306 | a component gets page numbers exactly when some page keyword is followed by a digit |
| Components.NoReferenceKept | src/parser.py:308 | without a page keyword, the deletion changes nothing |
| Components.RemovalNone | src/parser.py:308 | where the removal pattern matches nowhere from `i` on, the rest of the text is kept |
| Components.RemovalFirst | src/parser.py:308 | the first match of the removal pattern from `i` on is deleted through its end, the text before it is kept, and the scan goes on after it: every match a left-to-right scan meets is deleted and everything between is kept |
| Components.RemainingWithReference | src/parser.py:304-308 | with a page reference, the remaining text is the text before the first reference, less the comma and whitespace in front of it, followed by what the deletion leaves after its page list, stripped |
| Components.DeletionFormsReference | src/parser.py:308 | the deletion is one pass: `ppg 1g 2` becomes `pg 2`, which still holds a page reference |
| Components.DeletionMatches | src/parser.py:308 | in `ppg 1g 2` the removal pattern matches at position 1 through `pg 1`, and not at 0 or after 4 |
| Components.ReferenceLeft | src/parser.py:304 | `pg 2` holds a page reference |
| Components.ResourceRule | src/parser.py:320-337 | the resource is empty exactly when the remaining text is; with no pattern match the whole text is the resource and the location is empty; otherwise the resource starts with the name that matched first |
| Components.GroupStartsWithName | src/parser.py:326 | group 1, stripped, still starts with the resource name |
| Components.LazyStopToEnd | src/parser.py:312-317 | with no comma and no newline, the lazy group runs to the end |
| Components.ResourceAbsent | src/parser.py:324 | a name whose first two letters are never adjacent in the text is not found |
| Components.DigitRunExact | src/parser.py:304 | a digit run stops exactly at the first non-digit |
| Components.TrailingRangeFound | src/parser.py:304 | in `<text>, pgs. <a>-<b>` the search finds the keyword after the comma, and the range runs to the end |
| Components.TrailingRangePages | src/parser.py:306 | in that shape the page numbers are the range |
| Components.TrailingRangeRemoved | src/parser.py:308 | in that shape the remaining text is what precedes the comma |
| Components.CommaRemoval | src/parser.py:308 | in that shape the removal pattern matches at the comma |
| Components.FirstResourceAt | src/parser.py:323-331 | when the earlier patterns miss and pattern `k` matches, pattern `k` wins |
| Components.WholeTextIsResource | src/parser.py:323-335 | a text without commas that starts with the `k`-th name, where no earlier name occurs, is entirely resource with an empty location |
| Components.WholeTextMatch | src/parser.py:312-317 | such a text matches the pattern as a whole |
| Components.WholeMatchRemoved | src/parser.py:326-330 | removing the whole match leaves no location |
| Components.GlossaryExample | src/parser.py:290-300 | `""` gives three empty parts, and `Teacher Edition Glossary, pgs. 346-347` gives that resource, no location and pages `346-347` |
| Components.TrailingRangeComponent | src/parser.py:285-337 | a cell `<resource>, pgs. <a>-<b>` gives that resource, no location and the range |
| Components.GlossaryShape | src/parser.py:290 | the documented example has that shape |
| Components.GlossaryResource | src/parser.py:312-335 | `Teacher Edition Glossary` is all resource |
| Components.NoPageComponent | src/parser.py:285-337 | a cell free of the letter p that is all resource gives no location and no pages |
| Components.NoPageKept | src/parser.py:304 | a text free of the letter p has no page reference |
| Components.StudentEditionExample | src/parser.py:291-313 | `Student Edition Unit 2` is all resource (the lazy group runs to the end), with no location and no pages |
| Components.StudentShape | src/parser.py:291 | that text has no p, no comma and no `te`, and starts with `Student Edition` |
| Components.StudentResource | src/parser.py:313-335 | such a text is all resource |
| Components.TeacherEditionAbsent | src/parser.py:313 | a text without `te` is not matched by the `Teacher Edition` pattern |
| PageNormalization.PrefixEnd | src/parser.py:647 | a keyword `(pages?\|pp?\.?)\s*` consumes at least its first letter |
| PageNormalization.DeleteKeywords | src/parser.py:647 | deleting the keywords never makes the text longer |
| PageNormalization.NormalizePageNumbers | src/parser.py:640-641 | an empty page text stays empty |
| PageNormalization.DigitRunPrefix | src/parser.py:650 | a digit run in a prefix is the same in the longer text when no digit follows |
| PageNormalization.TokenInContext | src/parser.py:650 | a page number followed by a comma is matched whole |
| PageNormalization.DigitRunSlice | src/parser.py:650 | a digit run in a slice ends where the full run ends, or at the slice end |
| PageNormalization.TokenOfMatch | src/parser.py:650 | every match `findall` reports is a page or a range |
| PageNormalization.FindNumbersTokens | src/parser.py:650 | `findall` returns only pages and ranges |
| PageNormalization.TokenChars | src/parser.py:650 | a page or range holds only page characters |
| PageNormalization.JoinedChars | src/parser.py:653 | the `', '`-joined list holds only page characters |
| PageNormalization.FindNumbersSingle | src/parser.py:650 | a single page or range is found as itself |
| PageNormalization.FindNumbersCons | src/parser.py:650-653 | a page, `', '` and more text: the page is found first, and the search goes on in the rest |
| PageNormalization.FindNumbersJoin | src/parser.py:650-653 | `findall` on a `', '`-join gives back exactly the pages joined |
| PageNormalization.DeleteNothing | src/parser.py:647 | text without a `p` passes the keyword deletion unchanged |
| PageNormalization.DigitsOf | src/parser.py:647 | the digits of a text, in order, are digits and no more than the text |
| PageNormalization.PrefixNoDigit | src/parser.py:647 | a page keyword and the whitespace after it hold no digit |
| PageNormalization.DigitsSkip | src/parser.py:647 | dropping a stretch without digits keeps the digits |
| PageNormalization.DeleteKeepsDigits | src/parser.py:647 | the keyword deletion never deletes a digit: the digits of the text are kept, in order |
| PageNormalization.NumbersFound | src/parser.py:650-653 | when numbers are found, the result starts with a digit, holds only page characters, and lists exactly the numbers found |
| PageNormalization.NormalizeIdempotent | src/parser.py:640-655 | normalising a page list that has numbers a second time changes nothing |
| PageNormalization.DigitsFound | src/parser.py:650 | `findall` finds a page number in any text that has a digit |
| PageNormalization.FoundDigits | src/parser.py:650 | and a text in which it finds one has a digit |
| PageNormalization.HasDigitDigits | src/parser.py:650 | a digit at any position of the text is among its digits |
| PageNormalization.NumbersIffDigit | src/parser.py:647-652 | numbers are found after the keyword deletion exactly when the original text holds a digit |
| PageNormalization.NumbersFoundAt | src/parser.py:647-653 | for every text with a digit, the result starts with a digit, holds only page characters, and lists exactly the numbers found |
| PageNormalization.NormalizeIdempotentAt | src/parser.py:640-655 | normalising any text with a digit a second time changes nothing |
| PageNormalization.NotIdempotentWithoutNumbers | src/parser.py:647-655 | without numbers the deletion alone is the result, and it is not idempotent: `ppp` gives `p`, and `p` gives `""` |
| Categorical.Capitalize | src/parser.py:709 | `capitalize()` upper-cases the first letter, lower-cases the rest, and keeps the length |
| Categorical.CapitalizeAll | src/parser.py:709 | each word is capitalised in place |
| Categorical.NormalizeCategorical | src/parser.py:705-706 | an empty value stays empty; the rest is `Categorical.NormalizeWithoutAbbreviation`, `Categorical.ExpandFirst` and `Categorical.ExpandNothing` |
| Categorical.SplitCons | src/parser.py:709 | `split()` of a word, a space and more text yields the word, then the words of the rest |
| Categorical.SplitOne | src/parser.py:709 | `split()` of one word yields that word |
| Categorical.JoinCons | src/parser.py:709 | `' '.join` of several parts is the first part, a space, and the join of the rest |
| Categorical.SplitJoin | src/parser.py:709 | `split()` undoes `' '.join` of words |
| Categorical.SplitJoinStep | src/parser.py:709 | the inductive step of that round trip |
| Categorical.SplitConsJoin | src/parser.py:709 | splitting a join peels off its first word |
| Categorical.CapitalizeIdempotent | src/parser.py:709 | capitalising a word twice is capitalising it once |
| Categorical.CapitalizedWords | src/parser.py:709 | capitalised words are still words |
| Categorical.WordsAreWords | src/parser.py:709 | `split()` yields non-empty words without whitespace |
| Categorical.CapitalizedSplit | src/parser.py:709 | the words of the capitalised text are the capitalised words of the input |
| Categorical.CapitalizeWordsIdempotent | src/parser.py:709 | capitalising the words of a text twice is capitalising them once |
| Categorical.CapitalizeAllIdempotent | src/parser.py:709 | capitalising a word list twice is capitalising it once |
| Categorical.ExpandNothing | src/parser.py:719-720 | where the abbreviation never stands as a whole word, the text is unchanged |
| Categorical.ExpandFirst | src/parser.py:719-720 | the first whole-word occurrence of the abbreviation, in any case, is replaced by the full form, the text before it is kept, and the scan goes on after it: every whole-word occurrence, left to right, is replaced |
| Categorical.ExpandAllNothing | src/parser.py:718-720 | a text in which no abbreviation stands as a whole word passes all four expansions unchanged |
| Categorical.NormalizeWithoutAbbreviation | src/parser.py:705-722 | when no abbreviation stands as a whole word in the capitalised text, the result is the capitalised words of the input joined by single spaces, and its words are the capitalised words of the input |
| Categorical.ExpandWhole | src/parser.py:720 | a text that is just the abbreviation, in any case, becomes the full form |
| Categorical.AbsentPair | src/parser.py:720 | when no two adjacent characters spell the abbreviation's first two letters, it stands nowhere |
| Categorical.TeacherEditionHasNoAbbreviation | src/parser.py:712-720 | `Teacher Edition` contains none of `tg`, `tc` or `se` |
| Categorical.TeacherEditionExample | src/parser.py:705-722 | `te`, in any case, normalises to `Teacher Edition`, and the later expansions leave that alone |
| Categorical.UnitTitleExample | src/parser.py:705-722 | `Unit 1: Numbers and Counting` normalises to `Unit 1: Numbers And Counting` |
| Categorical.UnitTitleCapitalized | src/parser.py:709 | capitalising the words of that title gives `Unit 1: Numbers And Counting` |
| Categorical.UnitTitleJoin | src/parser.py:709 | the capitalised words joined by spaces give `Unit 1: Numbers And Counting` |
| Categorical.UnitTitleWords | src/parser.py:709 | that title is the join of its five words |
| Categorical.UnitTitleEachWord | src/parser.py:709 | each of the five is a word |
| Categorical.CapitalizedUnchanged | src/parser.py:709 | `capitalize()` leaves a word as it is when its first letter is not small and no other letter is a capital |
| Categorical.UnitTitleCapitals | src/parser.py:709 | the capitalised words are `Unit`, `1:`, `Numbers`, `And`, `Counting` |
| Categorical.UnitTitleCase | src/parser.py:709 | four of the words are already capitalised, and `and` becomes `And` |
| Categorical.CapitalizeEach | src/parser.py:709 | capitalising a list word by word |
| Categorical.UnitTitleHasNoAbbreviation | src/parser.py:712-720 | none of the four abbreviations stands as a whole word in `Unit 1: Numbers And Counting` |
| Categorical.UnitTitlePairs | src/parser.py:712-720 | in that text `t` is followed only by a space or `i`, and `s` only by a space |
| Grades.NumberAt | src/parser.py:356-357 | `kw\s*(\d+)` or `kw-(\d+)` at a position yields a non-empty group of digits after the keyword |
| Grades.NumberFrom | src/parser.py:363-364 | a match found yields a non-empty group of digits |
| Grades.NumberFromMissed | src/parser.py:363-364 | `re.search` finds no number only when the pattern matches at no position |
| Grades.NumberFromFirst | src/parser.py:363-364 | the group found is that of the leftmost position that matches: no earlier position matches |
| Grades.TitleMatch | src/parser.py:363-364 | a match of a pattern with a group yields a non-empty group, and a match of a pattern without a group yields none |
| Grades.GradeFromStrings | src/parser.py:352-398 | a non-empty title that a pattern matches decides the result; otherwise a URL label gives that label; otherwise the result is `Unknown Grade` |
| Grades.GradeFromStringsIntended | src/parser.py:352-398 | the same order of title, URL and `Unknown Grade`, with the `pre-algebra` branch reached |
| Grades.BeforeBar | src/parser.py:172 | `split('\|')[0]` is the prefix before the first bar, and contains no bar |
| Grades.LabelIntendedIsLabel | src/parser.py:366-377 | each branch's label is one of the pattern labels |
| Grades.TitleLabelIsLabel | src/parser.py:363-377 | the intended title loop only gives pattern labels |
| Grades.UrlLabelIsLabel | src/parser.py:380-396 | the URL loop only gives pattern labels |
| Grades.IntendedGradeIsKnown | src/parser.py:339-398 | with the intended dispatch, every page gets a pattern label or `Unknown Grade` |
| Grades.TitleFirst | src/parser.py:352-377 | a title that matches a pattern decides the grade, whatever the URL |
| Text.PairAbsent | src/parser.py:366-377 | a keyword whose two adjacent letters never appear adjacent in the text is not in the text |
| Grades.Present | src/parser.py:366-377 | a keyword that occurs in a text is found by `in` |
| Grades.GradeDispatch | src/parser.py:368-369 | the `grade` pattern gives `Grade <n>` |
| Grades.AlgebraDispatch | src/parser.py:370-371 | the `algebra` pattern gives `Algebra <n>` |
| Grades.GeometryDispatch | src/parser.py:372-373 | the `geometry` pattern gives `Geometry` |
| Grades.CalculusDispatch | src/parser.py:376-377 | the `calculus` pattern gives `Calculus` |
| Grades.DispatchAgrees | src/parser.py:366-377 | for every pattern but `pre-algebra`, the `if/elif` chain as written gives the intended label |
| Grades.PreAlgebraRaises | src/parser.py:370-371 | `pre-algebra` contains `algebra`, so it enters the algebra branch and asks for a group it does not have |
| Grades.LookupAgrees | src/parser.py:363-377 | the as-written and intended title loops stop at the same pattern; they differ only in raising at `pre-algebra` |
| Grades.GradeAgrees | src/parser.py:339-398 | where the as-written lookup does not raise it gives the intended grade; where it raises, the intended grade is `Pre-Algebra` |
| Grades.StripNoBar | src/parser.py:172 | stripping a text without a bar leaves no bar |
| Grades.BrowserGradeKinds | src/parser.py:107-178 | the browser backend gives a pattern label, `Unknown Grade`, or the title's first bar-separated part, stripped |
| Grades.NotFound | src/parser.py:364 | a keyword that matches nowhere is not found |
| Grades.NoNumber | src/parser.py:364 | a number pattern that matches nowhere finds nothing |
| Grades.NoMatchByPair | src/parser.py:364 | the case-insensitive form of `PairAbsent` |
| Grades.PreAlgebraNoGr | src/parser.py:356 | `Pre-Algebra` has no `gr` |
| Grades.PreAlgebraNoEo | src/parser.py:358 | `Pre-Algebra` has no `eo` |
| Grades.PreAlgebraAl | src/parser.py:357 | the only `al` in `Pre-Algebra` is the one at position 4 |
| Grades.PreAlgebraNoAlgebraNumber | src/parser.py:357 | `algebra\s*(\d+)` does not match `Pre-Algebra` |
| Grades.PreAlgebraNoGradeNumber | src/parser.py:356 | `grade\s*(\d+)` does not match `Pre-Algebra` |
| Grades.PreAlgebraNoGeometry | src/parser.py:358 | `geometry` does not match `Pre-Algebra` |
| Grades.PreAlgebraFound | src/parser.py:355-359 | `kindergarten` misses `Pre-Algebra`, and `pre-algebra` matches it |
| Grades.PreAlgebraLookup | src/parser.py:363-377 | when the first four patterns miss and `pre-algebra` matches, the title loop as written raises, and the intended loop gives `Pre-Algebra` |
| Grades.PreAlgebraTitle | src/parser.py:363-377 | a page titled `Pre-Algebra` makes the HTML backend's lookup raise whatever the URL; the browser backend answers `Unknown Grade`; the intended answer is `Pre-Algebra` |
| Records.CleanErrataData | src/parser.py:599-628 | the loop over the keys gives the record with the same keys and each value cleaned by its column's rule |
| Records.TidyShape | src/parser.py:614 | a tidied value has no whitespace at its ends, and inside only single plain spaces |
| Records.EmptyStaysEmpty | src/parser.py:612-624 | an empty value stays empty in every column |
| Records.PlainColumn | src/parser.py:614-624 | a column with no normaliser of its own is tidied and nothing more |
| Records.DateColumn | src/parser.py:619-620 | a cleaned date is empty, a canonical date, or the tidied text |
| Records.DateColumnTwice | src/parser.py:619-620 | cleaning a canonical date column again changes nothing |
| Records.CanonicalNoSpace | src/parser.py:614-620 | a canonical date holds no whitespace |
| Extraction.ExtractTableData | src/parser.py:220-283 | the row loop gives the valid cleaned records of the rows with at least three cells, in row order, and nothing when the rows cannot be looked up |
| Extraction.ExtractSections | src/parser.py:44-56 | the section loop gives every section's records, in section order |
| Extraction.ParsePageWithSoup | src/parser.py:64-105 | the HTML backend gives the page's records under the string lookup's grade, and nothing when that lookup raises |
| Extraction.ParsePageWithBrowser | src/parser.py:22-62 | the browser backend gives the page's records under the browser grade |
| Extraction.RawShape | src/parser.py:257-268 | a raw record carries the page's grade and the section's unit, with an empty instructional moment and improvement type |
| Extraction.KeptShape | src/parser.py:271-274 | a kept record is valid, carries the cleaned grade and unit, and keeps the two unfilled columns empty |
| Extraction.RowRecordShape | src/parser.py:240-278 | a row gives at most one record, of that shape, and none when it has fewer than three cells or cannot be read |
| Extraction.TableRecordsShape | src/parser.py:240-283 | a table gives at most one record per row, each valid, with the page's grade and the section's unit |
| Extraction.TableRecordsAppend | src/parser.py:240-274 | rows are taken in order: the records of `a + b` are those of `a` followed by those of `b` |
| Extraction.PageRecordsAppend | src/parser.py:44-55 | sections are taken in order, in the same sense |
| Extraction.PageRecordsShape | src/parser.py:33-58 | every record of a page is valid and carries the one grade computed for the page |
| Extraction.PreAlgebraPageLost | src/parser.py:83-105 | on the HTML backend as written, a page titled `Pre-Algebra` gives no records at all; with the intended lookup it gives all its records under `Pre-Algebra` |
| Csv.Stamped | src/csv_writer.py:70-72 | stamping adds the extraction time only where it is missing, and keeps every other value |
| Text.IndexOf | src/csv_writer.py:78-83 | finds the first column of that name, or reports that it is absent; the level sort (src/streamlit_app.py:99-104) uses the same first index, the length standing for an absent level |
| Csv.CsvWriter.constructor | src/csv_writer.py:17-26 | the writer starts with the configured columns and the file as found |
| Csv.CsvWriter.WriteErrataData | src/csv_writer.py:55-94 | every record is stamped; a failed write changes nothing; a successful write leaves the lines of the chosen mode, with a header when the mode is `w` or the file is new; the file stays well formed |
| Csv.CsvWriter.AppendErrataData | src/csv_writer.py:96-106 | the same write in mode `a` |
| Csv.CsvWriter.DeduplicateErrataAsWritten | src/csv_writer.py:128-170 | as written: every new record when nothing is stored or a key column is missing; otherwise exactly the new records whose key, compared as `read_csv` reads the file back, is not stored; never more records than given |
| Csv.CsvWriter.DeduplicateErrata | src/csv_writer.py:128-170 | every new record when nothing is stored or a key column is missing; otherwise exactly the new records whose key, compared as text, is not stored; never more records than given |
| Csv.OverwriteDropsStored | src/csv_writer.py:86-87 | mode `w` keeps nothing of the file: the header, then the new lines |
| Csv.AppendKeepsStored | src/csv_writer.py:86-87 | mode `a` keeps the file's lines and adds the new ones after them, with a header only for a new file |
| Csv.LineCell | src/csv_writer.py:75-83 | a written line holds each record's own value under each column |
| Csv.UniqueMembers | src/csv_writer.py:150-158 | a record is kept exactly when it is a new record whose key is not stored |
| Csv.UniqueAsWrittenMembers | src/csv_writer.py:150-158 | as written, a record is kept exactly when it is a new record whose key, as the merge compares it with the file read back, is not stored |
| Csv.UniqueAppend | src/csv_writer.py:150-160 | the anti-join keeps the order of the new records |
| Csv.StoredNeverEmpty | src/csv_writer.py:117 | no stored cell reads back as the empty text |
| Csv.EmptyKeyNeverMatches | src/csv_writer.py:139-158 | a key column that every new record holds as `""` never matches, because the stored side reads it back as a missing value |
| Csv.DeduplicatedKeepsAll | src/csv_writer.py:139-166 | records with an empty instructional moment are never recognised as duplicates by the as-written deduplication |
| Csv.UniqueIntendedAllStored | src/csv_writer.py:150-158 | records whose keys are all stored are all dropped |
| Csv.WrittenKey | src/csv_writer.py:75-87 | the key read back from a written line is the key of the record written |
| Csv.AppendedKeysStored | src/csv_writer.py:86-87 | after an append, every appended record's key is among the stored keys |
| Csv.AppendThenDeduplicate | src/csv_writer.py:128-170 | with text keys, records just appended are all recognised as duplicates by the next run |
| CsvChecks.CheckRecord | src/csv_writer.py:237-253 | the four checks give that record's warnings, in order |
| CsvChecks.ValidateData | src/csv_writer.py:222-255 | the loop gives every record's warnings, record by record, numbered from 1 |
| CsvChecks.NoWarningsIff | src/csv_writer.py:237-253 | a record draws no warning exactly when it has a unit, a resource, a parseable date or none, and a description of at most 500 characters |
| CsvChecks.RecordWarningsShape | src/csv_writer.py:237-253 | a record draws at most four warnings, each tagged with its number |
| CsvChecks.WarningsBound | src/csv_writer.py:234-255 | there are at most four warnings per record |
| CsvChecks.CleanedRecordWarnings | src/csv_writer.py:237-253 | a record the parser keeps, with its date canonical or empty and a short description, draws no warning |
| CsvChecks.Find | src/csv_writer.py:195 | finds the tally entry of a value, or reports that none exists |
| CsvChecks.CountSnoc | src/csv_writer.py:195 | one more value adds one to its own count only |
| CsvChecks.TotalUpdate | src/csv_writer.py:195 | replacing one entry changes the total by the difference |
| CsvChecks.BumpTotal | src/csv_writer.py:195 | counting one more value adds one to the total |
| CsvChecks.BumpTallies | src/csv_writer.py:195 | counting one more value keeps the tally exact |
| CsvChecks.CountPositive | src/csv_writer.py:195 | a value that is counted occurs |
| CsvChecks.CountAllTallies | src/csv_writer.py:195 | counting lists each distinct value once with its number of occurrences, and the counts add up to the number of values |
| CsvChecks.InsertElements | src/csv_writer.py:195 | inserting by count adds exactly that entry |
| CsvChecks.TotalCons | src/csv_writer.py:195 | the total of a list with one more entry in front |
| CsvChecks.InsertSorted | src/csv_writer.py:195 | inserting by count keeps the list sorted by count |
| CsvChecks.InsertDistinct | src/csv_writer.py:195 | inserting a new value keeps the values distinct |
| CsvChecks.SortProperties | src/csv_writer.py:195 | sorting by count is a rearrangement, sorted largest first, with the same total |
| CsvChecks.ValueCountsSpec | src/csv_writer.py:195-211 | `value_counts` lists every distinct value once with its count, largest first, and the counts add up to the number of values |
| CsvChecks.AppendCounts | src/csv_writer.py:197-198 | the loop adds one `  value: count` line per entry, in order |
| CsvChecks.AppendBlock | src/csv_writer.py:194-214 | one column's block adds its title, its count lines and a blank line, when the column exists |
| CsvChecks.CreateSummaryReport | src/csv_writer.py:172-220 | the report is the summary lines joined by newlines |
| CsvChecks.SummaryOfNothing | src/csv_writer.py:183-186 | with no data the report is the one fixed sentence |
| CsvChecks.ColumnValuesAll | src/csv_writer.py:195 | when every record has the column, there is one value per record |
| CsvChecks.ColumnValuesHas | src/csv_writer.py:195 | a record's value of the column is among the column's values |
| CsvChecks.CountsAddUp | src/csv_writer.py:189-195 | when every record has the column, its counts add up to the total the report opens with |
| CsvChecks.BlockListed | src/csv_writer.py:194-214 | every value of a column appears in its block with the number of records holding it |
| CsvChecks.UnitListed | src/csv_writer.py:188-199 | every record's unit appears in the report with the number of records in that unit |
| Dashboard.FindKeyword | src/streamlit_app.py:256-268 | each keyword loop returns exactly when some keyword of its list occurs in the text |
| Dashboard.ClassifyContentType | src/streamlit_app.py:214-272 | the classifier's result: teacher keywords in the resource, then teacher keywords in the description, then student keywords in the resource, then teacher-facing by default |
| Dashboard.NeverAmbiguous | src/streamlit_app.py:214-272 | nothing is classed as ambiguous, though the documentation names that class |
| Dashboard.StudentFacingIff | src/streamlit_app.py:255-272 | student-facing exactly when neither the resource nor the description names teacher material and the resource names student material |
| Dashboard.MissingIsTeacherFacing | src/streamlit_app.py:225-272 | with both values missing, the result is teacher-facing |
| Dashboard.TeacherWins | src/streamlit_app.py:256-258 | a resource that mentions a teacher, in any case, is teacher-facing whatever the description says |
| Dashboard.NanIsMissing | src/streamlit_app.py:52-63 | the text `nan` and the empty text are shown as if the value were missing |
| Dashboard.NothingShown | src/streamlit_app.py:65 | with nothing shown, the result is the fixed message |
| Dashboard.AllShown | src/streamlit_app.py:56-65 | with all three shown: resource, location and `Page(s): <pages>`, separated by ` - ` |
| Dashboard.FormatLength | src/streamlit_app.py:65 | the result starts with the first part shown, and each further part adds its length plus three |
| Dashboard.KnownLevels | src/streamlit_app.py:107-110 | the first loop keeps the known levels present, once each, in curriculum order |
| Dashboard.AppendOthers | src/streamlit_app.py:112-115 | the second loop appends every other level once, in order of first appearance, after the known ones |
| Dashboard.OrderLevels | src/streamlit_app.py:106-115 | the two loops list every level once: the known ones in the given order, then the others in order of appearance |
| Dashboard.GradeOrderNoDuplicates | src/streamlit_app.py:99-104 | the curriculum order names each level once |
| Dashboard.SortGradeLevels | src/streamlit_app.py:309-325 | the dashboard's grade lists run from Kindergarten to Algebra 2, then any other level in order of appearance |
| Scraper.ErrataScraper.constructor | src/scraper.py:18-28 | a new scraper holds no records and no metadata and has not signed out |
| Scraper.ErrataScraper.ExtractFromSinglePage | src/scraper.py:145-195 | a page gives the records its backend extracts; a failed fetch gives none; the URL enters the metadata only when the page loaded; nothing else changes |
| Scraper.ErrataScraper.ExtractAllErrata | src/scraper.py:103-143 | the records of all pages are added in page order; the loaded URLs are added to the metadata; success means some records are held |
| Scraper.ErrataScraper.Save | src/scraper.py:197-237 | nothing to process fails; nothing new to write succeeds without touching the file; otherwise the deduplicated, stamped records are written (mode `w` and the deduplication as written, or mode `a` and text keys as intended), and success means the write succeeded |
| Scraper.ErrataScraper.ProcessAndSaveData | src/scraper.py:197-237 | as written (mode `w`, src/scraper.py:228): after a write the file holds only the header and the new records |
| Scraper.ErrataScraper.ProcessAndSaveDataIntended | src/scraper.py:197-237 | appending: after a write the file holds its old lines followed by the new records |
| Scraper.ErrataScraper.RunFullExtraction | src/scraper.py:30-66 | sign-in, extraction and saving run in turn, each only after the previous one succeeded; signing out happens on every path; success exactly when all three succeed; after a write the file holds only the header and the new records |
| Scraper.ErrataScraper.Run | src/scraper.py:30-66 | the same, for either way of saving |
| Scraper.ErrataScraper.RunIncrementalUpdate | src/scraper.py:265-283 | the full extraction unchanged: the same outcome, and a write also replaces the file, so nothing stored before survives it |
| Scraper.ErrataScraper.RunIncrementalUpdateIntended | src/scraper.py:265-283 | an update that appends, as the documentation says: after a write the file holds its old lines followed by the new records; records and page URLs are kept when sign-in fails and extended by the extracted ones otherwise |
| Scraper.ErrataScraper.TestAuthenticationOnly | src/scraper.py:285-325 | success exactly when sign-in succeeds and, when pages are configured, opening the first of them does not raise; signing out always happens; no records or metadata change |
| Scraper.ErrataScraper.GetExtractionStats | src/scraper.py:327-338 | the number of records held and the number of pages with metadata |
| Scraper.AllErrataSnoc | src/scraper.py:118-129 | one more page adds its records at the end |
| Scraper.PrefixStep | src/scraper.py:118-129 | the records and URLs of the first `i + 1` pages extend those of the first `i` |
| Scraper.LoadedUrlsSnoc | src/scraper.py:168-188 | one more page adds its URL when it loaded |
| Scraper.AllErrataAppend | src/scraper.py:118-129 | pages are taken in order: the records of `a + b` are those of `a` followed by those of `b` |
| Scraper.FailedPageAddsNothing | src/scraper.py:156-195 | a page that could not be fetched adds nothing, wherever it stands |
| Scraper.SoupGradeUnknown | src/scraper.py:191 | the HTML backend, called without a title or URL, files every record under `Unknown Grade` |
| Scraper.PageErrataMoment | src/scraper.py:145-195 | every record a page gives has an empty instructional moment |
| Scraper.AllErrataMoment | src/scraper.py:103-143 | every extracted record has an empty instructional moment |
| Scraper.ExtractedNeverDeduplicated | src/scraper.py:217 | with the file read back as `read_csv` reads it, no extracted record is ever recognised as already saved, whatever the file holds |

## Left out

- Character classes are ASCII only: whitespace is the six ASCII space characters (space, tab, newline, carriage return, vertical tab, form feed); Python's `\s` and `strip()` also count the separators `\x1c` to `\x1f`, which are not modelled; `\d` is `0`-`9`, `\w` is ASCII letters, digits and `_`, and `re.IGNORECASE`, `lower()`, `upper()` and `capitalize()` fold ASCII letters only. Unicode whitespace, digits and case folding are not modelled.
- Record values are always text. The non-text branch of `_clean_errata_data` (src/parser.py:625-626) cannot arise from the extraction, and is not modelled.
- `datetime.now()` is a parameter (`today`, `now`). Sign-in, the page fetch, Selenium, `time.sleep`, and the logging are outcomes passed in or left out. The `writable` parameter stands for every exception `to_csv` can raise.
- The browser and HTML documents are abstract. A page is its title, its URL and its sections. A section is its button text and rows. A row is its cell texts, or unreadable.
- `_expand_accordion_section` only clicks and waits, and is not modelled. `_extract_errata_from_soup_element`, `_safe_extract_text` and `_safe_extract_soup_text` are not called by the core, and are not part of this model.
- The HTML backend reads the unit button and the three cells of each row with `get_text(strip=True)` (src/parser.py:413, 451-453), which strips each text fragment of the element and joins the fragments. The model strips the whole text of the element (`Extraction.UnitName` and the cell texts), which is the same for an element with a single text node.
- `extract_metadata` is not modelled. Only the fact that a page's URL enters the metadata is kept, not the metadata contents.
- `create_backup` copies the file. The backup outcome only decides whether a warning is logged, so it is a parameter with no effect.
- The summary file that `_generate_summary_report` writes, and its metadata section, are not modelled. The report text itself is (`CsvChecks.CreateSummaryReport`).
- `test_authentication_only` opens the first configured page; only whether that raised is modelled (`navigationOk`), not the page, its title or its status code. A missing driver or session skips the navigation and counts as not raising.
- CSV quoting, the encoding, and `read_csv` type inference are not modelled. A stored cell reads back as its text, and an empty cell reads back as a missing value. Numeric coercion of columns such as `Page_Numbers` is not modelled.
- An empty existing file makes `read_csv` raise, and the loader then gives an empty frame. The model covers this with `NothingStored`.
- `to_dict('records')` after the merge turns the record's missing columns into NaN entries. The model keeps the record as it was.
- Records are values in the model. The source adds `Date_Extracted` to the caller's own dictionaries, so `all_errata` afterwards holds the stamped records. The model returns the stamped records, and `allErrata` keeps the unstamped ones. Aliasing is not modelled.
- CsvChecks.ValueCounts: `value_counts` breaks ties between equal counts in an order pandas does not document. The model keeps first-appearance order among equal counts. Only the order is affected: the values, their counts, and the largest-first order are what the source promises.
- The documentation of `_parse_component_text` gives `("Student Edition", "Unit 2", "")` for `Student Edition Unit 2`. The code returns the whole text as the resource, because the lazy group runs to the end when there is no comma. The model follows the code (`Components.StudentEditionExample`).
- The page-reference deletion is one pass, as `re.sub` is: a reference that the deletion itself brings together stays in the text (`ppg 1g 2` gives `pg 2`, `Components.DeletionFormsReference`). The model does the same.
- The documentation of `classify_content_type` names an `Ambiguous` class. The code never returns it (`Dashboard.NeverAmbiguous`).
- Dashboard.SortGradeLevels: `unique()` is modelled as the list of levels in the order they appear. Repeated levels are harmless, because the second loop skips levels already listed.

## Findings

| source | as written | input that shows it | evidently intended | confidence | as-written member | corrected member |
|---|---|---|---|---|---|---|
| src/parser.py:363-377 | the `pre-algebra` pattern has no group, but `'algebra' in pattern` sends it to the algebra branch, whose `match.group(1)` raises `IndexError`; the HTML backend then loses the whole page, and the browser backend answers `Unknown Grade` | the page title `Pre-Algebra` | the `pre-algebra` branch gives `Pre-Algebra` | high; not executed | Grades.PreAlgebraTitle, Extraction.PreAlgebraPageLost | Grades.GradeFromStringsIntended, with Grades.IntendedGradeIsKnown and Grades.GradeAgrees |
| src/scraper.py:228 | the deduplicated records are written with the default mode `'w'`, which replaces the file, so every earlier record is lost, although an incremental update means to append | a file holding earlier records, and one new record from the next run | append with mode `'a'`, keeping the stored lines (src/scraper.py:267) | high; not executed | Scraper.ErrataScraper.RunIncrementalUpdate, Scraper.ErrataScraper.ProcessAndSaveData, Csv.OverwriteDropsStored | Scraper.ErrataScraper.RunIncrementalUpdateIntended, Scraper.ErrataScraper.ProcessAndSaveDataIntended, Csv.AppendKeepsStored |
| src/csv_writer.py:139-170 | every parser record has `Instructional_Moment == ''`, so the stored `Instructional_Moment` column is all empty cells, which `read_csv` reads back as missing values (a float column); merging the new text column against it either raises, and the handler returns every new record, or compares `''` with a missing value, which never matches; either way no record is ever recognised as a duplicate | any record written earlier and extracted again | compare the key columns as text, so that a record written earlier is found again | medium; not executed | Csv.DeduplicatedKeepsAll, Scraper.ExtractedNeverDeduplicated | Csv.CsvWriter.DeduplicateErrata, Csv.AppendThenDeduplicate |
