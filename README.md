# compare_bibs in Dafny

A model of the formatting and comparison core of `compare.py`. The script reads
two BibTeX files, turns every entry into one canonical citation text, sorts
each list latest first, and reports the texts found in one file but not the
other.

The model takes the entries the BibTeX reader would deliver: a sequence of
maps from field name to field value. From there it follows the script.

- `Strings` holds the Python string primitives the script uses, restricted to
  ASCII: `str.strip`, `str.split` with a separator, `str.join`,
  `str.replace`, `str.isdigit` and `int`.
- `Latex` holds `JOURNAL_NAME_MAP` and `clean_latex_commands`. The regular
  expression `\\[a-zA-Z]+` is modelled as a left-to-right scanner with longest
  match (`Tokenize`), followed by a renderer that replaces each known journal
  macro once. Replaced text is never scanned again, as with `re.sub`.
- `Authors` holds `format_authors`.
- `Entries` holds the per-entry body of `parse_bibtex`:
  - the `get`-with-default lookups;
  - the `journal or booktitle or 'No venue listed'` chain, with Python's
    truthiness (a missing field and an empty string are both false);
  - the year text and its integer sort key;
  - the suffix builder `BuildCitationSuffix`, imperative like the source;
  - the text template.
- `Ordering` specifies `publications.sort(key=year, reverse=True)` as a stable
  insertion sort on sequences. It proves the sort sorted, a permutation and
  stable, and proves that only one order has those properties.
- `Compare` holds three parts:
  - the `parse_bibtex` loop as a method (`ParseEntries`);
  - the set differences of the main block;
  - the numbering loop of a report block (`NumberReport`). It takes the
    elements of a set in an arbitrary order, since Python's set iteration
    order is unspecified.

Where the code and its written description differ, the model follows the code:

- The venue falls back to the booktitle also when the journal field is present
  but empty, because the code uses `or`.
- Publications of the same year keep their file order, because `list.sort` is
  stable.
- The order in which a report lists its texts can change from run to run,
  because it iterates over a `set` of strings.

## Model

| member | source | states |
|---|---|---|
| Strings.Trim | compare.py:25 | `strip()` returns the contiguous slice of the text that starts after its leading whitespace; the slice neither starts nor ends with whitespace, and only whitespace lies outside it |
| Strings.TrimUnchanged | compare.py:25 | a text that neither starts nor ends with whitespace is returned unchanged by `strip()` |
| Strings.TrimIdempotent | compare.py:25 | stripping an already stripped text changes nothing |
| Strings.ReplaceChar | compare.py:30 | `replace('\n', ' ')` keeps the length, turns every line break into a space, keeps every other character in place, and leaves no line break behind |
| Strings.ReplaceCharInverse | compare.py:30 | replacing a character the text lacks changes nothing, and replacing back undoes a replacement whose target character the text lacked |
| Strings.SplitOn | compare.py:30 | `split(' and ')` gives at least one part, and joining the parts with the separator gives the text back |
| Strings.SplitLeftmost | compare.py:30 | every cut of `split` is the leftmost one: no occurrence of the separator starts inside a part that a cut follows |
| Strings.SplitCharacterized | compare.py:30 | `split` is the only cutting with its properties: parts that join back to the text, each cut leftmost and the last part free of the separator, are exactly the parts `split` returns |
| Strings.SplitPartsFree | compare.py:30 | no part of a split contains the separator |
| Strings.SplitWithoutSeparator | compare.py:30 | a text that lacks the separator's first character splits into itself alone |
| Strings.SplitNoOccurrence | compare.py:30 | a text with no occurrence of the separator splits into itself alone |
| Strings.SplitAfterFirst | compare.py:30 | when no occurrence of the separator starts inside the text before a separator, the split cuts there first: that text, then the split of the rest |
| Strings.NoStartInside | compare.py:30 | a text without the separator's first character cannot hold the start of an occurrence, so the cut after it is the leftmost |
| Strings.JoinSnoc | compare.py:32-33 | `', '.join` of a list with one more name is the old join, the separator and that name |
| Strings.JoinHeadPrefix | compare.py:32-33 | the joined text starts with the first part |
| Strings.SplitJoin | compare.py:30-33 | splitting a `join` gives the parts back when no part holds the separator's first character |
| Strings.DigitsValueOfDecimal | compare.py:49 | `int` of the decimal digits of a number is that number |
| Strings.DecimalOfDigitsValue | compare.py:49 | conversely, a text that passes `isdigit` and has no leading zero is the decimal numeral of its `int` value |
| Strings.Decimal | compare.py:49 | the decimal numeral of a number passes `isdigit` |
| Latex.Tokenize | compare.py:26 | the scanner's tokens spell the text back, and every token is a maximal backslash-letters command or a single character |
| Latex.TokenizeUnique | compare.py:26 | longest match leaves only one reading: any well-formed token sequence is what the scanner produces from its spelling |
| Latex.JournalKeysAreCommands | compare.py:10-22 | every key of `JOURNAL_NAME_MAP` is a backslash followed by letters, so the pattern can match it whole |
| Latex.ReplaceCommands | compare.py:26 | a journal macro on its own becomes its name, and a text without a backslash is unchanged |
| Latex.TokenizeCommand | compare.py:26 | a lone backslash-letters command is matched as one whole command |
| Latex.NoBackslashNoCommand | compare.py:26 | a text without a backslash holds no match of the pattern |
| Latex.ReplaceByTokens | compare.py:26 | the substitution acts token by token: a command that is a key of the journal table (compare.py:10-22) becomes its name, any other command stays byte for byte, backslash included |
| Latex.ReplaceUnknown | compare.py:26 | a text with no known journal macro is unchanged by the substitution |
| Latex.GreedyKnown | compare.py:26 | `\apjl` is one macro and becomes "Astrophysical Journal Letters" |
| Latex.GreedyUnknown | compare.py:26 | `\apjx` is kept whole although it starts with the known `\apj` |
| Latex.StripBraces | compare.py:27 | the result holds only non-brace characters, every non-brace character of the input occurs in it, and it equals the input exactly when the input has no brace |
| Latex.StripBracesAppend | compare.py:27 | brace deletion acts on each part of a text separately |
| Latex.CleanLatex | compare.py:23-28 | the cleaned text holds no `{` and no `}` |
| Latex.CleanExample | compare.py:23-28 | ` {\nat} ` cleans to "Nature" |
| Authors.AuthorNames | compare.py:30 | there is at least one name, no name holds a line break, and no name starts or ends with whitespace |
| Authors.AuthorNamesSplit | compare.py:30 | the names are, in order, the trimmed `" and "`-separated parts of the field with its line breaks made spaces |
| Authors.FormatAuthors | compare.py:29-33 | the shown author list is one line |
| Authors.FormatAuthorsAsList | compare.py:31-33 | the output is the first `max_authors` names followed by "et al." when there were more, else all names, joined by `", "` |
| Authors.FormatAuthorsShown | compare.py:29-33 | cutting the output at `", "` gives exactly min(n, max_authors) names in their order, followed by "et al." exactly when n > max_authors |
| Authors.EtAlWithoutTruncation | compare.py:30-33 | an author field `X and et al.` has two names and is shown untruncated as `X, et al.`, so the output can end in `, et al.` with n <= 3 |
| Entries.RawVenue | compare.py:43 | the venue is the journal when present and non-empty, else the booktitle when present and non-empty, else exactly "No venue listed" |
| Entries.YearText | compare.py:48 | the year is the field's value when present, else "n.d." |
| Entries.YearKey | compare.py:49 | the key is non-zero only for a year that passes `isdigit`, is then the year's `int` value, and writes back as that year when it has no leading zero |
| Entries.YearKeyOfDecimal | compare.py:48-49 | a year written as decimal digits sorts by its value |
| Entries.YearKeyNotDigits | compare.py:48-49 | a missing year is written "n.d." in the text and sorts as 0; an empty year or one with a non-digit sorts as 0 |
| Entries.CitationSuffix | compare.py:51-60 | the suffix is empty exactly when volume, number and pages are all empty |
| Entries.BuildCitationSuffix | compare.py:51-60 | the list-append, join and prefix steps give `", vol. V"`, `", no. N"`, `", pp. P"` for the non-empty fields, in that order |
| Entries.JoinDetails | compare.py:58-60 | joining the present items and prefixing `", "` when non-empty is the same as leading each present item with `", "` |
| Entries.SuffixExampleFull | compare.py:51-60 | volume 12, number 3, pages 45-50 give ", vol. 12, no. 3, pp. 45-50" |
| Entries.SuffixExamplePages | compare.py:51-60 | pages alone give ", pp. 10-20" |
| Entries.CitationText | compare.py:63 | the text starts with the author list and ends with the year followed by the details |
| Entries.FormatEntry | compare.py:41-64 | the publication's text starts with the shown authors of the entry and ends with its year text and details; its sort key is the `int` value of the entry's year when that year is written in digits, and 0 otherwise |
| Entries.CitationTextInjective | compare.py:63 | with the authors fixed, the text template determines a brace-free title, a brace-free venue and the year-and-details tail |
| Entries.SameTextSameFields | compare.py:41-63 | two entries with the same author field and the same text have the same cleaned title, cleaned venue, and year followed by details |
| Ordering.InsertByYear | compare.py:67 | inserting one publication adds exactly it |
| Ordering.InsertSorted | compare.py:67 | insertion keeps a list non-increasing in year |
| Ordering.SortByYearDesc | compare.py:67 | the sorted list is a permutation of the input and non-increasing in year |
| Ordering.SortStable | compare.py:67 | within each year, the sorted list keeps the input order |
| Ordering.SortUnique | compare.py:67 | any list that is non-increasing in year and keeps each year's input order is the sorted list |
| Compare.FormatAll | compare.py:40-65 | the loop produces one publication per entry, in file order |
| Compare.Texts | compare.py:68 | the projection keeps one text per publication, in order |
| Compare.ParseEntries | compare.py:39-68 | the loop, sort and projection return the texts of the sorted formatted entries: one per entry, and a permutation of them |
| Compare.TextsSort | compare.py:67-68 | sorting permutes the texts |
| Compare.Differences | compare.py:78-85 | a text is in `diff1` exactly when the first list has it and the second does not, in `diff2` symmetrically, and in `not_in_common` exactly when one list has it and the other does not |
| Compare.DifferencesPartition | compare.py:81-85 | the two differences are disjoint, their union is `not_in_common`, and a text both lists hold is in neither |
| Compare.DifferencesIgnoreOrder | compare.py:78 | the comparison depends only on which texts the lists hold, not on order or repetition |
| Compare.DifferencesExample | compare.py:78-85 | lists {X, Y} and {Y, Z} give only-first {X}, only-second {Z}, not-in-common {X, Z} |
| Compare.NumberReport | compare.py:90-94 | every text of a difference is listed exactly once, numbered 1 to its size; the second report block, compare.py:99-103, is the same loop |

## Left out

- Reading the files and the fixed file names (compare.py:35, compare.py:72-73) are I/O. The model starts from the parsed entries.
- `bibtexparser.load`, `BibTexParser` and `convert_to_unicode` (compare.py:36-38) are a foreign library. The model takes a sequence of field maps instead, with any Unicode conversion already done.
- The `print` calls and the text they write (compare.py:87-105) are console output. `NumberReport` keeps only the numbering and the texts.
- Strings.Trim: whitespace is the ASCII set of Python's `str.isspace`. Non-ASCII whitespace that Python also strips, such as U+00A0, is not modelled.
- Entries.YearKeyOfDecimal: digits are `0` to `9` only. Python's `isdigit` also accepts other Unicode digits, for example superscripts that `int` then rejects; that path is not modelled.
- Latex.Tokenize: Python's regular-expression engine is replaced by the scanner. Letters are ASCII `a-z` and `A-Z`, as in the pattern.
- Authors.FormatAuthors: `max_authors` is a natural number. A negative value is not modelled; the script only uses the default 3.
- Authors.FormatAuthorsShown: the statement holds only when no name contains a comma, because a name with a comma is cut apart by the `", "` split. The converse "ends with `, et al.` implies n > 3" does not hold, as Authors.EtAlWithoutTruncation shows.
- Ordering.SortByYearDesc: the in-place sort is modelled on sequences, as a value, and it is the only order with its properties (Ordering.SortUnique).
- Compare.NumberReport: the set's iteration order is left open. The model does not state any particular order.
