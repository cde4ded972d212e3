/** The per-entry body of `parse_bibtex`: one parsed bibliography entry becomes
    a publication, a sortable year and the canonical citation text that the
    comparison uses as the publication's identity. */
module Entries {
  import opened Strings
  import opened Latex
  import opened Authors

  /** An entry as the BibTeX reader delivers it: field name to field value. */
  type Entry = map<string, string>

  /** A formatted publication: the year used for sorting and the citation text. */
  datatype Publication = Publication(year: nat, text: string)

  /** What `entry.get(key)` returns: the value, or `None` for a missing field. */
  datatype Lookup = Missing | Found(value: string)

  function Get(e: Entry, key: string): Lookup {
    if key in e then Found(e[key]) else Missing
  }

  /** `entry.get(key, default)`. */
  function GetOr(e: Entry, key: string, default: string): string {
    if key in e then e[key] else default
  }

  /** Python truthiness of a looked-up value: `None` and `""` are false. */
  predicate Truthy(v: Lookup) {
    v.Found? && v.value != ""
  }

  /** Python's `a or b`. */
  function Or(a: Lookup, b: Lookup): Lookup {
    if Truthy(a) then a else b
  }

  const NoVenue := "No venue listed"
  const NoTitle := "No title"
  const NoDate := "n.d."

  /** `entry.get('journal') or entry.get('booktitle') or 'No venue listed'`:
      a journal that is present and non-empty, else such a booktitle, else
      the placeholder. */
  function RawVenue(e: Entry): (v: string)
    ensures "journal" in e && e["journal"] != "" ==> v == e["journal"]
    ensures !("journal" in e && e["journal"] != "") && "booktitle" in e && e["booktitle"] != "" ==>
      v == e["booktitle"]
    ensures !("journal" in e && e["journal"] != "") && !("booktitle" in e && e["booktitle"] != "") ==>
      v == NoVenue
  {
    Or(Or(Get(e, "journal"), Get(e, "booktitle")), Found(NoVenue)).value
  }

  /** The year as written, `"n.d."` when the field is missing. */
  function YearText(e: Entry): (y: string)
    ensures "year" in e ==> y == e["year"]
    ensures "year" !in e ==> y == NoDate
  {
    GetOr(e, "year", NoDate)
  }

  /** `int(year) if year.isdigit() else 0`: a non-zero key comes only from a
      year written in digits, and such a year sorts by its decimal value. */
  function YearKey(year: string): (k: nat)
    ensures k != 0 ==> IsDigits(year)
    ensures IsDigits(year) ==> k == DigitsValue(year)
    ensures IsDigits(year) && (|year| == 1 || year[0] != '0') ==> Decimal(k) == year
  {
    if IsDigits(year) then
      if |year| == 1 || year[0] != '0' then
        DecimalOfDigitsValue(year);
        DigitsValue(year)
      else
        DigitsValue(year)
    else 0
  }

  /** One volume, number or pages item of the citation details, with the
      `", "` that precedes it; nothing for an empty field. */
  function Detail(tag: string, value: string): string {
    if value == "" then "" else ", " + tag + value
  }

  /** The citation-details suffix: `", vol. V"`, `", no. N"`, `", pp. P"` for
      the non-empty fields, in that order; empty exactly when all three are. */
  function CitationSuffix(volume: string, number: string, pages: string): (r: string)
    ensures r == "" <==> volume == "" && number == "" && pages == ""
  {
    Detail("vol. ", volume) + Detail("no. ", number) + Detail("pp. ", pages)
  }

  /** The suffix as the source builds it: append the present items to a list,
      join it with `", "`, and prefix `", "` when the result is not empty. */
  method BuildCitationSuffix(volume: string, number: string, pages: string) returns (citation: string)
    ensures citation == CitationSuffix(volume, number, pages)
  {
    var details: seq<string> := [];
    if volume != "" {
      details := details + ["vol. " + volume];
    }
    if number != "" {
      details := details + ["no. " + number];
    }
    if pages != "" {
      details := details + ["pp. " + pages];
    }
    citation := JoinWith(details, ", ");
    if citation != "" {
      citation := ", " + citation;
    }
    assert details == Item("vol. ", volume) + Item("no. ", number) + Item("pp. ", pages);
    JoinDetails(volume, number, pages);
  }

  /** Each item preceded by `", "`. */
  function Lead(items: seq<string>): string {
    if items == [] then "" else ", " + items[0] + Lead(items[1..])
  }

  lemma {:induction false} LeadAppend(a: seq<string>, b: seq<string>)
    ensures Lead(a + b) == Lead(a) + Lead(b)
    decreases |a|
  {
    if a == [] {
      assert a + b == b;
    } else {
      assert (a + b)[0] == a[0] && (a + b)[1..] == a[1..] + b;
      LeadAppend(a[1..], b);
      assert Lead(a + b) == ", " + a[0] + Lead(a[1..] + b);
    }
  }

  /** Prefixing `", "` to a non-empty join is the same as leading every item with it. */
  lemma {:induction false} LeadJoin(items: seq<string>)
    requires items != []
    ensures ", " + JoinWith(items, ", ") == Lead(items)
    decreases |items|
  {
    if |items| > 1 {
      LeadJoin(items[1..]);
    }
  }

  /** The list holding one present item, or nothing. */
  function Item(tag: string, value: string): seq<string> {
    if value != "" then [tag + value] else []
  }

  lemma LeadItem(tag: string, value: string)
    ensures Lead(Item(tag, value)) == Detail(tag, value)
  {
    if value != "" {
      assert Item(tag, value)[1..] == [];
    }
  }

  /** The joined list of present items, prefixed by `", "` unless empty, is the
      concatenation of the individual details. */
  lemma JoinDetails(volume: string, number: string, pages: string)
    ensures var details := Item("vol. ", volume) + Item("no. ", number) + Item("pp. ", pages);
      var joined := JoinWith(details, ", ");
      (if joined != "" then ", " + joined else joined) == CitationSuffix(volume, number, pages)
  {
    var v, n, p := Item("vol. ", volume), Item("no. ", number), Item("pp. ", pages);
    var details := v + n + p;
    LeadAppend(v + n, p);
    LeadAppend(v, n);
    LeadItem("vol. ", volume);
    LeadItem("no. ", number);
    LeadItem("pp. ", pages);
    assert Lead(details) == CitationSuffix(volume, number, pages);
    if details != [] {
      LeadJoin(details);
      JoinHeadPrefix(details, ", ");
      assert details[0] in v + n + p;
      assert details[0] != "";
    }
  }

  /** The canonical text, `{authors}: "\textit{{{title}}}." \textit{{{journal}}}, {year}{citation_str}`. */
  function CitationText(authors: string, title: string, venue: string, year: string, details: string): (t: string)
    ensures StartsWith(t, authors)
    ensures EndsWith(t, year + details)
  {
    var t := authors + ": \"\\textit{" + title + "}.\" \\textit{" + venue + "}, " + year + details;
    assert t == authors + (": \"\\textit{" + title + "}.\" \\textit{" + venue + "}, ") + (year + details);
    t
  }

  /** The publication one entry becomes: its text opens with the shown
      authors and closes with the year as written and the details; its sort
      key is the value of a year written in digits, and 0 for any other. */
  function FormatEntry(e: Entry): (p: Publication)
    ensures StartsWith(p.text, FormatAuthors(GetOr(e, "author", ""), DefaultMaxAuthors))
    ensures EndsWith(p.text, YearText(e) + CitationSuffix(GetOr(e, "volume", ""), GetOr(e, "number", ""), GetOr(e, "pages", "")))
    ensures p.year != 0 ==> "year" in e && IsDigits(e["year"]) && p.year == DigitsValue(e["year"])
    ensures "year" in e && IsDigits(e["year"]) ==> p.year == DigitsValue(e["year"])
  {
    var authors := FormatAuthors(GetOr(e, "author", ""), DefaultMaxAuthors);
    var title := CleanLatex(GetOr(e, "title", NoTitle));
    var venue := CleanLatex(RawVenue(e));
    var year := YearText(e);
    var details := CitationSuffix(GetOr(e, "volume", ""), GetOr(e, "number", ""), GetOr(e, "pages", ""));
    Publication(YearKey(year), CitationText(authors, title, venue, year, details))
  }

  /** A year written as a decimal numeral sorts by its value. */
  lemma YearKeyOfDecimal(n: nat)
    ensures YearKey(Decimal(n)) == n
  {
    DigitsValueOfDecimal(n);
  }

  /** A missing year is shown as `n.d.` and sorts as 0; so does any year
      that is empty or not made of digits only. */
  lemma YearKeyNotDigits(e: Entry)
    ensures "year" !in e ==> YearText(e) == NoDate && FormatEntry(e).year == 0
    ensures (exists i :: 0 <= i < |YearText(e)| && !IsDigit(YearText(e)[i])) ==> FormatEntry(e).year == 0
    ensures YearText(e) == "" ==> FormatEntry(e).year == 0
  {
    assert !IsDigit(NoDate[1]);
  }

  /** Volume, number and pages all present. */
  lemma SuffixExampleFull()
    ensures CitationSuffix("12", "3", "45-50") == ", vol. 12, no. 3, pp. 45-50"
  {
    assert Detail("vol. ", "12") == ", vol. 12";
    assert Detail("no. ", "3") == ", no. 3";
    assert Detail("pp. ", "45-50") == ", pp. 45-50";
  }

  /** Only the pages present. */
  lemma SuffixExamplePages()
    ensures CitationSuffix("", "", "10-20") == ", pp. 10-20"
  {
    assert Detail("vol. ", "") == "" && Detail("no. ", "") == "";
    assert Detail("pp. ", "10-20") == ", pp. 10-20";
  }

  /** Two texts joined at a closing brace that neither contains are split
      back at that brace. */
  lemma SplitAtBrace(x1: string, r1: string, x2: string, r2: string)
    requires '}' !in x1 && '}' !in x2
    requires x1 + "}" + r1 == x2 + "}" + r2
    ensures x1 == x2 && r1 == r2
  {
    var s := x1 + "}" + r1;
    if |x1| < |x2| {
      BraceAfter(x1, r1);
      assert false;
    } else if |x2| < |x1| {
      BraceAfter(x2, r2);
      assert false;
    }
    assert x1 == s[..|x1|] && r1 == s[|x1| + 1..];
  }

  /** Step of `SplitAtBrace`: the brace sits right after `x`. Proved apart so
      that the case split there stays small. */
  lemma BraceAfter(x: string, r: string)
    ensures (x + "}" + r)[|x|] == '}'
  {
  }

  /** The canonical text cut at the two closing braces it always contains. */
  lemma TemplateShape(authors: string, title: string, venue: string, tail: string)
    ensures CitationText(authors, title, venue, tail, "") ==
      (authors + ": \"\\textit{") + (title + "}" + (".\" \\textit{" + (venue + "}" + (", " + tail))))
  {
    assert "}.\" \\textit{" == "}" + ".\" \\textit{";
    assert "}, " == "}" + ", ";
  }

  /** With the author list fixed, the canonical text determines the title, the
      venue and the year-and-details tail, because the cleaned title and venue
      never contain a closing brace. */
  lemma CitationTextInjective(authors: string,
      title1: string, venue1: string, tail1: string,
      title2: string, venue2: string, tail2: string)
    requires '}' !in title1 && '}' !in venue1 && '}' !in title2 && '}' !in venue2
    requires CitationText(authors, title1, venue1, tail1, "") == CitationText(authors, title2, venue2, tail2, "")
    ensures title1 == title2 && venue1 == venue2 && tail1 == tail2
  {
    var head := authors + ": \"\\textit{";
    var mid := ".\" \\textit{";
    var u1, u2 := venue1 + "}" + (", " + tail1), venue2 + "}" + (", " + tail2);
    var t1, t2 := title1 + "}" + (mid + u1), title2 + "}" + (mid + u2);
    TemplateShape(authors, title1, venue1, tail1);
    TemplateShape(authors, title2, venue2, tail2);
    PrefixCancel(head, t1, t2);
    SplitAtBrace(title1, mid + u1, title2, mid + u2);
    PrefixCancel(mid, u1, u2);
    SplitAtBrace(venue1, ", " + tail1, venue2, ", " + tail2);
    PrefixCancel(", ", tail1, tail2);
  }

  /** A common prefix cancels. */
  lemma PrefixCancel(p: string, a: string, b: string)
    requires p + a == p + b
    ensures a == b
  {
    assert a == (p + a)[|p|..];
  }

  /** Step of `SameTextSameFields`: the details may be read as part of the
      year's tail; kept apart so that the template is unfolded only here. */
  lemma TemplateTail(authors: string, title: string, venue: string, year: string, details: string)
    ensures CitationText(authors, title, venue, year, details) == CitationText(authors, title, venue, year + details, "")
  {
  }

  /** Two entries with the same author field get the same canonical text only
      if their cleaned titles, cleaned venues, year texts and details agree. */
  lemma SameTextSameFields(e1: Entry, e2: Entry)
    requires GetOr(e1, "author", "") == GetOr(e2, "author", "")
    requires FormatEntry(e1).text == FormatEntry(e2).text
    ensures CleanLatex(GetOr(e1, "title", NoTitle)) == CleanLatex(GetOr(e2, "title", NoTitle))
    ensures CleanLatex(RawVenue(e1)) == CleanLatex(RawVenue(e2))
    ensures YearText(e1) + CitationSuffix(GetOr(e1, "volume", ""), GetOr(e1, "number", ""), GetOr(e1, "pages", ""))
         == YearText(e2) + CitationSuffix(GetOr(e2, "volume", ""), GetOr(e2, "number", ""), GetOr(e2, "pages", ""))
  {
    var authors := FormatAuthors(GetOr(e1, "author", ""), DefaultMaxAuthors);
    var title1, title2 := CleanLatex(GetOr(e1, "title", NoTitle)), CleanLatex(GetOr(e2, "title", NoTitle));
    var venue1, venue2 := CleanLatex(RawVenue(e1)), CleanLatex(RawVenue(e2));
    var year1, year2 := YearText(e1), YearText(e2);
    var details1 := CitationSuffix(GetOr(e1, "volume", ""), GetOr(e1, "number", ""), GetOr(e1, "pages", ""));
    var details2 := CitationSuffix(GetOr(e2, "volume", ""), GetOr(e2, "number", ""), GetOr(e2, "pages", ""));
    assert FormatEntry(e1).text == CitationText(authors, title1, venue1, year1, details1);
    assert FormatEntry(e2).text == CitationText(authors, title2, venue2, year2, details2);
    TemplateTail(authors, title1, venue1, year1, details1);
    TemplateTail(authors, title2, venue2, year2, details2);
    CitationTextInjective(authors, title1, venue1, year1 + details1, title2, venue2, year2 + details2);
  }
}
