/** The pipeline of `compare.py`: format every entry of a file, order the
    publications latest first, and compare two such lists as sets of texts. */
module Compare {
  import opened Entries
  import opened Ordering

  /** `[f(x) for x in xs]`. */
  function Map<T, U>(f: T -> U, xs: seq<T>): (ys: seq<U>)
    ensures |ys| == |xs|
    ensures forall k :: 0 <= k < |xs| ==> ys[k] == f(xs[k])
  {
    seq(|xs|, k requires 0 <= k < |xs| => f(xs[k]))
  }

  /** Mapping one more element appends its image. */
  lemma MapSnoc<T, U>(f: T -> U, xs: seq<T>, i: nat)
    requires i < |xs|
    ensures Map(f, xs[..i + 1]) == Map(f, xs[..i]) + [f(xs[i])]
  {
    var a, b := Map(f, xs[..i + 1]), Map(f, xs[..i]) + [f(xs[i])];
    forall k | 0 <= k < |a| ensures a[k] == b[k] {
      if k < i {
        assert xs[..i + 1][k] == xs[..i][k];
      }
    }
  }

  /** Every entry formatted, in file order. */
  function FormatAll(entries: seq<Entry>): (pubs: seq<Publication>)
    ensures |pubs| == |entries|
    ensures forall k :: 0 <= k < |entries| ==> pubs[k] == FormatEntry(entries[k])
  {
    Map(FormatEntry, entries)
  }

  /** `[pub['text'] for pub in publications]`. */
  function Texts(pubs: seq<Publication>): (texts: seq<string>)
    ensures |texts| == |pubs|
    ensures forall k :: 0 <= k < |pubs| ==> texts[k] == pubs[k].text
  {
    seq(|pubs|, k requires 0 <= k < |pubs| => pubs[k].text)
  }

  /** `parse_bibtex` after the file has been read: the loop formats each entry
      and appends it, the list is sorted latest first, and the texts are
      returned. The result has one text per entry, is a permutation of the
      entries' texts, and lists them in the one order that is non-increasing in
      year and keeps each year's entries in file order. */
  method ParseEntries(entries: seq<Entry>) returns (texts: seq<string>)
    ensures texts == Texts(SortByYearDesc(FormatAll(entries)))
    ensures |texts| == |entries|
    ensures multiset(texts) == multiset(Texts(FormatAll(entries)))
  {
    var publications: seq<Publication> := [];
    var i := 0;
    while i < |entries|
      invariant 0 <= i <= |entries|
      invariant publications == Map(FormatEntry, entries[..i])
    {
      var entry := entries[i];
      var authors := Authors.FormatAuthors(GetOr(entry, "author", ""), Authors.DefaultMaxAuthors);
      var title := Latex.CleanLatex(GetOr(entry, "title", NoTitle));
      var journal := Latex.CleanLatex(RawVenue(entry));
      var volume := GetOr(entry, "volume", "");
      var number := GetOr(entry, "number", "");
      var pages := GetOr(entry, "pages", "");
      var year := GetOr(entry, "year", NoDate);
      var yearInt := if Strings.IsDigits(year) then Strings.DigitsValue(year) else 0;
      var citation := BuildCitationSuffix(volume, number, pages);
      var pub := Publication(yearInt, CitationText(authors, title, journal, year, citation));
      assert pub == FormatEntry(entry);
      MapSnoc(FormatEntry, entries, i);
      publications := publications + [pub];
      i := i + 1;
    }
    assert entries[..i] == entries;
    var formatted := publications;
    publications := SortByYearDesc(publications);
    texts := Texts(publications);
    TextsSort(formatted);
  }

  lemma TextsCons(p: Publication, s: seq<Publication>)
    ensures Texts([p] + s) == [p.text] + Texts(s)
  {
  }

  /** Inserting a publication adds its text. */
  lemma {:induction false} TextsInsert(p: Publication, s: seq<Publication>)
    ensures multiset(Texts(InsertByYear(p, s))) == multiset(Texts(s)) + multiset{p.text}
    decreases |s|
  {
    if s == [] || s[0].year <= p.year {
      TextsCons(p, s);
    } else {
      TextsInsert(p, s[1..]);
      TextsCons(s[0], InsertByYear(p, s[1..]));
      TextsCons(s[0], s[1..]);
      assert [s[0]] + s[1..] == s;
    }
  }

  /** Sorting permutes the texts. */
  lemma {:induction false} TextsSort(s: seq<Publication>)
    ensures multiset(Texts(SortByYearDesc(s))) == multiset(Texts(s))
    decreases |s|
  {
    if s != [] {
      TextsSort(s[1..]);
      TextsInsert(s[0], SortByYearDesc(s[1..]));
      TextsCons(s[0], s[1..]);
      assert [s[0]] + s[1..] == s;
    }
  }

  /** The three sets the comparison reports on. */
  datatype Comparison = Comparison(onlyFirst: set<string>, onlySecond: set<string>, notInCommon: set<string>)

  /** `set1, set2 = set(publications1), set(publications2)` followed by
      `diff1 = set1 - set2`, `diff2 = set2 - set1` and `not_in_common = diff1 | diff2`.
      A text is in the first difference exactly when the first list has it and
      the second does not, and in their union exactly when one list has it and
      the other does not. */
  function Differences(pubs1: seq<string>, pubs2: seq<string>): (c: Comparison)
    ensures forall x :: x in c.onlyFirst <==> x in pubs1 && x !in pubs2
    ensures forall x :: x in c.onlySecond <==> x in pubs2 && x !in pubs1
    ensures forall x :: x in c.notInCommon <==> (x in pubs1) != (x in pubs2)
  {
    var set1, set2 := set x | x in pubs1, set x | x in pubs2;
    var diff1, diff2 := set1 - set2, set2 - set1;
    Comparison(diff1, diff2, diff1 + diff2)
  }

  /** The two differences share no text, their union is the symmetric
      difference of the two lists, and a text both lists hold is reported in
      neither half. */
  lemma DifferencesPartition(pubs1: seq<string>, pubs2: seq<string>)
    ensures var c := Differences(pubs1, pubs2);
      c.onlyFirst * c.onlySecond == {} &&
      c.notInCommon == c.onlyFirst + c.onlySecond &&
      forall x :: x in pubs1 && x in pubs2 ==> x !in c.onlyFirst && x !in c.onlySecond
  {
  }

  /** Two lists that hold the same texts, whatever their order and repetitions,
      compare the same way. */
  lemma DifferencesIgnoreOrder(pubs1: seq<string>, pubs2: seq<string>, other1: seq<string>, other2: seq<string>)
    requires forall x :: x in pubs1 <==> x in other1
    requires forall x :: x in pubs2 <==> x in other2
    ensures Differences(pubs1, pubs2) == Differences(other1, other2)
  {
  }

  /** File A holding X and Y against file B holding Y and Z: only X and only Z. */
  lemma DifferencesExample(x: string, y: string, z: string)
    requires x != y && y != z && x != z
    ensures Differences([x, y], [y, z]) == Comparison({x}, {z}, {x, z})
  {
    var c := Differences([x, y], [y, z]);
    assert c.onlyFirst == {x};
    assert c.onlySecond == {z};
    assert c.notInCommon == {x, z};
  }

  /** One report block: the loop over a difference set in Python's iteration
      order, which is unspecified (here any order), numbering from `count = 1`.
      Every text of the set is listed exactly once, numbered 1 to its size. */
  method NumberReport(diff: set<string>) returns (lines: seq<(nat, string)>)
    ensures |lines| == |diff|
    ensures forall k :: 0 <= k < |lines| ==> lines[k].0 == k + 1 && lines[k].1 in diff
    ensures forall x :: x in diff ==> exists k :: 0 <= k < |lines| && lines[k].1 == x
    ensures forall j, k :: 0 <= j < k < |lines| ==> lines[j].1 != lines[k].1
  {
    var remaining := diff;
    var count := 1;
    lines := [];
    while remaining != {}
      invariant remaining <= diff
      invariant count == |lines| + 1
      invariant |lines| + |remaining| == |diff|
      invariant forall k :: 0 <= k < |lines| ==> lines[k].0 == k + 1 && lines[k].1 in diff && lines[k].1 !in remaining
      invariant forall x :: x in diff && x !in remaining ==> exists k :: 0 <= k < |lines| && lines[k].1 == x
      invariant forall j, k :: 0 <= j < k < |lines| ==> lines[j].1 != lines[k].1
      decreases |remaining|
    {
      var pub :| pub in remaining;
      ghost var before, left := lines, remaining;
      lines := lines + [(count, pub)];
      count := count + 1;
      remaining := remaining - {pub};
      forall x | x in diff && x !in remaining ensures exists k :: 0 <= k < |lines| && lines[k].1 == x {
        if x == pub {
          assert lines[|lines| - 1].1 == x;
        } else {
          assert x !in left;
          var k :| 0 <= k < |before| && before[k].1 == x;
          assert lines[k].1 == x;
        }
      }
    }
  }
}
