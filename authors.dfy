/** `format_authors`: the author field as a short list of names. */
module Authors {
  import opened Strings

  /** The default of `max_authors`, the only value the formatter is called with. */
  const DefaultMaxAuthors: nat := 3

  const AuthorSeparator := " and "

  /** The names of an author field, in order: line breaks become spaces, the
      field is cut at every `" and "`, and each part is trimmed. */
  function AuthorNames(field: string): (names: seq<string>)
    ensures names != []
    ensures forall k :: 0 <= k < |names| ==> '\n' !in names[k]
    ensures forall k :: 0 <= k < |names| ==>
      names[k] == [] || (!IsSpace(names[k][0]) && !IsSpace(names[k][|names[k]| - 1]))
  {
    var spaced := ReplaceChar(field, '\n', ' ');
    var parts := SplitOn(spaced, AuthorSeparator);
    AbsentFromParts(parts, AuthorSeparator, '\n');
    var names := seq(|parts|, k requires 0 <= k < |parts| => Trim(parts[k]));
    assert forall k :: 0 <= k < |names| ==> '\n' !in names[k] by {
      forall k | 0 <= k < |names| ensures '\n' !in names[k] {
        TrimKeepsAbsent(parts[k], '\n');
      }
    }
    names
  }

  /** Trimming never introduces a character. */
  lemma TrimKeepsAbsent(s: string, c: char)
    requires c !in s
    ensures c !in Trim(s)
  {
    var r := Trim(s);
    var k := LeadingSpaces(s);
    forall i | 0 <= i < |r| ensures r[i] != c {
      assert r[i] == s[k + i];
    }
  }

  /** `format_authors(author_field, max_authors)`: the first `maxAuthors`
      names joined by `", "`, followed by `", et al."` when some were dropped.
      The result is a single line. */
  function FormatAuthors(field: string, maxAuthors: nat): (r: string)
    ensures '\n' !in r
  {
    var names := AuthorNames(field);
    if |names| > maxAuthors then
      AbsentFromJoin(names[..maxAuthors], ", ", '\n');
      JoinWith(names[..maxAuthors], ", ") + ", et al."
    else
      AbsentFromJoin(names, ", ", '\n');
      JoinWith(names, ", ")
  }

  /** The names are the trimmed `" and "`-separated parts of the field once
      its line breaks are spaces: joining those parts back gives that text,
      and no part contains the separator. */
  lemma AuthorNamesSplit(field: string)
    ensures var parts := SplitOn(ReplaceChar(field, '\n', ' '), AuthorSeparator);
      |AuthorNames(field)| == |parts| &&
      JoinWith(parts, AuthorSeparator) == ReplaceChar(field, '\n', ' ') &&
      (forall k :: 0 <= k < |parts| ==> !Contains(parts[k], AuthorSeparator)) &&
      (forall k :: 0 <= k < |parts| ==> AuthorNames(field)[k] == Trim(parts[k]))
  {
    SplitPartsFree(ReplaceChar(field, '\n', ' '), AuthorSeparator);
  }

  /** The output is the list of shown names joined by `", "`: the first
      `maxAuthors` names followed by `"et al."` when some were dropped,
      otherwise every name. */
  lemma FormatAuthorsAsList(field: string, maxAuthors: nat)
    requires maxAuthors >= 1
    ensures var names := AuthorNames(field);
      FormatAuthors(field, maxAuthors) ==
        JoinWith(if |names| > maxAuthors then names[..maxAuthors] + ["et al."] else names, ", ")
  {
    var names := AuthorNames(field);
    if |names| > maxAuthors {
      var shown := names[..maxAuthors];
      JoinSnoc(shown, "et al.", ", ");
      MarkerSplit(JoinWith(shown, ", "));
    }
  }

  /** `", et al."` is the separator followed by the marker. A step of its own
      so that callers need not unfold the string literals. */
  lemma MarkerSplit(joined: string)
    ensures joined + ", et al." == joined + ", " + "et al."
  {
    assert ", " + "et al." == ", et al.";
  }

  /** Exactly min(n, maxAuthors) names are shown, in their original order,
      with `", et al."` marking the n > maxAuthors case: when no name holds a
      comma, cutting the output at `", "` gives back the shown names, plus
      `"et al."` exactly when names were dropped. */
  lemma FormatAuthorsShown(field: string, maxAuthors: nat)
    requires maxAuthors >= 1
    requires forall k :: 0 <= k < |AuthorNames(field)| ==> ',' !in AuthorNames(field)[k]
    ensures var names := AuthorNames(field);
      SplitOn(FormatAuthors(field, maxAuthors), ", ") ==
        if |names| > maxAuthors then names[..maxAuthors] + ["et al."] else names
  {
    var names := AuthorNames(field);
    var shown := if |names| > maxAuthors then names[..maxAuthors] + ["et al."] else names;
    FormatAuthorsAsList(field, maxAuthors);
    forall k | 0 <= k < |shown| ensures ',' !in shown[k] {
      if |names| > maxAuthors && k < maxAuthors {
        assert shown[k] == names[k];
      }
    }
    SplitJoin(shown, ", ");
  }

  /** The converse of "truncated lists end in `, et al.`" does not hold: an
      author field `X and et al.` has two names and is shown untruncated as
      `X, et al.`. */
  lemma EtAlWithoutTruncation(name: string)
    requires name != [] && forall i :: 0 <= i < |name| ==> !IsSpace(name[i])
    ensures AuthorNames(name + " and et al.") == [name, "et al."]
    ensures FormatAuthors(name + " and et al.", DefaultMaxAuthors) == name + ", et al."
  {
    var field := name + " and et al.";
    assert ReplaceChar(field, '\n', ' ') == field by {
      forall i | 0 <= i < |field| ensures field[i] != '\n' {
        if i >= |name| {
          assert field[i] == " and et al."[i - |name|];
        }
      }
    }
    assert SplitOn(field, AuthorSeparator) == [name, "et al."] by {
      ExampleSplit(name);
    }
    assert Trim(name) == name by {
      TrimUnchanged(name);
    }
    ExampleTrim();
    var names := AuthorNames(field);
    assert names == [name, "et al."];
    assert JoinWith(names, ", ") == name + ", " + "et al.";
    MarkerSplit(name);
  }

  lemma ExampleSplit(name: string)
    requires ' ' !in name
    ensures SplitOn(name + " and et al.", AuthorSeparator) == [name, "et al."]
  {
    NoStartInside(name, AuthorSeparator);
    SplitAfterFirst(name, "et al.", AuthorSeparator);
    ExampleTail();
    ExampleField(name);
  }

  /** Step of `ExampleSplit`: the example field is the name, the separator
      and the marker, kept apart so the split proof sees no literals. */
  lemma ExampleField(name: string)
    ensures name + AuthorSeparator + "et al." == name + " and et al."
  {
    assert AuthorSeparator + "et al." == " and et al.";
  }

  /** Step of `ExampleSplit`: the marker alone is not cut. */
  lemma ExampleTail()
    ensures SplitOn("et al.", AuthorSeparator) == ["et al."]
  {
    forall i | 0 <= i ensures !OccursAt("et al.", AuthorSeparator, i) {
      if i <= 1 {
        assert "et al."[i] != ' ';
      }
    }
    SplitNoOccurrence("et al.", AuthorSeparator);
  }

  /** Step of `EtAlWithoutTruncation`: the marker is already stripped. */
  lemma ExampleTrim()
    ensures Trim("et al.") == "et al."
  {
    TrimUnchanged("et al.");
  }
}
