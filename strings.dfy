/** Python string primitives the formatter relies on: `str.strip`, `str.split`,
    `str.join`, `str.replace`, `str.isdigit` and `int`, restricted to ASCII. */
module Strings {

  /** The ASCII characters for which Python's `str.isspace` holds:
      tab, line feed, vertical tab, form feed, carriage return,
      the four information separators and the space. */
  predicate IsSpace(c: char) {
    c == ' ' || (9 <= c as int <= 13) || (28 <= c as int <= 31)
  }

  /** Number of whitespace characters at the start of `s`. */
  function LeadingSpaces(s: string): (n: nat)
    ensures n <= |s|
    ensures forall i :: 0 <= i < n ==> IsSpace(s[i])
    ensures n == |s| || !IsSpace(s[n])
  {
    if s != [] && IsSpace(s[0]) then 1 + LeadingSpaces(s[1..]) else 0
  }

  /** Number of whitespace characters at the end of `s`. */
  function TrailingSpaces(s: string): (n: nat)
    ensures n <= |s|
    ensures forall i :: |s| - n <= i < |s| ==> IsSpace(s[i])
    ensures n == |s| || !IsSpace(s[|s| - 1 - n])
  {
    if s != [] && IsSpace(s[|s| - 1]) then
      var m := TrailingSpaces(s[..|s| - 1]);
      assert m == |s| - 1 || s[..|s| - 1][|s| - 2 - m] == s[|s| - 1 - (m + 1)];
      1 + m
    else 0
  }

  /** Python's `s.strip()`: leading whitespace is dropped, then trailing
      whitespace. The result is the contiguous slice of `s` starting after its
      leading whitespace, neither starting nor ending with whitespace, with
      only whitespace left outside it. */
  function Trim(s: string): (r: string)
    ensures |r| <= |s|
    ensures var k := LeadingSpaces(s); k + |r| <= |s| && r == s[k..k + |r|]
    ensures var k := LeadingSpaces(s);
      forall i :: 0 <= i < |s| && !(k <= i < k + |r|) ==> IsSpace(s[i])
    ensures r == [] || (!IsSpace(r[0]) && !IsSpace(r[|r| - 1]))
  {
    var k := LeadingSpaces(s);
    var m := TrailingSpaces(s[k..]);
    assert forall i :: |s| - m <= i < |s| ==> s[i] == s[k..][i - k];
    assert m == |s| - k || s[|s| - 1 - m] == s[k..][|s| - k - 1 - m];
    s[k..|s| - m]
  }

  /** A text that neither starts nor ends with whitespace is its own strip. */
  lemma TrimUnchanged(s: string)
    requires s == [] || (!IsSpace(s[0]) && !IsSpace(s[|s| - 1]))
    ensures Trim(s) == s
  {
    assert LeadingSpaces(s) == 0;
    assert s[0..] == s;
    assert TrailingSpaces(s) == 0;
  }

  /** Stripping twice strips no more than once. */
  lemma TrimIdempotent(s: string)
    ensures Trim(Trim(s)) == Trim(s)
  {
    TrimUnchanged(Trim(s));
  }

  /** `s.startswith(p)`. */
  predicate StartsWith(s: string, p: string) {
    |p| <= |s| && s[..|p|] == p
  }

  /** `s.endswith(p)`. */
  predicate EndsWith(s: string, p: string) {
    |p| <= |s| && s[|s| - |p|..] == p
  }

  /** Python's `sep.join(parts)`. */
  function JoinWith(parts: seq<string>, sep: string): string {
    if |parts| == 0 then ""
    else if |parts| == 1 then parts[0]
    else parts[0] + sep + JoinWith(parts[1..], sep)
  }

  /** `sep` occurs in `s` starting at index `i`. */
  predicate OccursAt(s: string, sep: string, i: int) {
    0 <= i && i + |sep| <= |s| && s[i..i + |sep|] == sep
  }

  ghost predicate Contains(s: string, sep: string) {
    exists i :: OccursAt(s, sep, i)
  }

  /** Python's `s.split(sep)` for a non-empty separator: cut at every
      occurrence of `sep`, searching left to right and resuming after each cut.
      Joining the parts with `sep` gives `s` back. */
  function SplitOn(s: string, sep: string): (parts: seq<string>)
    requires sep != []
    ensures parts != []
    ensures JoinWith(parts, sep) == s
    decreases |s|
  {
    if |s| < |sep| then [s]
    else if s[..|sep|] == sep then [""] + SplitOn(s[|sep|..], sep)
    else
      var rest := SplitOn(s[1..], sep);
      JoinConsHead(s[0], rest, sep);
      [[s[0]] + rest[0]] + rest[1..]
  }

  lemma JoinConsHead(c: char, parts: seq<string>, sep: string)
    requires parts != []
    ensures JoinWith([[c] + parts[0]] + parts[1..], sep) == [c] + JoinWith(parts, sep)
  {
    var ps := [[c] + parts[0]] + parts[1..];
    assert ps[1..] == parts[1..];
  }

  /** The first part is a prefix of the joined text. */
  lemma {:induction false} JoinHeadPrefix(parts: seq<string>, sep: string)
    requires parts != []
    ensures |parts[0]| <= |JoinWith(parts, sep)|
    ensures JoinWith(parts, sep)[..|parts[0]|] == parts[0]
  {
  }

  /** No part produced by `SplitOn` contains the separator. */
  lemma {:induction false} SplitPartsFree(s: string, sep: string)
    requires sep != []
    ensures forall k :: 0 <= k < |SplitOn(s, sep)| ==> !Contains(SplitOn(s, sep)[k], sep)
    decreases |s|
  {
    var parts := SplitOn(s, sep);
    if |s| < |sep| {
      forall i | OccursAt(s, sep, i) ensures false { }
    } else if s[..|sep|] == sep {
      SplitPartsFree(s[|sep|..], sep);
      assert parts[1..] == SplitOn(s[|sep|..], sep);
      forall i | OccursAt(parts[0], sep, i) ensures false { }
    } else {
      var rest := SplitOn(s[1..], sep);
      SplitPartsFree(s[1..], sep);
      assert parts[1..] == rest[1..];
      var first := [s[0]] + rest[0];
      JoinHeadPrefix(rest, sep);
      assert first == s[..|first|];
      forall i | OccursAt(first, sep, i) ensures false {
        if i > 0 {
          assert rest[0][i - 1..i - 1 + |sep|] == first[i..i + |sep|];
          assert OccursAt(rest[0], sep, i - 1);
        }
      }
    }
  }

  /** Splitting a text in which the separator's first character never occurs
      gives the text itself as the single part. */
  lemma {:induction false} SplitWithoutSeparator(s: string, sep: string)
    requires sep != [] && sep[0] !in s
    ensures SplitOn(s, sep) == [s]
    decreases |s|
  {
    if |s| >= |sep| {
      assert s[..|sep|][0] == s[0];
      SplitWithoutSeparator(s[1..], sep);
      assert [s[0]] + s[1..] == s;
    }
  }

  /** A text that does not contain the separator is not cut. */
  lemma {:induction false} SplitNoOccurrence(s: string, sep: string)
    requires sep != [] && !Contains(s, sep)
    ensures SplitOn(s, sep) == [s]
    decreases |s|
  {
    if |s| >= |sep| {
      assert !OccursAt(s, sep, 0);
      forall i | OccursAt(s[1..], sep, i) ensures false {
        assert s[1..][i..i + |sep|] == s[i + 1..i + 1 + |sep|];
        assert OccursAt(s, sep, i + 1);
      }
      SplitNoOccurrence(s[1..], sep);
      assert [s[0]] + s[1..] == s;
    }
  }

  /** No occurrence of `sep` starts inside `a` when `a` is followed by `sep`:
      the cut after `a` is the leftmost one. */
  predicate NoEarlyCut(a: string, sep: string) {
    forall i :: 0 <= i < |a| ==> !OccursAt(a + sep, sep, i)
  }

  /** Leftmost cut: when no occurrence of the separator starts inside `a`,
      the first cut of `a + sep + b` is right after `a`. */
  lemma {:induction false} SplitAfterFirst(a: string, b: string, sep: string)
    requires sep != []
    requires NoEarlyCut(a, sep)
    ensures SplitOn(a + sep + b, sep) == [a] + SplitOn(b, sep)
    decreases |a|
  {
    var s := a + sep + b;
    if a == [] {
      assert s == sep + b;
      assert s[..|sep|] == sep && s[|sep|..] == b;
    } else {
      assert !OccursAt(a + sep, sep, 0);
      assert s[..|sep|] == (a + sep)[..|sep|];
      assert s[1..] == a[1..] + sep + b;
      forall i | 0 <= i < |a[1..]| ensures !OccursAt(a[1..] + sep, sep, i) {
        assert (a[1..] + sep)[i..i + |sep|] == (a + sep)[i + 1..i + 1 + |sep|];
        assert !OccursAt(a + sep, sep, i + 1);
      }
      SplitAfterFirst(a[1..], b, sep);
      assert [s[0]] + a[1..] == a;
    }
  }

  /** No occurrence of the separator starts inside a text that lacks its first character. */
  lemma NoStartInside(a: string, sep: string)
    requires sep != [] && sep[0] !in a
    ensures NoEarlyCut(a, sep)
  {
    forall i | 0 <= i < |a| ensures !OccursAt(a + sep, sep, i) {
      assert (a + sep)[i] == a[i];
    }
  }

  /** Every cut `SplitOn` makes is the leftmost possible: no occurrence of the
      separator starts inside a part that a cut follows. */
  lemma {:induction false} SplitLeftmost(s: string, sep: string)
    requires sep != []
    ensures forall k :: 0 <= k < |SplitOn(s, sep)| - 1 ==> NoEarlyCut(SplitOn(s, sep)[k], sep)
    decreases |s|
  {
    var parts := SplitOn(s, sep);
    if |s| < |sep| {
    } else if s[..|sep|] == sep {
      SplitLeftmost(s[|sep|..], sep);
      assert parts[1..] == SplitOn(s[|sep|..], sep);
      forall k | 0 <= k < |parts| - 1 ensures NoEarlyCut(parts[k], sep) {
        if k > 0 {
          assert parts[k] == SplitOn(s[|sep|..], sep)[k - 1];
        }
      }
    } else {
      var rest := SplitOn(s[1..], sep);
      SplitLeftmost(s[1..], sep);
      assert s[1..] == s[1..];
      assert |rest| < 2 || NoEarlyCut(rest[0], sep);
      assert parts == [[s[0]] + rest[0]] + rest[1..];
      assert |parts| == |rest| && JoinWith(rest, sep) == s[1..];
      forall k | 0 <= k < |parts| - 1 ensures NoEarlyCut(parts[k], sep) {
        if k > 0 {
          assert parts[k] == rest[k];
        } else {
          assert |rest| > 1;
          assert NoEarlyCut(rest[0], sep);
          assert JoinWith(rest, sep) == rest[0] + sep + JoinWith(rest[1..], sep);
          assert s[1..] == rest[0] + sep + JoinWith(rest[1..], sep);
          FirstCutLeftmost(s, sep, rest[0], JoinWith(rest[1..], sep));
        }
      }
    }
  }

  /** Prefixing a character to a part with a leftmost cut keeps the cut
      leftmost, unless the separator starts at that character. */
  lemma FirstCutLeftmost(s: string, sep: string, first: string, tail: string)
    requires sep != [] && |s| >= |sep| && s[..|sep|] != sep
    requires s[1..] == first + sep + tail
    requires NoEarlyCut(first, sep)
    ensures NoEarlyCut([s[0]] + first, sep)
  {
    var longer := [s[0]] + first;
    assert s == longer + sep + tail by {
      assert s == [s[0]] + s[1..];
    }
    forall i | 0 <= i < |longer| ensures !OccursAt(longer + sep, sep, i) {
      if i == 0 {
        assert (longer + sep)[..|sep|] == s[..|sep|];
      } else {
        assert (longer + sep)[i..] == (first + sep)[i - 1..];
        assert !OccursAt(first + sep, sep, i - 1);
      }
    }
  }

  /** Python's `split` is fixed by three facts: its parts join back to the
      text, every cut is leftmost, and the last part holds no separator. Any
      decomposition with these properties is the split. */
  lemma {:induction false} SplitCharacterized(parts: seq<string>, sep: string)
    requires sep != [] && parts != []
    requires forall k :: 0 <= k < |parts| - 1 ==> NoEarlyCut(parts[k], sep)
    requires !Contains(parts[|parts| - 1], sep)
    ensures SplitOn(JoinWith(parts, sep), sep) == parts
    decreases |parts|
  {
    if |parts| == 1 {
      SplitNoOccurrence(parts[0], sep);
    } else {
      var rest := parts[1..];
      assert JoinWith(parts, sep) == parts[0] + sep + JoinWith(rest, sep);
      assert NoEarlyCut(parts[0], sep);
      SplitAfterFirst(parts[0], JoinWith(rest, sep), sep);
      assert forall k :: 0 <= k < |rest| - 1 ==> NoEarlyCut(rest[k], sep) by {
        forall k | 0 <= k < |rest| - 1 ensures NoEarlyCut(rest[k], sep) {
          assert rest[k] == parts[k + 1];
        }
      }
      assert rest[|rest| - 1] == parts[|parts| - 1];
      SplitCharacterized(rest, sep);
      assert [parts[0]] + rest == parts;
    }
  }

  /** `split` undoes `join` when no part contains the separator's first character. */
  lemma {:induction false} SplitJoin(parts: seq<string>, sep: string)
    requires sep != [] && parts != []
    requires forall k :: 0 <= k < |parts| ==> sep[0] !in parts[k]
    ensures SplitOn(JoinWith(parts, sep), sep) == parts
    decreases |parts|
  {
    if |parts| == 1 {
      SplitWithoutSeparator(parts[0], sep);
    } else {
      NoStartInside(parts[0], sep);
      SplitAfterFirst(parts[0], JoinWith(parts[1..], sep), sep);
      SplitJoin(parts[1..], sep);
    }
  }

  /** Joining one more part appends the separator and that part. */
  lemma {:induction false} JoinSnoc(parts: seq<string>, last: string, sep: string)
    requires parts != []
    ensures JoinWith(parts + [last], sep) == JoinWith(parts, sep) + sep + last
    decreases |parts|
  {
    if |parts| > 1 {
      assert (parts + [last])[1..] == parts[1..] + [last];
      JoinSnoc(parts[1..], last, sep);
    }
  }

  /** A character absent from the joined text is absent from every part. */
  lemma {:induction false} AbsentFromParts(parts: seq<string>, sep: string, c: char)
    requires c !in JoinWith(parts, sep)
    ensures forall k :: 0 <= k < |parts| ==> c !in parts[k]
    decreases |parts|
  {
    if |parts| > 1 {
      AbsentFromParts(parts[1..], sep, c);
      forall k | 1 <= k < |parts| ensures c !in parts[k] {
        assert parts[k] == parts[1..][k - 1];
      }
    }
  }

  /** A character absent from every part and from the separator is absent from the join. */
  lemma {:induction false} AbsentFromJoin(parts: seq<string>, sep: string, c: char)
    requires c !in sep
    requires forall k :: 0 <= k < |parts| ==> c !in parts[k]
    ensures c !in JoinWith(parts, sep)
    decreases |parts|
  {
    if |parts| > 1 {
      AbsentFromJoin(parts[1..], sep, c);
    }
  }

  /** Python's `s.replace(old, new)` for single characters. */
  function ReplaceChar(s: string, from: char, to: char): (r: string)
    ensures |r| == |s|
    ensures forall i :: 0 <= i < |s| && s[i] == from ==> r[i] == to
    ensures forall i :: 0 <= i < |s| && s[i] != from ==> r[i] == s[i]
    ensures from != to ==> from !in r
  {
    seq(|s|, i requires 0 <= i < |s| => if s[i] == from then to else s[i])
  }

  /** Replacing a character the text does not hold changes nothing; and
      replacing it back undoes a replacement by a character the text lacked. */
  lemma ReplaceCharInverse(s: string, from: char, to: char)
    ensures from !in s ==> ReplaceChar(s, from, to) == s
    ensures to !in s ==> ReplaceChar(ReplaceChar(s, from, to), to, from) == s
  {
  }

  predicate IsDigit(c: char) {
    '0' as int <= c as int <= '9' as int
  }

  /** Python's `s.isdigit()` on ASCII text: non-empty and digits only. */
  predicate IsDigits(s: string) {
    s != [] && forall i :: 0 <= i < |s| ==> IsDigit(s[i])
  }

  /** Python's `int(s)` on a string of decimal digits. */
  function DigitsValue(s: string): nat
    requires forall i :: 0 <= i < |s| ==> IsDigit(s[i])
  {
    if s == [] then 0
    else
      assert IsDigit(s[|s| - 1]);
      DigitsValue(s[..|s| - 1]) * 10 + (s[|s| - 1] as int - '0' as int)
  }

  /** Decimal numeral of `n` without leading zeros, the inverse of `DigitsValue`. */
  function Decimal(n: nat): (s: string)
    ensures IsDigits(s)
  {
    if n < 10 then [('0' as int + n) as char]
    else Decimal(n / 10) + [('0' as int + n % 10) as char]
  }

  /** `int` and the decimal numeral are inverse on numerals without a leading
      zero: the numeral of a digit string's value is that string. */
  lemma {:induction false} DecimalOfDigitsValue(s: string)
    requires IsDigits(s) && (|s| == 1 || s[0] != '0')
    ensures Decimal(DigitsValue(s)) == s
    decreases |s|
  {
    var d := s[|s| - 1] as int - '0' as int;
    if |s| == 1 {
      assert s[..0] == [];
      assert [('0' as int + d) as char] == s;
    } else {
      var p := s[..|s| - 1];
      assert p[0] == s[0];
      DecimalOfDigitsValue(p);
      var n := DigitsValue(s);
      assert n == DigitsValue(p) * 10 + d;
      assert DigitsValue(p) != 0;
      assert n / 10 == DigitsValue(p) && n % 10 == d;
      assert Decimal(n) == p + [('0' as int + d) as char];
      assert s == p + [s[|s| - 1]];
    }
  }

  lemma {:induction false} DigitsValueOfDecimal(n: nat)
    ensures DigitsValue(Decimal(n)) == n
  {
    if n >= 10 {
      var s := Decimal(n);
      assert s[..|s| - 1] == Decimal(n / 10);
      DigitsValueOfDecimal(n / 10);
    }
  }
}
