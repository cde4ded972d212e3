/** `clean_latex_commands`: trim, replace known journal macros, strip braces.
    The substitution `re.sub(r'\\[a-zA-Z]+', ...)` is modelled as a left-to-right
    scanner (`Tokenize`) that cuts the text into single characters and maximal
    backslash-letters commands, followed by a renderer that replaces each
    command once, so that replaced text is never scanned again. */
module Latex {
  import opened Strings

  /** `JOURNAL_NAME_MAP`: journal macros and the names they stand for. */
  const JournalNames: map<string, string> := map[
    "\\aap" := "Astronomy & Astrophysics",
    "\\apj" := "Astrophysical Journal",
    "\\apjl" := "Astrophysical Journal Letters",
    "\\apjs" := "Astrophysical Journal Supplement Series",
    "\\mnras" := "Monthly Notices of the Royal Astronomical Society",
    "\\aj" := "Astronomical Journal",
    "\\nat" := "Nature",
    "\\araa" := "Annual Review of Astronomy and Astrophysics",
    "\\pasp" := "Publications of the Astronomical Society of the Pacific",
    "\\icarus" := "Icarus",
    "\\ssr" := "Space Science Reviews"
  ]

  /** The regular-expression class `[a-zA-Z]`. */
  predicate IsLetter(c: char) {
    'a' <= c <= 'z' || 'A' <= c <= 'Z'
  }

  /** A piece of scanned text: a character copied through, or a command
      (a backslash followed by one or more letters). */
  datatype Token = Char(c: char) | Command(name: string)

  /** The text a token was scanned from. */
  function Spelling(t: Token): string {
    match t
    case Char(c) => [c]
    case Command(name) => name
  }

  function Spell(toks: seq<Token>): string {
    if toks == [] then "" else Spelling(toks[0]) + Spell(toks[1..])
  }

  predicate IsCommandName(name: string) {
    |name| >= 2 && name[0] == '\\' && forall i :: 1 <= i < |name| ==> IsLetter(name[i])
  }

  /** A token after which a letter would have extended the match:
      a command, or a lone backslash that could have started one. */
  predicate Extendable(t: Token) {
    t.Command? || t == Char('\\')
  }

  /** The tokenization a leftmost, longest-match scan produces: commands are
      well formed, and no command could be extended by the next character. */
  predicate WellFormed(toks: seq<Token>) {
    toks == [] ||
    ((toks[0].Command? ==> IsCommandName(toks[0].name)) &&
     (|toks| >= 2 && Extendable(toks[0]) ==> !(toks[1].Char? && IsLetter(toks[1].c))) &&
     WellFormed(toks[1..]))
  }

  /** Length of the run of letters at the start of `s`. */
  function LetterRun(s: string): (n: nat)
    ensures n <= |s|
    ensures forall i :: 0 <= i < n ==> IsLetter(s[i])
    ensures n == |s| || !IsLetter(s[n])
  {
    if s != [] && IsLetter(s[0]) then 1 + LetterRun(s[1..]) else 0
  }

  /** The scanner: at a backslash followed by a letter, take the backslash and
      the longest run of letters as one command; otherwise copy one character. */
  function Tokenize(s: string): (toks: seq<Token>)
    ensures Spell(toks) == s
    ensures WellFormed(toks)
    ensures toks != [] ==> s != [] && (toks[0].Char? ==> toks[0].c == s[0]) && (toks[0].Command? ==> s[0] == '\\')
    decreases |s|
  {
    if s == [] then []
    else if s[0] == '\\' && |s| >= 2 && IsLetter(s[1]) then
      var n := 1 + LetterRun(s[1..]);
      assert s[..n] + s[n..] == s;
      [Command(s[..n])] + Tokenize(s[n..])
    else
      assert [s[0]] + s[1..] == s;
      [Char(s[0])] + Tokenize(s[1..])
  }

  /** What a token becomes in the output: a known journal macro is replaced by
      its name; any other command and every other character are kept. */
  function Render(t: Token): string {
    match t
    case Char(c) => [c]
    case Command(name) => if name in JournalNames then JournalNames[name] else name
  }

  function RenderAll(toks: seq<Token>): string {
    if toks == [] then "" else Render(toks[0]) + RenderAll(toks[1..])
  }

  /** The `re.sub` step of `clean_latex_commands`. A journal macro on its own
      becomes the journal's name; without a backslash there is nothing the
      pattern can match, and the text is unchanged. */
  function ReplaceCommands(s: string): (r: string)
    ensures s in JournalNames ==> r == JournalNames[s]
    ensures '\\' !in s ==> r == s
  {
    var toks := Tokenize(s);
    if '\\' !in s then
      NoBackslashNoCommand(s);
      RenderUnknown(toks);
      RenderAll(toks)
    else if s in JournalNames then
      JournalKeysAreCommands();
      TokenizeCommand(s);
      RenderAll(toks)
    else
      RenderAll(toks)
  }

  /** A text without a backslash scans into single characters only. */
  lemma {:induction false} NoBackslashNoCommand(s: string)
    requires '\\' !in s
    ensures forall k :: 0 <= k < |Tokenize(s)| ==> Tokenize(s)[k].Char?
    decreases |s|
  {
    if s != [] {
      NoBackslashNoCommand(s[1..]);
      assert Tokenize(s) == [Char(s[0])] + Tokenize(s[1..]);
    }
  }

  /** A lone command scans as one token. */
  lemma TokenizeCommand(name: string)
    requires IsCommandName(name)
    ensures Tokenize(name) == [Command(name)]
    ensures RenderAll(Tokenize(name)) == Render(Command(name))
  {
    var one := [Command(name)];
    assert WellFormed(one) && Spell(one) == name;
    TokenizeUnique(one);
    assert RenderAll(one) == Render(Command(name)) + RenderAll([]);
  }

  /** Every key of the journal table is a backslash-letters command, so the
      pattern can match it whole. */
  lemma JournalKeysAreCommands()
    ensures forall k :: k in JournalNames ==> IsCommandName(k)
  {
  }

  predicate IsBrace(c: char) {
    c == '{' || c == '}'
  }

  /** The `re.sub(r'[{}]', '', ...)` step: every brace is deleted and every
      other character kept, in order. */
  function StripBraces(s: string): (r: string)
    ensures forall i :: 0 <= i < |r| ==> !IsBrace(r[i])
    ensures forall c :: c in r <==> c in s && !IsBrace(c)
    ensures r == s <==> forall i :: 0 <= i < |s| ==> !IsBrace(s[i])
  {
    if s == [] then ""
    else if IsBrace(s[0]) then StripBraces(s[1..])
    else [s[0]] + StripBraces(s[1..])
  }

  /** Brace deletion acts on each part of a text separately. */
  lemma {:induction false} StripBracesAppend(x: string, y: string)
    ensures StripBraces(x + y) == StripBraces(x) + StripBraces(y)
    decreases |x|
  {
    if x == [] {
      assert x + y == y;
    } else {
      assert (x + y)[0] == x[0] && (x + y)[1..] == x[1..] + y;
      StripBracesAppend(x[1..], y);
      if !IsBrace(x[0]) {
        assert StripBraces(x + y) == [x[0]] + StripBraces(x[1..] + y);
      }
    }
  }

  /** `clean_latex_commands`: the result never holds a brace. */
  function CleanLatex(text: string): (r: string)
    ensures '{' !in r && '}' !in r
  {
    StripBraces(ReplaceCommands(Trim(text)))
  }

  /** First character of a non-empty well-formed token sequence's spelling. */
  lemma SpellHead(toks: seq<Token>)
    requires toks != [] && WellFormed(toks)
    ensures Spell(toks) != []
    ensures Spell(toks)[0] == (if toks[0].Char? then toks[0].c else '\\')
  {
    assert Spelling(toks[0])[0] == Spell(toks)[0];
  }

  /** A run of exactly `m` letters followed by a non-letter (or the end). */
  lemma {:induction false} LetterRunExact(s: string, m: nat)
    requires m <= |s|
    requires forall i :: 0 <= i < m ==> IsLetter(s[i])
    requires m == |s| || !IsLetter(s[m])
    ensures LetterRun(s) == m
    decreases m
  {
    if m > 0 {
      LetterRunExact(s[1..], m - 1);
    }
  }

  /** Maximal munch is the only well-formed reading: any well-formed token
      sequence is exactly what the scanner produces from its spelling. */
  lemma {:induction false} TokenizeUnique(toks: seq<Token>)
    requires WellFormed(toks)
    ensures Tokenize(Spell(toks)) == toks
    decreases |toks|
  {
    if toks != [] {
      var s := Spell(toks);
      var rest := toks[1..];
      assert s == Spelling(toks[0]) + Spell(rest);
      if rest != [] {
        SpellHead(rest);
      }
      match toks[0]
      case Char(c) =>
        assert s[1..] == Spell(rest);
        if c == '\\' && |s| >= 2 {
          assert s[1] == Spell(rest)[0];
        }
        TokenizeUnique(rest);
      case Command(name) =>
        var t := s[1..];
        assert name[1..] == t[..|name| - 1];
        if rest != [] {
          assert t[|name| - 1] == Spell(rest)[0];
        }
        LetterRunExact(t, |name| - 1);
        assert s[..|name|] == name && s[|name|..] == Spell(rest);
        TokenizeUnique(rest);
    }
  }

  /** Replacement acts token by token on any maximal-munch reading of the text:
      a known journal macro becomes its name, every other command is kept
      byte for byte, backslash included, and the replaced text is not rescanned. */
  lemma ReplaceByTokens(toks: seq<Token>)
    requires WellFormed(toks)
    ensures ReplaceCommands(Spell(toks)) == RenderAll(toks)
  {
    TokenizeUnique(toks);
  }

  /** Rendering without a known macro gives the spelling back. */
  lemma {:induction false} RenderUnknown(toks: seq<Token>)
    requires forall k :: 0 <= k < |toks| && toks[k].Command? ==> toks[k].name !in JournalNames
    ensures RenderAll(toks) == Spell(toks)
    decreases |toks|
  {
    if toks != [] {
      RenderUnknown(toks[1..]);
    }
  }

  /** A text with no known journal macro passes the replacement unchanged. */
  lemma ReplaceUnknown(s: string)
    requires forall k :: 0 <= k < |Tokenize(s)| && Tokenize(s)[k].Command? ==> Tokenize(s)[k].name !in JournalNames
    ensures ReplaceCommands(s) == s
  {
    RenderUnknown(Tokenize(s));
  }

  /** Matching is greedy: `\apjl` is one macro, not `\apj` followed by `l`. */
  lemma GreedyKnown()
    ensures ReplaceCommands("\\apjl") == "Astrophysical Journal Letters"
  {
    var toks := [Command("\\apjl")];
    assert WellFormed(toks);
    assert Spell(toks) == "\\apjl";
    ReplaceByTokens(toks);
    assert RenderAll(toks) == Render(toks[0]);
    assert "\\apjl" in JournalNames;
  }

  /** A longer unknown word such as `\apjx` is kept whole, although it starts
      with the known `\apj`. */
  lemma GreedyUnknown()
    ensures ReplaceCommands("\\apjx") == "\\apjx"
  {
    var toks := [Command("\\apjx")];
    assert WellFormed(toks);
    assert Spell(toks) == "\\apjx";
    ReplaceByTokens(toks);
    assert RenderAll(toks) == Render(toks[0]);
    assert "\\apjx" !in JournalNames;
  }

  /** A braced macro inside surrounding whitespace, as journal fields are
      exported, becomes the journal's name. */
  lemma CleanExample()
    ensures CleanLatex(" {\\nat} ") == "Nature"
  {
    TrimExample();
    ReplaceExample();
    StripExample();
  }

  lemma TrimExample()
    ensures Trim(" {\\nat} ") == "{\\nat}"
  {
    var s := " {\\nat} ";
    assert LeadingSpaces(s) == 1 by {
      assert LeadingSpaces(s[1..]) == 0;
    }
    assert TrailingSpaces(s[1..]) == 1 by {
      var t := s[1..];
      assert t[..|t| - 1] == "{\\nat}";
      assert TrailingSpaces(t[..|t| - 1]) == 0;
    }
    assert s[1..|s| - 1] == "{\\nat}";
  }

  lemma StripExample()
    ensures StripBraces("{Nature}") == "Nature"
  {
    StripBracesAppend("{Nature", "}");
    StripBracesAppend("{", "Nature");
    assert StripBraces("{") == "" && StripBraces("}") == "";
    StripPlain();
  }

  lemma StripPlain()
    ensures StripBraces("Nature") == "Nature"
  {
    assert forall i :: 0 <= i < |"Nature"| ==> !IsBrace("Nature"[i]);
  }

  lemma ReplaceExample()
    ensures ReplaceCommands("{\\nat}") == "{Nature}"
  {
    var toks := [Char('{'), Command("\\nat"), Char('}')];
    assert Spell(toks) == "{\\nat}" && WellFormed(toks) && RenderAll(toks) == "{Nature}";
    ReplaceByTokens(toks);
  }
}
