/** One received command line: upper-cased and cut into tokens in place, then dispatched by first match. */
module AtCommand {

  /** One `char` stands for one byte of the line; '\0' ends a C string. */
  type Text = seq<char>

  const MAX_ARGC := 8

  // ---------------------------------------------------------------- upper case

  function UpperChar(c: char): char { if 'a' <= c <= 'z' then (c as int - 32) as char else c }

  function Upper(s: Text): (t: Text)
    ensures |t| == |s|
  {
    seq(|s|, i requires 0 <= i < |s| => UpperChar(s[i]))
  }

  const LOWER_CASE: Text := "abcdefghijklmnopqrstuvwxyz"
  const UPPER_CASE: Text := "ABCDEFGHIJKLMNOPQRSTUVWXYZ"

  /** The same character, or the same letter in the other case. */
  ghost predicate SameLetter(c: char, d: char) {
    c == d || exists k: nat | k < 26 :: IsPair(c, d, k) || IsPair(d, c, k)
  }

  predicate IsPair(lower: char, upper: char, k: nat)
    requires k < 26
  {
    lower == LOWER_CASE[k] && upper == UPPER_CASE[k]
  }

  predicate IsLower(c: char) { 'a' <= c <= 'z' }

  /** Texts that differ in letter case only. */
  ghost predicate SameButCase(s: Text, t: Text) {
    |s| == |t| && forall i | 0 <= i < |s| :: SameLetter(s[i], t[i])
  }

  lemma Alphabet(k: nat)
    requires k < 26
    ensures LOWER_CASE[k] as int == 'a' as int + k && UPPER_CASE[k] as int == 'A' as int + k
  {
  }

  lemma UpperCharIs(c: char)
    ensures SameLetter(c, UpperChar(c)) && !IsLower(UpperChar(c))
    ensures !IsLower(c) ==> UpperChar(c) == c
  {
    if IsLower(c) {
      var k := c as int - 'a' as int;
      Alphabet(k);
      assert IsPair(c, UpperChar(c), k);
    }
  }

  lemma SameUpperChar(c: char, d: char)
    requires SameLetter(c, d)
    ensures UpperChar(c) == UpperChar(d)
  {
    if c != d {
      var k: nat :| k < 26 && (IsPair(c, d, k) || IsPair(d, c, k));
      Alphabet(k);
    }
  }

  lemma SameUpper(s: Text, t: Text)
    requires SameButCase(s, t)
    ensures Upper(s) == Upper(t)
  {
    forall i | 0 <= i < |s| ensures Upper(s)[i] == Upper(t)[i] { SameUpperChar(s[i], t[i]); }
  }

  lemma UpperSame(s: Text)
    ensures SameButCase(s, Upper(s))
  {
    forall i | 0 <= i < |s| ensures SameLetter(s[i], Upper(s)[i]) { UpperCharIs(s[i]); }
  }

  /** toupper_line: no lower-case letter is left among the first `size` characters, and nothing else changes. */
  method ToUpperLine(line: array<char>, size: nat)
    requires size <= line.Length
    modifies line
    ensures forall i | 0 <= i < size :: line[i] == UpperChar(old(line[i]))
    ensures forall i | 0 <= i < size :: SameLetter(old(line[i]), line[i]) && !IsLower(line[i])
    ensures forall i | 0 <= i < size && !IsLower(old(line[i])) :: line[i] == old(line[i])
    ensures forall i | size <= i < line.Length :: line[i] == old(line[i])
  {
    for i := 0 to size
      invariant forall j | 0 <= j < i :: line[j] == UpperChar(old(line[j]))
      invariant forall j | i <= j < line.Length :: line[j] == old(line[j])
    {
      line[i] := UpperChar(line[i]);
    }
    forall i | 0 <= i < size
      ensures SameLetter(old(line[i]), line[i]) && !IsLower(line[i])
      ensures !IsLower(old(line[i])) ==> line[i] == old(line[i])
    {
      UpperCharIs(old(line[i]));
    }
  }

  // ---------------------------------------------------------------- tokens

  /** Length of the leading word. */
  function WordLength(s: Text): (n: nat)
    ensures n <= |s| && (s != "" && s[0] != ' ' ==> n > 0)
  {
    if s == "" || s[0] == ' ' then 0 else 1 + WordLength(s[1..])
  }

  /** The space-separated words of a text, in order. */
  function Tokens(s: Text): seq<Text>
    decreases |s|
  {
    if s == "" then []
    else if s[0] == ' ' then Tokens(s[1..])
    else [s[..WordLength(s)]] + Tokens(s[WordLength(s)..])
  }

  predicate IsWord(w: Text) { w != "" && ' ' !in w }

  function Spaces(n: nat): (s: Text)
    ensures |s| == n && forall i | 0 <= i < n :: s[i] == ' '
  {
    seq(n, _ => ' ')
  }

  /**
   * Words laid out with any number of spaces before each, at least one between two words, and any number at the
   * end.
   */
  function Layout(words: seq<Text>, gaps: seq<nat>, tail: nat): Text
    requires |gaps| == |words|
  {
    if words == [] then Spaces(tail)
    else Spaces(gaps[0]) + words[0] + Layout(words[1..], gaps[1..], tail)
  }

  lemma {:induction false} TokensAfterSpaces(n: nat, s: Text)
    ensures Tokens(Spaces(n) + s) == Tokens(s)
  {
    if n == 0 {
      assert Spaces(0) + s == s;
    } else {
      assert (Spaces(n) + s)[1..] == Spaces(n - 1) + s;
      TokensAfterSpaces(n - 1, s);
    }
  }

  lemma WordLengthIs(s: Text, n: nat)
    requires n <= |s| && (forall i | 0 <= i < n :: s[i] != ' ') && (n < |s| ==> s[n] == ' ')
    ensures WordLength(s) == n
  {
    if n > 0 { WordLengthIs(s[1..], n - 1); }
  }

  /** Tokenizing undoes every layout. */
  lemma {:induction false} TokensOfLayout(words: seq<Text>, gaps: seq<nat>, tail: nat)
    requires |gaps| == |words| && (forall w | w in words :: IsWord(w)) && forall k | 1 <= k < |gaps| :: gaps[k] > 0
    ensures Tokens(Layout(words, gaps, tail)) == words
  {
    if words == [] {
      TokensAfterSpaces(tail, "");
      assert Spaces(tail) + "" == Spaces(tail);
    } else {
      var w, rest := words[0], Layout(words[1..], gaps[1..], tail);
      assert IsWord(w);
      LayoutHead(words, gaps, tail);
      assert Layout(words, gaps, tail) == Spaces(gaps[0]) + (w + rest);
      TokensAfterSpaces(gaps[0], w + rest);
      WordLengthIs(w + rest, |w|);
      assert (w + rest)[..|w|] == w && (w + rest)[|w|..] == rest;
      TokensOfLayout(words[1..], gaps[1..], tail);
    }
  }

  lemma LayoutHead(words: seq<Text>, gaps: seq<nat>, tail: nat)
    requires |gaps| == |words| > 0 && forall k | 1 <= k < |gaps| :: gaps[k] > 0
    ensures var rest := Layout(words[1..], gaps[1..], tail); rest == "" || rest[0] == ' '
  {
    if |words| > 1 { assert Spaces(gaps[1])[0] == ' '; }
  }

  /** The NUL-terminated text at the start of a buffer. */
  function CString(s: Text): (t: Text)
    ensures |t| <= |s| && t == s[..|t|] && '\0' !in t && (|t| < |s| ==> s[|t|] == '\0')
  {
    if s == "" || s[0] == '\0' then "" else [s[0]] + CString(s[1..])
  }

  /** From index `from` on the line still holds the NUL-terminated `text`. */
  ghost predicate Untouched(line: array<char>, text: Text, from: nat)
    reads line
  {
    && from <= |text| < line.Length && line[|text|] == '\0'
    && forall i | from <= i < |text| :: line[i] == text[i] && text[i] != '\0'
  }

  /** Token `tok` stands NUL-terminated at index `at`. */
  ghost predicate TokenAt(line: Text, at: nat, tok: Text)
  {
    && at + |tok| < |line| && line[at + |tok|] == '\0'
    && forall i | at <= i < at + |tok| :: line[i] == tok[i - at] && line[i] != '\0'
  }

  /** A token that later splitting, from `save` on, will not touch. */
  ghost predicate Settled(line: Text, at: nat, tok: Text, save: nat, z: nat)
  {
    TokenAt(line, at, tok) && (at + |tok| < save || save == z)
  }

  lemma DropOne(text: Text, i: nat)
    requires i < |text|
    ensures text[i..][0] == text[i] && text[i..][1..] == text[i + 1..]
  {
  }

  /** strtok, first half: step over the delimiters. */
  method SkipDelimiters(line: array<char>, from: nat, ghost text: Text) returns (at: nat)
    requires Untouched(line, text, from)
    ensures from <= at <= |text| && (at < |text| ==> text[at] != ' ')
    ensures Tokens(text[at..]) == Tokens(text[from..])
  {
    at := from;
    while line[at] == ' '
      invariant from <= at <= |text| && Tokens(text[at..]) == Tokens(text[from..])
      decreases |text| - at
    {
      DropOne(text, at);
      at := at + 1;
    }
  }

  /** strtok, second half: find the end of the word. */
  method FindWordEnd(line: array<char>, at: nat, ghost text: Text) returns (end: nat)
    requires Untouched(line, text, at)
    ensures at <= end <= |text| && end == at + WordLength(text[at..])
    ensures end == |text| || text[end] == ' '
  {
    end := at;
    while line[end] != ' ' && line[end] != '\0'
      invariant at <= end <= |text| && WordLength(text[at..]) == end - at + WordLength(text[end..])
      decreases |text| - end
    {
      DropOne(text, end);
      end := end + 1;
    }
    if end < |text| { DropOne(text, end); }
  }

  /** strtok with a one-space delimiter, continuing at `from`. */
  method StrTok(line: array<char>, from: nat, ghost text: Text)
    returns (found: bool, at: nat, save: nat, ghost tok: Text)
    requires Untouched(line, text, from)
    modifies line
    ensures from <= save && Untouched(line, text, save)
    ensures forall i | 0 <= i < line.Length && !(from <= i < save) :: line[i] == old(line[i])
    ensures !found ==> Tokens(text[from..]) == []
    ensures found ==> Tokens(text[from..]) == [tok] + Tokens(text[save..]) && Settled(line[..], at, tok, save, |text|)
  {
    at := SkipDelimiters(line, from, text);
    found, save, tok := line[at] != '\0', at, [];
    if found {
      save := FindWordEnd(line, at, text);
      tok := text[at..save];
      FirstToken(text, at, save);
      save := EndToken(line, at, save, text);
    }
  }

  /** strtok, last step: overwrite the delimiter behind the word, unless the text ends there. */
  method EndToken(line: array<char>, at: nat, end: nat, ghost text: Text) returns (save: nat)
    requires at < end && Untouched(line, text, at) && (end == |text| || (end < |text| && text[end] == ' '))
    modifies line
    ensures end <= save && Untouched(line, text, save) && Tokens(text[save..]) == Tokens(text[end..])
    ensures forall i | 0 <= i < line.Length && !(at <= i < save) :: line[i] == old(line[i])
    ensures Settled(line[..], at, text[at..end], save, |text|)
  {
    save := end;
    if line[end] != '\0' {
      line[end] := '\0';
      DropOne(text, end);
      save := end + 1;
    }
  }

  lemma FirstToken(text: Text, at: nat, end: nat)
    requires at < |text| && text[at] != ' ' && end == at + WordLength(text[at..]) <= |text|
    ensures Tokens(text[at..]) == [text[at..end]] + Tokens(text[end..])
  {
    assert text[at..][..end - at] == text[at..end] && text[at..][end - at..] == text[end..];
  }

  /** token_line: the token starts, each token NUL-terminated in place. */
  method TokenLine(line: array<char>, argn: nat) returns (argv: seq<nat>)
    requires '\0' in line[..]
    requires |Tokens(CString(line[..]))| <= argn
    modifies line
    ensures var toks := Tokens(CString(old(line[..])));
            |argv| == |toks| && forall k | 0 <= k < |argv| :: TokenAt(line[..], argv[k], toks[k])
  {
    ghost var text := CString(line[..]);
    assert text[0..] == text;
    argv := [];
    var found, tp, save;
    ghost var tok;
    ghost var all, toks: seq<Text> := Tokens(text), [];
    ghost var rest := all;
    found, tp, save, tok := StrTok(line, 0, text);
    while found && |argv| <= argn
      invariant Untouched(line, text, save) && |toks| == |argv|
      invariant all == toks + rest
      invariant rest == if found then [tok] + Tokens(text[save..]) else []
      invariant AllSettled(line[..], argv, toks, save, |text|)
      invariant found ==> Settled(line[..], tp, tok, save, |text|)
      decreases argn + 1 - |argv|
    {
      AddSettled(line[..], argv, toks, tp, tok, save, |text|);
      Regroup(toks, tok, Tokens(text[save..]));
      argv := argv + [tp];
      toks, rest := toks + [tok], Tokens(text[save..]);
      ghost var before, s0 := line[..], save;
      found, tp, save, tok := StrTok(line, save, text);
      StaySettled(before, line[..], argv, toks, s0, save, |text|);
    }
  }

  lemma Regroup(toks: seq<Text>, tok: Text, rest: seq<Text>)
    ensures toks + ([tok] + rest) == (toks + [tok]) + rest
  {
  }

  ghost predicate AllSettled(line: Text, argv: seq<nat>, toks: seq<Text>, save: nat, z: nat) {
    |argv| == |toks| && forall k | 0 <= k < |argv| :: Settled(line, argv[k], toks[k], save, z)
  }

  lemma AddSettled(line: Text, argv: seq<nat>, toks: seq<Text>, at: nat, tok: Text, save: nat, z: nat)
    requires AllSettled(line, argv, toks, save, z) && Settled(line, at, tok, save, z)
    ensures AllSettled(line, argv + [at], toks + [tok], save, z)
  {
  }

  lemma StaySettled(s: Text, s': Text, argv: seq<nat>, toks: seq<Text>, save: nat, save': nat, z: nat)
    requires AllSettled(s, argv, toks, save, z) && save <= save' <= z && |s| == |s'|
    requires forall i | 0 <= i < |s| && !(save <= i < save') :: s'[i] == s[i]
    ensures AllSettled(s', argv, toks, save', z)
  {
  }

  // ---------------------------------------------------------------- dispatch

  /** Handlers that always succeed are told apart; all others are driver actions. */
  datatype Kind = Action | Nop | Exit
  datatype Entry = Entry(cmd: Text, argnum: nat, kind: Kind)

  const FIRST_COMMANDS: seq<Entry> := [
    Entry("BSSL", 1, Action), Entry("BUP", 0, Action), Entry("CEPA", 0, Action), Entry("CEPC", 0, Action),
    Entry("CEPL", 0, Action), Entry("CEPO", 0, Action), Entry("GALG", 0, Action), Entry("GALS", 0, Action),
    Entry("GCD", 0, Action), Entry("GEMG", 0, Action), Entry("GEMS", 0, Action), Entry("GNS", 1, Action)
  ]

  const SPECTRUM_COMMAND := Entry("GNFS", 6, Action)

  const LATER_COMMANDS: seq<Entry> := [
    Entry("GPOE", 6, Action), Entry("GPTC", 0, Action), Entry("GSOP", 3, Action), Entry("GSP", 0, Action),
    Entry("GSPP", 0, Action), Entry("GSPQ", 0, Action), Entry("GSR", 0, Action), Entry("GSTP", 0, Action),
    Entry("GSW", 0, Action), Entry("GSWP", 0, Action), Entry("GTIM", 6, Action), Entry("GTCX", 1, Action),
    Entry("GTE", 0, Action), Entry("GTR", 0, Action), Entry("GTS", 4, Action), Entry("LALG", 0, Action),
    Entry("LALS", 0, Action), Entry("LEMG", 0, Action), Entry("LEMS", 0, Action), Entry("QALG", 0, Action),
    Entry("QALS", 0, Action), Entry("QEMG", 0, Action), Entry("QEMS", 0, Action), Entry("AQCK", 1, Nop),
    Entry("GUSE", 1, Nop), Entry("LEMG", 0, Nop), Entry("TRCK", 1, Nop), Entry("VER", 0, Action)
  ]

  /** The command table, with or without the spectrum command of the build configuration. */
  function Table(spectrum: bool): seq<Entry> {
    FIRST_COMMANDS + (if spectrum then [SPECTRUM_COMMAND] else []) + LATER_COMMANDS + [Entry("AEXT", 0, Exit)]
  }

  /** strncmp over four characters sees this much of a string. */
  function Key(s: Text): Text { if |s| <= 4 then s else s[..4] }

  /** Index of the first entry whose name matches, or the table size. */
  function FirstMatch(table: seq<Entry>, name: Text): (i: nat)
    ensures i <= |table| && (forall j | 0 <= j < i :: Key(table[j].cmd) != Key(name))
    ensures i < |table| ==> Key(table[i].cmd) == Key(name)
  {
    if table == [] || Key(table[0].cmd) == Key(name) then 0 else 1 + FirstMatch(table[1..], name)
  }

  const EINVAL := 22
  const ENOENT := 2

  /** Driver actions: the return code for a command and its tokens. */
  type Driver = (Text, seq<Text>) -> int

  datatype Reply =
    | Silent
    | Done(name: Text, shutdown: bool) // "[name] Done", and whether -ESHUTDOWN is returned
    | Err(name: Text, code: int)       // "[name] Err code"

  /** Effect of one received text. */
  function Exec(table: seq<Entry>, text: Text, driver: Driver): Reply {
    Respond(table, Tokens(Upper(text)), driver)
  }

  function Respond(table: seq<Entry>, toks: seq<Text>, driver: Driver): Reply {
    if toks == [] || toks[0] == "" || toks[0][0] != '@' then Silent else
      var name := toks[0][1..];
      var i := FirstMatch(table, name);
      if i == |table| then Err(name, -ENOENT)
      else if table[i].argnum != |toks| - 1 then Err(name, -EINVAL)
      else
        var code := if table[i].kind == Action then driver(table[i].cmd, toks) else 0;
        if code == 0 then Done(name, table[i].kind == Exit) else Err(name, code)
  }

  /** Reading a settled token back as a C string. */
  lemma {:induction false} TokenReads(s: Text, at: nat, tok: Text)
    requires TokenAt(s, at, tok)
    ensures CString(s[at..]) == tok
    decreases |tok|
  {
    if tok == "" {
      assert s[at..][0] == '\0';
    } else {
      assert s[at..][1..] == s[at + 1..];
      assert forall i | at + 1 <= i < at + |tok| :: s[i] == tok[1..][i - at - 1];
      TokenReads(s, at + 1, tok[1..]);
    }
  }

  lemma {:induction false} CStringOfUpper(s: Text)
    ensures CString(Upper(s)) == Upper(CString(s))
  {
    if s != "" && s[0] != '\0' {
      assert Upper(s)[1..] == Upper(s[1..]);
      CStringOfUpper(s[1..]);
      assert Upper(CString(s)) == [UpperChar(s[0])] + Upper(CString(s[1..]));
    }
  }

  lemma {:induction false} CStringStops(s: Text, n: nat)
    requires 0 < n <= |s| && s[n - 1] == '\0'
    ensures CString(s) == CString(s[..n])
  {
    if s[0] != '\0' && n > 1 {
      assert s[..n][1..] == s[1..][..n - 1];
      CStringStops(s[1..], n - 1);
    }
  }

  /** The argument vector read through its pointers. */
  function ReadTokens(line: Text, argv: seq<nat>, ghost toks: seq<Text>): (words: seq<Text>)
    requires |argv| == |toks| && forall k | 0 <= k < |argv| :: TokenAt(line, argv[k], toks[k])
    ensures words == toks
  {
    if argv == [] then [] else
      assert TokenAt(line, argv[0], toks[0]);
      TokenReads(line, argv[0], toks[0]);
      [CString(line[argv[0]..])] + ReadTokens(line, argv[1..], toks[1..])
  }

  /** gnss_atcmd_exec on a received line, at most MAX_ARGC tokens long. */
  method GnssAtcmdExec(table: seq<Entry>, line: array<char>, size: nat, driver: Driver) returns (reply: Reply)
    requires 0 < size <= line.Length && line[size - 1] == '\0'
    requires |Tokens(Upper(CString(line[..size])))| <= MAX_ARGC
    modifies line
    ensures reply == Exec(table, CString(old(line[..size])), driver)
  {
    ghost var was := line[..size];
    ToUpperLine(line, size);
    assert line[..][..size] == Upper(was);
    CStringOfUpper(was);
    CStringStops(line[..], size);
    var argv := TokenLine(line, MAX_ARGC);
    var words := ReadTokens(line[..], argv, Tokens(Upper(CString(was))));
    reply := Dispatch(table, words, driver);
  }

  /** The rest of gnss_atcmd_exec: find the first matching entry and run it. */
  method Dispatch(table: seq<Entry>, words: seq<Text>, driver: Driver) returns (reply: Reply)
    ensures reply == Respond(table, words, driver)
  {
    if |words| == 0 || words[0] == "" || words[0][0] != '@' {
      return Silent;
    }
    var name := words[0][1..];
    var i := 0;
    while i < |table| && Key(table[i].cmd) != Key(name)
      invariant 0 <= i <= |table| && forall j | 0 <= j < i :: Key(table[j].cmd) != Key(name)
    {
      i := i + 1;
    }
    assert i == FirstMatch(table, name);
    if i == |table| {
      return Err(name, -ENOENT);
    }
    if table[i].argnum != |words| - 1 {
      return Err(name, -EINVAL);
    }
    var code := if table[i].kind == Action then driver(table[i].cmd, words) else 0;
    reply := if code == 0 then Done(name, table[i].kind == Exit) else Err(name, code);
  }

  // ---------------------------------------------------------------- main results

  /** The one word that stops the emulator: any letter case, and any text behind the first five characters. */
  ghost predicate IsExitWord(w: Text) { |w| >= 5 && SameButCase(w[..5], "@AEXT") }

  predicate StartsExit(w: Text) { |w| >= 5 && w[..5] == "@AEXT" }

  lemma ExitWordUpper(w: Text)
    ensures IsExitWord(w) <==> StartsExit(Upper(w))
  {
    if |w| >= 5 {
      assert Upper(w)[..5] == Upper(w[..5]);
      UpperSame(w[..5]);
      assert Upper("@AEXT") == "@AEXT";
      if IsExitWord(w) { SameUpper(w[..5], "@AEXT"); }
    }
  }

  lemma ExitKeyOnlyAtEnd(spectrum: bool, i: nat)
    requires i < |Table(spectrum)|
    ensures Table(spectrum)[i].kind == Exit <==> i == |Table(spectrum)| - 1
    ensures Key(Table(spectrum)[i].cmd) == "AEXT" <==> i == |Table(spectrum)| - 1
    ensures Table(spectrum)[|Table(spectrum)| - 1].argnum == 0
  {
    ExitLast(spectrum);
    if i < |Table(spectrum)| - 1 { ExitNotBefore(spectrum, i); }
  }

  lemma ExitLast(spectrum: bool)
    ensures Table(spectrum)[|Table(spectrum)| - 1] == Entry("AEXT", 0, Exit)
  {
  }

  predicate NotExit(e: Entry) { e.kind != Exit && |e.cmd| >= 2 && (e.cmd[0] != 'A' || e.cmd[1] != 'E') }

  lemma ExitNotBefore(spectrum: bool, i: nat)
    requires i < |Table(spectrum)| - 1
    ensures NotExit(Table(spectrum)[i])
  {
    FirstNotExit();
    LaterNotExit();
  }

  lemma FirstNotExit()
    ensures forall i | 0 <= i < |FIRST_COMMANDS| :: NotExit(FIRST_COMMANDS[i])
  {
  }

  lemma LaterNotExit()
    ensures forall i | 0 <= i < |LATER_COMMANDS| :: NotExit(LATER_COMMANDS[i])
  {
  }

  lemma ExitKey(name: Text)
    ensures StartsExit(['@'] + name) <==> Key(name) == "AEXT"
  {
    if |name| >= 4 { assert (['@'] + name)[..5] == ['@'] + name[..4]; }
    assert ['@'] + "AEXT" == "@AEXT";
    if |name| >= 4 && ['@'] + name[..4] == "@AEXT" { assert name[..4] == (['@'] + name[..4])[1..]; }
  }

  lemma UpperWordLength(s: Text)
    ensures WordLength(Upper(s)) == WordLength(s)
  {
    var n := WordLength(s);
    WordEnds(s);
    forall i | 0 <= i < |s| ensures Upper(s)[i] == ' ' <==> s[i] == ' ' { UpperCharIs(s[i]); SpaceStays(s[i]); }
    WordLengthIs(Upper(s), n);
  }

  lemma SpaceStays(c: char)
    ensures UpperChar(c) == ' ' <==> c == ' '
  {
  }

  lemma {:induction false} WordEnds(s: Text)
    ensures forall i | 0 <= i < WordLength(s) :: s[i] != ' '
    ensures WordLength(s) < |s| ==> s[WordLength(s)] == ' '
  {
    if s != "" && s[0] != ' ' { WordEnds(s[1..]); }
  }

  /** Upper-casing a text upper-cases its words. */
  lemma {:induction false} UpperTokens(s: Text)
    ensures |Tokens(Upper(s))| == |Tokens(s)|
    ensures forall k | 0 <= k < |Tokens(s)| :: Tokens(Upper(s))[k] == Upper(Tokens(s)[k])
    decreases |s|
  {
    if s != "" {
      SpaceStays(s[0]);
      if s[0] == ' ' {
        assert Upper(s)[1..] == Upper(s[1..]);
        UpperTokens(s[1..]);
      } else {
        var n := WordLength(s);
        UpperWordLength(s);
        assert Upper(s)[..n] == Upper(s[..n]) && Upper(s)[n..] == Upper(s[n..]);
        UpperTokens(s[n..]);
        assert Tokens(Upper(s)) == [Upper(s[..n])] + Tokens(Upper(s[n..]));
      }
    }
  }

  /** Letter case never matters: lines that differ in nothing else get the same reply. */
  lemma CaseIgnored(table: seq<Entry>, a: Text, b: Text, driver: Driver)
    requires SameButCase(a, b)
    ensures Exec(table, a, driver) == Exec(table, b, driver)
  {
    SameUpper(a, b);
  }

  /** The shutdown code is returned exactly for a lone exit word, in any letter case, whatever the driver does. */
  lemma ShutdownIff(spectrum: bool, text: Text, driver: Driver)
    ensures var r := Exec(Table(spectrum), text, driver);
            r.Done? && r.shutdown <==> |Tokens(text)| == 1 && IsExitWord(Tokens(text)[0])
  {
    UpperTokens(text);
    ShutdownUpper(spectrum, text, driver);
    if |Tokens(text)| == 1 { ExitWordUpper(Tokens(text)[0]); }
  }

  lemma ShutdownUpper(spectrum: bool, text: Text, driver: Driver)
    ensures var r, toks := Exec(Table(spectrum), text, driver), Tokens(Upper(text));
            r.Done? && r.shutdown <==> |toks| == 1 && StartsExit(toks[0])
  {
    var t, toks := Table(spectrum), Tokens(Upper(text));
    if toks != [] && toks[0] != "" && toks[0][0] == '@' {
      var name := toks[0][1..];
      ExitKey(name);
      assert toks[0] == ['@'] + name;
      var i := FirstMatch(t, name);
      ExitKeyOnlyAtEnd(spectrum, |t| - 1);
      if i < |t| { ExitKeyOnlyAtEnd(spectrum, i); }
    }
  }

  predicate IsCommand(toks: seq<Text>) { toks != [] && toks[0] != "" && toks[0][0] == '@' }

  /** The first word names an entry, none before it agrees in four characters, and the argument count is its own. */
  predicate Calls(table: seq<Entry>, toks: seq<Text>, i: nat) {
    && i < |table| && IsCommand(toks)
    && Key(table[i].cmd) == Key(toks[0][1..]) && (forall j | 0 <= j < i :: Key(table[j].cmd) != Key(toks[0][1..]))
    && |toks| == table[i].argnum + 1
  }

  ghost predicate CallsHandler(table: seq<Entry>, toks: seq<Text>) {
    exists i: nat :: Calls(table, toks, i) && table[i].kind == Action
  }

  /** What a handler returns makes a difference exactly if the line calls an entry that has one; it is the reply. */
  lemma HandlerRunsIff(table: seq<Entry>, toks: seq<Text>, code: int)
    requires code != 0
    ensures var r := Respond(table, toks, (cmd, words) => code);
            && (r != Respond(table, toks, (cmd, words) => 0) <==> CallsHandler(table, toks))
            && (CallsHandler(table, toks) ==> r == Err(toks[0][1..], code))
  {
    if IsCommand(toks) {
      var i := FirstMatch(table, toks[0][1..]);
      assert forall j: nat | Calls(table, toks, j) :: j == i;
      if i < |table| && table[i].argnum == |toks| - 1 { assert Calls(table, toks, i); }
    }
  }

  /** No reply without a leading '@', -ENOENT for an unknown name, -EINVAL for a wrong number of arguments. */
  lemma Refusals(table: seq<Entry>, toks: seq<Text>, driver: Driver)
    ensures var r := Respond(table, toks, driver);
            (r == Silent <==> !IsCommand(toks)) && (r != Silent ==> r.name == toks[0][1..])
    ensures IsCommand(toks) && FirstMatch(table, toks[0][1..]) == |table| ==>
              Respond(table, toks, driver) == Err(toks[0][1..], -2)
    ensures IsCommand(toks) && FirstMatch(table, toks[0][1..]) < |table|
            && |toks| != table[FirstMatch(table, toks[0][1..])].argnum + 1 ==>
              Respond(table, toks, driver) == Err(toks[0][1..], -22)
  {
  }

  /** The second LEMG entry, a no-op, can never be selected. */
  lemma ShadowedEntry(spectrum: bool, name: Text, j: nat)
    requires j < |Table(spectrum)| && Table(spectrum)[j] == Entry("LEMG", 0, Nop)
    ensures FirstMatch(Table(spectrum), name) != j
  {
    var i := if spectrum then 30 else 29;
    LemgEntry(spectrum);
    assert i != j && Key(Table(spectrum)[i].cmd) == Key(Table(spectrum)[j].cmd);
    if j < i { NoEarlierLemg(spectrum, j); }
  }

  lemma LemgEntry(spectrum: bool)
    ensures Table(spectrum)[if spectrum then 30 else 29] == Entry("LEMG", 0, Action)
  {
  }

  lemma NoEarlierLemg(spectrum: bool, j: nat)
    requires j < if spectrum then 30 else 29
    ensures Table(spectrum)[j].kind == Action
  {
  }
}
