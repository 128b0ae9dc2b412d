/** The emulator's line assembler: reads of any size collected into command lines. */
module AtLine {
  import opened AtCommand

  const RBUF_SIZE := 128

  datatype Option<+T> = None | Some(value: T)

  predicate IsTerminator(c: char) { c == '\r' || c == '\n' || c == '\0' }

  predicate Unterminated(s: Text) { forall i | 0 <= i < |s| :: !IsTerminator(s[i]) }

  /** No terminator among the first `n` characters. */
  predicate PlainTo(s: Text, n: nat)
    requires n <= |s|
  {
    forall i | 0 <= i < n :: !IsTerminator(s[i])
  }

  /** Length of the part before the first terminator. */
  function LineLength(s: Text): (n: nat)
    ensures n <= |s| && PlainTo(s, n) && (n < |s| ==> IsTerminator(s[n]))
  {
    if s == "" || IsTerminator(s[0]) then 0 else 1 + LineLength(s[1..])
  }

  // ---------------------------------------------------------------- what the assembler does with one read

  /** New buffered text, and the line handed over, if any. A full buffer is handed over without being scanned. */
  function Assemble(pending: Text, chunk: Text): (Text, Option<Text>) {
    var buf := pending + chunk;
    if |buf| >= RBUF_SIZE then ("", Some(buf[..RBUF_SIZE - 1]))
    else
      var n := |pending| + LineLength(chunk);
      if n == |buf| then (buf, None) else ("", Some(buf[..n]))
  }

  /** The lines handed over by a sequence of reads, and the text left in the buffer. */
  function Run(pending: Text, chunks: seq<Text>): (seq<Text>, Text)
    decreases |chunks|
  {
    if chunks == [] then ([], pending) else
      var (p, line) := Assemble(pending, chunks[0]);
      var (lines, rest) := Run(p, chunks[1..]);
      (if line.None? then lines else [line.value] + lines, rest)
  }

  /** No read returns more than the room left in the buffer. */
  predicate Legal(pending: Text, chunks: seq<Text>)
    decreases |chunks|
  {
    chunks == [] || (|pending| + |chunks[0]| <= RBUF_SIZE && Legal(Assemble(pending, chunks[0]).0, chunks[1..]))
  }

  lemma AppendUnterminated(a: Text, b: Text)
    requires Unterminated(a) && LineLength(b) == |b|
    ensures Unterminated(a + b)
  {
  }

  // ---------------------------------------------------------------- the reference: lines of the whole stream

  function Concat(chunks: seq<Text>): Text {
    if chunks == [] then "" else chunks[0] + Concat(chunks[1..])
  }

  /** The stream cut at every terminator, and what follows the last one. */
  function Lines(s: Text): (seq<Text>, Text)
    decreases |s|
  {
    var n := LineLength(s);
    if n == |s| then ([], s) else
      var (lines, rest) := Lines(s[n + 1..]);
      ([s[..n]] + lines, rest)
  }

  /** Every line, with its terminator, fits the buffer. */
  predicate Fits(s: Text)
    decreases |s|
  {
    var n := LineLength(s);
    n < RBUF_SIZE && (n == |s| || Fits(s[n + 1..]))
  }

  /** A read with a terminator anywhere but at its end. */
  predicate Crosses(chunk: Text) { LineLength(chunk) + 1 < |chunk| }

  lemma LineLengthIs(s: Text, n: nat)
    requires n <= |s| && PlainTo(s, n) && (n < |s| ==> IsTerminator(s[n]))
    ensures LineLength(s) == n
  {
  }

  lemma LineAt(s: Text, line: Text, t: char, rest: Text)
    requires Unterminated(line) && IsTerminator(t) && s == line + [t] + rest
    ensures LineLength(s) == |line| && s[..|line|] == line && s[|line| + 1..] == rest
  {
    assert PlainTo(s, |line|);
    LineLengthIs(s, |line|);
  }

  lemma AppendUnterminatedPart(a: Text, b: Text, n: nat)
    requires Unterminated(a) && n <= |b| && PlainTo(b, n)
    ensures Unterminated(a + b[..n])
  {
  }

  lemma LongerLine(a: Text, b: Text)
    requires Unterminated(a)
    ensures LineLength(a + b) >= |a|
  {
    assert PlainTo(a + b, |a|);
  }

  lemma FirstLineFits(pending: Text, c: Text, rest: Text)
    requires Unterminated(pending) && LineLength(c) + 1 == |c| && Fits(pending + c + rest)
    ensures |pending + c| <= RBUF_SIZE && Fits(rest)
  {
    var s, n := pending + c + rest, LineLength(c);
    AppendUnterminatedPart(pending, c, n);
    assert s == (pending + c[..n]) + [c[n]] + rest;
    LineAt(s, pending + c[..n], c[n], rest);
  }

  /**
   * What the buffer makes of a stream: a line ends at its first terminator or, if that is not among the first 128
   * characters, after 127 of them, the 128th being lost to the NUL.
   */
  function Cut(s: Text): (seq<Text>, Text)
    decreases |s|
  {
    var n := LineLength(s);
    if n < |s| && n < RBUF_SIZE then ConsLine(s[..n], Cut(s[n + 1..]))
    else if |s| >= RBUF_SIZE then ConsLine(s[..RBUF_SIZE - 1], Cut(s[RBUF_SIZE..]))
    else ([], s)
  }

  function ConsLine(line: Text, later: (seq<Text>, Text)): (seq<Text>, Text) { ([line] + later.0, later.1) }

  /** If no read crosses a terminator, the reads hand over the stream cut that way, wherever they end. */
  lemma {:induction false} AlignedReads(pending: Text, chunks: seq<Text>)
    requires Unterminated(pending) && |pending| < RBUF_SIZE && Legal(pending, chunks)
    requires forall c | c in chunks :: !Crosses(c)
    ensures Run(pending, chunks) == Cut(pending + Concat(chunks))
    decreases |chunks|
  {
    if chunks == [] {
      assert pending + "" == pending;
      LineLengthIs(pending, |pending|);
    } else {
      var c, rest := chunks[0], Concat(chunks[1..]);
      assert c in chunks && pending + (c + rest) == (pending + c) + rest;
      assert "" + rest == rest;
      AlignedReads(Assemble(pending, c).0, chunks[1..]) by {
        if Assemble(pending, c).1.None? { AppendUnterminated(pending, c); }
      }
      FirstLine(pending, c, rest);
    }
  }

  /** The line a read completes is the first one of the stream. */
  lemma FirstLine(pending: Text, c: Text, rest: Text)
    requires Unterminated(pending) && |pending| < RBUF_SIZE && |pending + c| <= RBUF_SIZE && !Crosses(c)
    ensures var (p, line) := Assemble(pending, c);
            Cut(pending + c + rest) == if line.None? then Cut(p + rest) else ConsLine(line.value, Cut(rest))
    ensures Assemble(pending, c).1.Some? ==> Assemble(pending, c).0 == ""
  {
    if LineLength(c) < |c| {
      LineEndsRead(pending, c, rest);
    } else if |pending + c| == RBUF_SIZE {
      BufferFull(pending, c, rest);
    }
  }

  /** A read that ends in the first terminator completes the first line of the stream. */
  lemma LineEndsRead(pending: Text, c: Text, rest: Text)
    requires Unterminated(pending) && LineLength(c) + 1 == |c| && |pending + c| <= RBUF_SIZE
    ensures var line := pending + c[..|c| - 1];
            && Cut(pending + c + rest) == ConsLine(line, Cut(rest))
            && Assemble(pending, c) == ("", Some(line))
  {
    var s, n := pending + c + rest, LineLength(c);
    AppendUnterminatedPart(pending, c, n);
    assert s == (pending + c[..n]) + [c[n]] + rest;
    LineAt(s, pending + c[..n], c[n], rest);
    assert (pending + c)[..|pending| + n] == pending + c[..n];
  }

  lemma BufferFull(pending: Text, c: Text, rest: Text)
    requires Unterminated(pending) && LineLength(c) == |c| && |pending + c| == RBUF_SIZE
    ensures Cut(pending + c + rest) == ConsLine((pending + c)[..RBUF_SIZE - 1], Cut(rest))
  {
    var s := pending + c + rest;
    AppendUnterminated(pending, c);
    LongerLine(pending + c, rest);
    assert s[..RBUF_SIZE - 1] == (pending + c)[..RBUF_SIZE - 1] && s[RBUF_SIZE..] == rest;
  }

  /** Cutting loses nothing and splits no line exactly if all lines fit. */
  lemma {:induction false} CutIsLinesIff(s: Text)
    ensures Cut(s) == Lines(s) <==> Fits(s)
    decreases |s|
  {
    var n := LineLength(s);
    if n < |s| && n < RBUF_SIZE {
      CutIsLinesIff(s[n + 1..]);
      SameCons(s[..n], Cut(s[n + 1..]), Lines(s[n + 1..]));
    } else if n < |s| {
      assert Lines(s).0[0] == s[..n] && Cut(s).0[0] == s[..RBUF_SIZE - 1];
    }
  }

  lemma SameCons(line: Text, a: (seq<Text>, Text), b: (seq<Text>, Text))
    ensures ConsLine(line, a) == ConsLine(line, b) <==> a == b
  {
    assert ([line] + a.0)[1..] == a.0 && ([line] + b.0)[1..] == b.0;
  }

  lemma {:induction false} CutUnterminated(s: Text)
    ensures forall l | l in Cut(s).0 :: Unterminated(l)
    decreases |s|
  {
    var n := LineLength(s);
    if n < |s| && n < RBUF_SIZE {
      CutUnterminated(s[n + 1..]);
    } else if |s| >= RBUF_SIZE {
      CutUnterminated(s[RBUF_SIZE..]);
    }
  }

  /** Reads that cross no terminator of a stream whose lines fit never exceed the room in the buffer. */
  lemma {:induction false} FittingReadsAreLegal(pending: Text, chunks: seq<Text>)
    requires Unterminated(pending) && (forall c | c in chunks :: !Crosses(c)) && Fits(pending + Concat(chunks))
    ensures Legal(pending, chunks)
    decreases |chunks|
  {
    if chunks != [] {
      var c, rest := chunks[0], Concat(chunks[1..]);
      assert c in chunks && pending + Concat(chunks) == (pending + c) + rest;
      if LineLength(c) == |c| {
        AppendUnterminated(pending, c);
        LongerLine(pending + c, rest);
        FittingReadsAreLegal(pending + c, chunks[1..]);
      } else {
        FirstLineFits(pending, c, rest);
        assert "" + rest == rest;
        FittingReadsAreLegal("", chunks[1..]);
      }
    }
  }

  /** Bytes accounted for: each line with its terminator, and the rest. */
  function Weight(r: (seq<Text>, Text)): nat
    decreases |r.0|
  {
    if r.0 == [] then |r.1| else |r.0[0]| + 1 + Weight((r.0[1..], r.1))
  }

  lemma {:induction false} LinesWeight(s: Text)
    ensures Weight(Lines(s)) == |s|
    ensures forall l | l in Lines(s).0 :: Unterminated(l)
    decreases |s|
  {
    var n := LineLength(s);
    if n < |s| {
      LinesWeight(s[n + 1..]);
      var (lines, rest) := Lines(s[n + 1..]);
      assert Lines(s).0[1..] == lines;
    }
  }

  lemma WeightCons(line: Text, lines: seq<Text>, rest: Text)
    ensures Weight(([line] + lines, rest)) == |line| + 1 + Weight((lines, rest))
  {
    assert ([line] + lines)[1..] == lines;
  }

  lemma {:induction false} RunWeight(pending: Text, chunks: seq<Text>)
    requires Legal(pending, chunks)
    ensures Weight(Run(pending, chunks)) <= |pending| + |Concat(chunks)|
    decreases |chunks|
  {
    if chunks != [] {
      var (p, line) := Assemble(pending, chunks[0]);
      RunWeight(p, chunks[1..]);
      if line.Some? {
        var (lines, rest) := Run(p, chunks[1..]);
        WeightCons(line.value, lines, rest);
      }
    }
  }

  /** If nothing is lost and no line contains a terminator, no read crossed one. */
  lemma {:induction false} NothingLost(pending: Text, chunks: seq<Text>)
    requires Legal(pending, chunks) && Unterminated(pending)
    requires Weight(Run(pending, chunks)) == |pending| + |Concat(chunks)|
    requires forall l | l in Run(pending, chunks).0 :: Unterminated(l)
    ensures forall c | c in chunks :: !Crosses(c)
    decreases |chunks|
  {
    if chunks != [] {
      var c := chunks[0];
      var (p, line) := Assemble(pending, c);
      var (lines, rest) := Run(p, chunks[1..]);
      RunWeight(p, chunks[1..]);
      if line.None? {
        AppendUnterminated(pending, c);
      } else {
        WeightCons(line.value, lines, rest);
        assert line.value in Run(pending, chunks).0;
        if |pending + c| >= RBUF_SIZE && |c| > 0 { FullLine(pending, c); }
      }
      assert forall l | l in lines :: l in Run(pending, chunks).0;
      NothingLost(p, chunks[1..]);
    }
  }

  lemma PlainTail(pending: Text, c: Text)
    requires |c| > 0 && Unterminated((pending + c)[..|pending + c| - 1])
    ensures PlainTo(c, |c| - 1)
  {
    assert forall i | 0 <= i < |c| - 1 :: c[i] == (pending + c)[..|pending + c| - 1][|pending| + i];
  }

  lemma FullLine(pending: Text, c: Text)
    requires |c| > 0 && |pending + c| == RBUF_SIZE && Unterminated((pending + c)[..RBUF_SIZE - 1])
    ensures !Crosses(c)
  {
    PlainTail(pending, c);
  }

  // ---------------------------------------------------------------- main results

  /**
   * Cutting a stream into reads gives exactly its lines if and only if all lines fit the buffer and no read crosses a
   * terminator: what lies behind one in the same read is dropped.
   */
  lemma ChunkingIff(chunks: seq<Text>)
    requires Legal("", chunks)
    ensures Run("", chunks) == Lines(Concat(chunks)) <==>
              Fits(Concat(chunks)) && forall c | c in chunks :: !Crosses(c)
  {
    var s := Concat(chunks);
    assert "" + s == s;
    CutIsLinesIff(s);
    if forall c | c in chunks :: !Crosses(c) {
      AlignedReads("", chunks);
    } else if Run("", chunks) == Lines(s) {
      LinesWeight(s);
      NothingLost("", chunks);
    }
  }

  // ---------------------------------------------------------------- every legal sequence of reads

  /** One read with room to spare: the line is what precedes the terminator, what follows it is dropped. */
  lemma OneRead(line: Text, t: char, dropped: Text)
    requires (forall c | c in line :: c !in {'\r', '\n', '\0'}) && t in {'\r', '\n', '\0'}
    requires |line| + 1 + |dropped| < 128
    ensures Run("", [line + [t] + dropped]) == ([line], "")
  {
    var c := line + [t] + dropped;
    assert forall i | 0 <= i < |line| :: line[i] in line;
    LineAt(c, line, t, dropped);
    assert "" + c == c && Assemble("", c) == ("", Some(line));
    var chunks := [line + [t] + dropped];
    assert chunks[0] == c && chunks[1..] == [] && Run("", chunks[1..]) == ([], "");
    assert Run("", chunks).0 == [line] + [] == [line];
  }

  /** Plain plain that do not fill the buffer complete no line. */
  lemma {:induction false} OpenReads(pending: Text, plain: seq<Text>)
    requires (forall r | r in plain :: Unterminated(r)) && |pending + Concat(plain)| < 128
    ensures Run(pending, plain) == ([], pending + Concat(plain))
    decreases |plain|
  {
    if plain == [] {
      assert pending + "" == pending;
    } else {
      PlainRead(pending, plain[0]);
      assert pending + Concat(plain) == (pending + plain[0]) + Concat(plain[1..]);
      OpenReads(pending + plain[0], plain[1..]);
    }
  }

  lemma PlainRead(pending: Text, c: Text)
    requires Unterminated(c) && |pending + c| < 128
    ensures Assemble(pending, c) == (pending + c, None)
  {
    assert PlainTo(c, |c|);
    LineLengthIs(c, |c|);
  }

  /**
   * Any number of plain plain, then one that has a terminator or fills the buffer, then any others: they complete one
   * line, the text up to the first terminator or, unscanned, the first 127 of 128 characters.
   */
  lemma {:induction false} LineOfReads(pending: Text, plain: seq<Text>, last: Text, later: seq<Text>)
    requires Unterminated(pending) && forall r | r in plain :: Unterminated(r)
    requires |pending + Concat(plain)| < 128 && |pending + Concat(plain) + last| <= 128
    requires !Unterminated(last) || |pending + Concat(plain) + last| == 128
    ensures var text := pending + Concat(plain) + last;
            Run(pending, plain + [last] + later) ==
              ConsLine(if |text| == 128 then text[..127] else text[..LineLength(text)], Run("", later))
    decreases |plain|
  {
    var all := plain + [last] + later;
    if plain == [] {
      assert all[0] == last && all[1..] == later && pending + "" == pending;
      LastRead(pending, last);
    } else {
      assert all[0] == plain[0] && all[1..] == plain[1..] + [last] + later;
      assert pending + Concat(plain) == (pending + plain[0]) + Concat(plain[1..]);
      PlainRead(pending, plain[0]);
      LineOfReads(pending + plain[0], plain[1..], last, later);
    }
  }

  lemma LastRead(pending: Text, last: Text)
    requires Unterminated(pending) && |pending| < 128 && |pending + last| <= 128
    requires !Unterminated(last) || |pending + last| == 128
    ensures var text := pending + last;
            Assemble(pending, last) == ("", Some(if |text| == 128 then text[..127] else text[..LineLength(text)]))
  {
    var text, n := pending + last, LineLength(last);
    if |text| < 128 {
      assert n < |last|;
      AppendUnterminatedPart(pending, last, n);
      assert text == (pending + last[..n]) + [last[n]] + last[n + 1..];
      LineAt(text, pending + last[..n], last[n], last[n + 1..]);
    }
  }

  /** A read that leaves the buffer full is not looked at. */
  predicate Fills(pending: Text, c: Text) { |pending| + |c| == 128 }

  /** The part of a read that counts: all of it if it fills the buffer, else none behind its first terminator. */
  function Kept(pending: Text, c: Text): Text {
    if Fills(pending, c) || LineLength(c) == |c| then c else c[..LineLength(c) + 1]
  }

  /** The text waiting after a read. */
  function Waiting(pending: Text, c: Text): Text {
    if Fills(pending, c) || LineLength(c) < |c| then "" else pending + c
  }

  function KeptReads(pending: Text, chunks: seq<Text>): seq<Text>
    decreases |chunks|
  {
    if chunks == [] then [] else [Kept(pending, chunks[0])] + KeptReads(Waiting(pending, chunks[0]), chunks[1..])
  }

  /** A read that fills the buffer has a terminator before the last place. */
  predicate Overlooks(pending: Text, c: Text) { Fills(pending, c) && |pending| + LineLength(c) < 127 }

  predicate NoneOverlooked(pending: Text, chunks: seq<Text>)
    decreases |chunks|
  {
    chunks == [] || (!Overlooks(pending, chunks[0]) && NoneOverlooked(Waiting(pending, chunks[0]), chunks[1..]))
  }

  /**
   * For every legal sequence of reads: they hand over what is kept of them, cut at its terminators and at 128
   * characters, if and only if no terminator is overlooked in a read that fills the buffer.
   */
  lemma {:induction false} KeptRunIff(pending: Text, chunks: seq<Text>)
    requires Unterminated(pending) && |pending| < RBUF_SIZE && Legal(pending, chunks)
    ensures Run(pending, chunks) == Cut(pending + Concat(KeptReads(pending, chunks))) <==>
              NoneOverlooked(pending, chunks)
    decreases |chunks|
  {
    if chunks == [] {
      assert pending + "" == pending;
      LineLengthIs(pending, |pending|);
    } else {
      var c := chunks[0];
      var rest := Concat(KeptReads(Waiting(pending, c), chunks[1..]));
      assert pending + Concat(KeptReads(pending, chunks)) == pending + Kept(pending, c) + rest;
      if Overlooks(pending, c) {
        OverlookedDiffers(pending, c, rest);
      } else {
        KeptLine(pending, c, rest);
        KeptRunIff(Waiting(pending, c), chunks[1..]);
        assert "" + rest == rest;
        SameCons(FirstPart(pending, c), Run("", chunks[1..]), Cut(rest));
      }
    }
  }

  lemma OverlookedDiffers(pending: Text, c: Text, rest: Text)
    requires Unterminated(pending) && |pending| < RBUF_SIZE && Overlooks(pending, c)
    ensures var s := Cut(pending + c + rest).0; s != [] && |s[0]| < 127
    ensures Assemble(pending, c).1.Some? && |Assemble(pending, c).1.value| == 127
  {
    var s, n := pending + c + rest, LineLength(c);
    AppendUnterminatedPart(pending, c, n);
    assert s == (pending + c[..n]) + [c[n]] + (c[n + 1..] + rest);
    LineAt(s, pending + c[..n], c[n], c[n + 1..] + rest);
  }

  function FirstPart(pending: Text, c: Text): Text
    requires |pending| < RBUF_SIZE
  {
    if Fills(pending, c) then (pending + c)[..127] else pending + c[..LineLength(c)]
  }

  /** Unless a terminator is overlooked, a read completes the same line as its kept part. */
  lemma KeptLine(pending: Text, c: Text, rest: Text)
    requires Unterminated(pending) && |pending| < RBUF_SIZE && |pending + c| <= RBUF_SIZE && !Overlooks(pending, c)
    ensures var (p, line) := Assemble(pending, c);
            && p == Waiting(pending, c) && Unterminated(p) && |p| < RBUF_SIZE
            && (line.Some? ==> line.value == FirstPart(pending, c))
            && (line.None? <==> !Fills(pending, c) && LineLength(c) == |c|)
            && Cut(pending + Kept(pending, c) + rest) ==
                 if line.None? then Cut(p + rest) else ConsLine(line.value, Cut(rest))
  {
    var k := Kept(pending, c);
    if !Fills(pending, c) && LineLength(c) < |c| {
      var n := LineLength(c);
      LineLengthIs(k, n);
      assert (pending + c)[..|pending| + n] == pending + c[..n] == (pending + k)[..|pending| + n];
    } else if LineLength(c) == |c| {
      AppendUnterminated(pending, c);
    }
    FirstLine(pending, k, rest);
  }

  // ---------------------------------------------------------------- the commands of a stream

  /** How the handlers answer, line by line: equal lines may be answered differently. */
  type Drivers = nat -> Driver

  predicate StopsAt(r: Reply) { r.Done? && r.shutdown }

  /** Replies to a sequence of lines after `k` earlier ones, up to and including the first shutdown. */
  function Session(table: seq<Entry>, lines: seq<Text>, k: nat, drivers: Drivers): seq<Reply> {
    if lines == [] then [] else
      var r := Exec(table, CString(lines[0]), drivers(k));
      [r] + if StopsAt(r) then [] else Session(table, lines[1..], k + 1, drivers)
  }

  ghost predicate IsExitLine(line: Text) {
    var toks := Tokens(line);
    |toks| == 1 && IsExitWord(toks[0])
  }

  /** Number of lines served: up to and including the first exit line. */
  ghost function Served(lines: seq<Text>): (n: nat)
    ensures n <= |lines|
  {
    if lines == [] then 0 else if IsExitLine(lines[0]) then 1 else 1 + Served(lines[1..])
  }

  lemma {:induction false} CStringOfPlain(s: Text)
    requires Unterminated(s)
    ensures CString(s) == s
  {
    if s != "" { CStringOfPlain(s[1..]); }
  }

  /** Exit lines, and no others, stop the loop, whatever the handlers answer. */
  ghost predicate KnowsExit(table: seq<Entry>) {
    forall text: Text, driver: Driver :: StopsAt(Exec(table, text, driver)) <==> IsExitLine(text)
  }

  /** The replies to the lines served after `k` earlier ones. */
  function Replies(table: seq<Entry>, lines: seq<Text>, n: nat, k: nat, drivers: Drivers): seq<Reply>
    requires n <= |lines|
  {
    seq(n, j requires 0 <= j < n => Exec(table, lines[j], drivers(k + j)))
  }

  lemma RepliesCons(table: seq<Entry>, lines: seq<Text>, n: nat, k: nat, drivers: Drivers)
    requires 0 < n <= |lines|
    ensures Replies(table, lines, n, k, drivers) ==
              [Exec(table, lines[0], drivers(k))] + Replies(table, lines[1..], n - 1, k + 1, drivers)
  {
    var all, later := Replies(table, lines, n, k, drivers), Replies(table, lines[1..], n - 1, k + 1, drivers);
    forall j | 0 < j < n ensures all[j] == later[j - 1] {
      assert k + j == k + 1 + (j - 1);
    }
  }

  /** The lines as the command parser sees them: up to the first NUL. */
  function Heard(lines: seq<Text>): (heard: seq<Text>)
    ensures |heard| == |lines|
  {
    if lines == [] then [] else [CString(lines[0])] + Heard(lines[1..])
  }

  lemma {:induction false} HeardPlain(lines: seq<Text>)
    requires forall l | l in lines :: Unterminated(l)
    ensures Heard(lines) == lines
  {
    if lines != [] {
      assert lines[0] in lines;
      CStringOfPlain(lines[0]);
      HeardPlain(lines[1..]);
    }
  }

  lemma {:induction false} SessionServes(table: seq<Entry>, lines: seq<Text>, k: nat, drivers: Drivers)
    requires KnowsExit(table)
    ensures Session(table, lines, k, drivers) == Replies(table, Heard(lines), Served(Heard(lines)), k, drivers)
  {
    if lines != [] {
      var l, heard := CString(lines[0]), Heard(lines);
      assert heard[0] == l && heard[1..] == Heard(lines[1..]);
      RepliesCons(table, heard, Served(heard), k, drivers);
      assert StopsAt(Exec(table, l, drivers(k))) <==> IsExitLine(l);
      if !IsExitLine(l) { SessionServes(table, lines[1..], k + 1, drivers); }
    }
  }

  /**
   * End to end, for every legal sequence of reads: each line they complete is executed once, in order, up to the first
   * exit line; and unless a terminator is overlooked in a read that fills the buffer, these are the lines of what is
   * kept of the reads.
   */
  lemma StreamServed(spectrum: bool, chunks: seq<Text>, drivers: Drivers)
    requires Legal("", chunks)
    ensures var lines := Heard(Run("", chunks).0);
            && Session(Table(spectrum), Run("", chunks).0, 0, drivers) ==
                 Replies(Table(spectrum), lines, Served(lines), 0, drivers)
            && (NoneOverlooked("", chunks) ==> lines == Cut(Concat(KeptReads("", chunks))).0)
  {
    var kept := Concat(KeptReads("", chunks));
    assert "" + kept == kept;
    KeptRunIff("", chunks);
    CutUnterminated(kept);
    HeardPlain(Cut(kept).0);
    forall text: Text, driver: Driver
      ensures StopsAt(Exec(Table(spectrum), text, driver)) <==> IsExitLine(text)
    {
      ShutdownIff(spectrum, text, driver);
    }
    SessionServes(Table(spectrum), Run("", chunks).0, 0, drivers);
  }

  // ---------------------------------------------------------------- the loop

  /** What one turn of the loop meets; an idle or failed turn leaves the buffer alone. */
  datatype Turn = Idle | ReadError | Bytes(chunk: Text)

  function ChunkOf(turn: Turn): Text { if turn.Bytes? then turn.chunk else "" }

  /** What is read from turn `i` on. */
  function ChunksFrom(turns: seq<Turn>, i: nat): seq<Text>
    requires i <= |turns|
    decreases |turns| - i
  {
    if i == |turns| then [] else [ChunkOf(turns[i])] + ChunksFrom(turns, i + 1)
  }

  /** A line the tokenizer can take. */
  predicate Acceptable(line: Option<Text>) {
    line.Some? ==> |Tokens(Upper(CString(line.value)))| <= MAX_ARGC
  }

  function Answer(table: seq<Entry>, line: Option<Text>, driver: Driver): Option<Reply> {
    if line.None? then None else Some(Exec(table, CString(line.value), driver))
  }

  /** A reply, if any, followed by later ones unless it shuts the loop down. */
  function Prepend(reply: Option<Reply>, later: seq<Reply>): seq<Reply> {
    if reply.None? then later else [reply.value] + if StopsAt(reply.value) then [] else later
  }

  /** Lines served once `reply`, if any, is given. */
  function ServedNext(served: nat, reply: Option<Reply>): nat { if reply.None? then served else served + 1 }

  /** All that is left to reply after `served` lines. */
  function Remaining(table: seq<Entry>, pending: Text, chunks: seq<Text>, served: nat, drivers: Drivers): seq<Reply> {
    Session(table, Run(pending, chunks).0, served, drivers)
  }

  /** The reads to come are legal and complete only lines the tokenizer can take. */
  predicate Ready(pending: Text, chunks: seq<Text>) {
    Legal(pending, chunks) && forall l | l in Run(pending, chunks).0 :: Acceptable(Some(l))
  }

  lemma {:induction false} CStringOfLine(s: Text)
    ensures CString(s + ['\0']) == CString(s)
  {
    if s != "" && s[0] != '\0' {
      assert (s + ['\0'])[1..] == s[1..] + ['\0'];
      CStringOfLine(s[1..]);
    }
  }

  /** The reply that shuts the loop down. */
  predicate Ends(reply: Option<Reply>) { reply.Some? && StopsAt(reply.value) }

  function AddReply(replies: seq<Reply>, reply: Option<Reply>): (all: seq<Reply>)
    ensures |all| == ServedNext(|replies|, reply)
  {
    if reply.None? then replies else replies + [reply.value]
  }

  lemma PrependAdds(replies: seq<Reply>, reply: Option<Reply>, later: seq<Reply>)
    ensures replies + Prepend(reply, later) == AddReply(replies, reply) + if Ends(reply) then [] else later
  {
  }

  lemma IdleTurn(pending: Text)
    requires |pending| < RBUF_SIZE
    ensures Assemble(pending, "") == (pending, None)
  {
    assert pending + "" == pending;
  }

  /** One read of the run and of the session. */
  lemma Unroll(table: seq<Entry>, pending: Text, chunk: Text, later: seq<Text>, served: nat, drivers: Drivers)
    requires Ready(pending, [chunk] + later)
    ensures |pending| + |chunk| <= RBUF_SIZE && Acceptable(Assemble(pending, chunk).1)
    ensures Ready(Assemble(pending, chunk).0, later)
    ensures var (p, line) := Assemble(pending, chunk);
            var reply := Answer(table, line, drivers(served));
            Remaining(table, pending, [chunk] + later, served, drivers) ==
              Prepend(reply, Remaining(table, p, later, ServedNext(served, reply), drivers))
  {
    assert ([chunk] + later)[1..] == later;
    var (p, line) := Assemble(pending, chunk);
    var lines := Run(p, later).0;
    if line.Some? {
      var all := [line.value] + lines;
      assert all == Run(pending, [chunk] + later).0 && all[1..] == lines && line.value in all;
      assert forall l | l in lines :: l in all;
    }
  }

  class Emulator {
    const cmdRbuf: array<char>
    var bufhead: nat
    var remain: nat

    ghost predicate Valid()
      reads this, cmdRbuf
    {
      && cmdRbuf.Length == RBUF_SIZE && bufhead + remain == RBUF_SIZE && remain > 0
      && Unterminated(cmdRbuf[..bufhead])
    }

    ghost function Pending(): Text
      requires bufhead <= cmdRbuf.Length
      reads this, cmdRbuf
    {
      cmdRbuf[..bufhead]
    }

    constructor ()
      ensures Valid() && fresh(cmdRbuf) && Pending() == ""
    {
      cmdRbuf := new char[RBUF_SIZE];
      bufhead, remain := 0, RBUF_SIZE;
    }

    /** read(READ_FD, bufhead, remain): the bytes land behind those already buffered. */
    method Read(chunk: Text)
      requires Valid() && |chunk| <= remain
      modifies cmdRbuf
      ensures cmdRbuf[..bufhead + |chunk|] == old(Pending()) + chunk
    {
      var i := 0;
      while i < |chunk|
        modifies cmdRbuf
        invariant 0 <= i <= |chunk| && cmdRbuf[..bufhead + i] == old(Pending()) + chunk[..i]
      {
        cmdRbuf[bufhead + i] := chunk[i];
        i := i + 1;
      }
    }

    /** Scan the bytes just read for a terminator; `bufhead` stops on it. */
    method Scan(sz: nat, ghost pending: Text, ghost chunk: Text) returns (found: bool)
      requires bufhead + sz <= cmdRbuf.Length && |pending| == bufhead && |chunk| == sz
      requires cmdRbuf[..bufhead + sz] == pending + chunk
      modifies this`bufhead
      ensures bufhead == old(bufhead) + LineLength(chunk)
      ensures found <==> LineLength(chunk) < sz
    {
      var n := 0;
      while n < sz
        invariant 0 <= n <= sz && bufhead == old(bufhead) + n && LineLength(chunk) == n + LineLength(chunk[n..])
      {
        assert cmdRbuf[bufhead] == cmdRbuf[..|pending| + sz][bufhead] == chunk[n];
        if cmdRbuf[bufhead] == '\r' || cmdRbuf[bufhead] == '\n' || cmdRbuf[bufhead] == '\0' {
          return true;
        }
        assert chunk[n..][1..] == chunk[n + 1..];
        n := n + 1;
        bufhead := bufhead + 1;
      }
      found := false;
    }

    /** Find the end of the line among `sz` new bytes; a full buffer counts as a line without a look. */
    method FindLine(sz: nat, ghost pending: Text, ghost chunk: Text) returns (found: bool)
      requires cmdRbuf.Length == RBUF_SIZE && bufhead == |pending| && bufhead + sz <= RBUF_SIZE && |chunk| == sz
      requires remain == RBUF_SIZE - bufhead - sz && cmdRbuf[..bufhead + sz] == pending + chunk && Unterminated(pending)
      modifies this`bufhead
      ensures var (p, line) := Assemble(pending, chunk);
              if found then bufhead < RBUF_SIZE && line == Some(cmdRbuf[..bufhead])
              else line == None && bufhead + remain == RBUF_SIZE && remain > 0
                   && cmdRbuf[..bufhead] == p && Unterminated(p)
    {
      if remain > 0 {
        found := Scan(sz, pending, chunk);
        if !found { AppendUnterminated(pending, chunk); }
      } else {
        bufhead := RBUF_SIZE - 1;
        found := true;
      }
      assert found ==> (pending + chunk)[..bufhead] == cmdRbuf[..bufhead];
    }

    /** One turn of the loop with input waiting. */
    method OnReadable(chunk: Text, table: seq<Entry>, driver: Driver) returns (reply: Option<Reply>)
      requires Valid() && |chunk| <= remain
      requires Acceptable(Assemble(Pending(), chunk).1)
      modifies this, cmdRbuf
      ensures Valid() && Pending() == Assemble(old(Pending()), chunk).0
      ensures reply == Answer(table, Assemble(old(Pending()), chunk).1, driver)
    {
      ghost var pending := Pending();
      Read(chunk);
      var sz := |chunk|;
      remain := remain - sz;
      var found := FindLine(sz, pending, chunk);
      if !found {
        return None;
      }
      ghost var text := cmdRbuf[..bufhead];
      cmdRbuf[bufhead] := '\0';
      assert cmdRbuf[..bufhead + 1] == text + ['\0'];
      CStringOfLine(text);
      var r := GnssAtcmdExec(table, cmdRbuf, bufhead + 1, driver);
      remain := RBUF_SIZE;
      bufhead := 0;
      return Some(r);
    }

    /** `todo` is what the loop has left to reply, with turn `i` next and `served` lines answered. */
    ghost predicate Owes(todo: seq<Reply>, turns: seq<Turn>, i: nat, table: seq<Entry>, served: nat, drivers: Drivers)
      reads this, cmdRbuf
    {
      && Valid() && i <= |turns| && Ready(Pending(), ChunksFrom(turns, i))
      && todo == Remaining(table, Pending(), ChunksFrom(turns, i), served, drivers)
    }

    /** One turn of the loop, whatever the poll reports. */
    method TakeTurn(turns: seq<Turn>, i: nat, table: seq<Entry>, served: nat, drivers: Drivers, ghost todo: seq<Reply>)
      returns (reply: Option<Reply>, ghost later: seq<Reply>)
      requires i < |turns| && Owes(todo, turns, i, table, served, drivers)
      modifies this, cmdRbuf
      ensures todo == Prepend(reply, later)
      ensures Owes(later, turns, i + 1, table, ServedNext(served, reply), drivers)
    {
      Unroll(table, Pending(), ChunkOf(turns[i]), ChunksFrom(turns, i + 1), served, drivers);
      reply := None;
      if turns[i].Bytes? {
        reply := OnReadable(turns[i].chunk, table, drivers(served));
      } else {
        IdleTurn(Pending());
      }
      later := Remaining(table, Pending(), ChunksFrom(turns, i + 1), ServedNext(served, reply), drivers);
    }

    /** atcmd_emulator's loop: stops on the shutdown code, otherwise after the given turns. */
    method Emulate(turns: seq<Turn>, table: seq<Entry>, drivers: Drivers) returns (replies: seq<Reply>)
      requires Valid() && Pending() == "" && Ready("", ChunksFrom(turns, 0))
      modifies this, cmdRbuf
      ensures replies == Session(table, Run("", ChunksFrom(turns, 0)).0, 0, drivers)
    {
      ghost var todo := Remaining(table, "", ChunksFrom(turns, 0), 0, drivers);
      replies := Loop(turns, table, drivers, todo);
    }

    /** The loop itself, with all it is going to reply. */
    method Loop(turns: seq<Turn>, table: seq<Entry>, drivers: Drivers, ghost want: seq<Reply>)
      returns (replies: seq<Reply>)
      requires Owes(want, turns, 0, table, 0, drivers)
      modifies this, cmdRbuf
      ensures replies == want
    {
      ghost var todo := want;
      replies := [];
      var stopped, i := false, 0;
      while i < |turns| && !stopped
        invariant 0 <= i <= |turns| && want == replies + todo
        invariant if stopped then todo == [] else Owes(todo, turns, i, table, |replies|, drivers)
      {
        var reply;
        reply, todo := TakeTurn(turns, i, table, |replies|, drivers, todo);
        PrependAdds(replies, reply, todo);
        replies := AddReply(replies, reply);
        stopped := Ends(reply);
        if stopped { todo := []; }
        i := i + 1;
      }
    }
  }
}
