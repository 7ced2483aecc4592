/** The line input of kernel/shell.c: `shell_getline` edits a line as characters arrive, echoes
    them to the screen and keeps the last 50 lines. */
module LineEditor {
  import opened Machine
  import Keyboard
  import Screen
  import Tokenizer

  const MAX_LINE := 512
  const LAST := 511  // the byte of a history slot that nothing ever writes
  const MAX_HISTORY := 50

  predicate Printable(c: char) { ' ' <= c <= '~' }

  predicate IsText(s: seq<char>) { forall i :: 0 <= i < |s| ==> Printable(s[i]) }

  // ---------------------------------------------------------------- editing

  /** One character: text goes to the end of the line, a backspace takes the last one away. */
  function Edit(line: seq<char>, c: char): seq<char> {
    if Printable(c) then line + [c]
    else if c == Keyboard.BACKSPACE && line != [] then line[..|line| - 1]
    else line
  }

  /** The line after the characters cs. */
  function Edited(cs: seq<char>): seq<char> {
    if cs == [] then [] else Edit(Edited(cs[..|cs| - 1]), cs[|cs| - 1])
  }

  lemma EditedMore(cs: seq<char>, c: char)
    ensures Edited(cs + [c]) == Edit(Edited(cs), c)
  {
    assert (cs + [c])[..|cs|] == cs;
  }

  /** The characters from space to tilde go to the end of the line, a backspace (8) takes the
      last one away if there is one, and everything else, tabs included, is ignored. */
  lemma OneCharacter(cs: seq<char>, c: char)
    ensures var line, line' := Edited(cs), Edited(cs + [c]);
            if 32 <= c as int <= 126 then line' == line + [c]
            else if c as int == 8 && line != [] then |line'| == |line| - 1 && line' <= line
            else line' == line
  {
    EditedMore(cs, c);
  }

  /** Character k is text, and no later backspace reaches back to it. */
  ghost predicate Survives(cs: seq<char>, k: int) {
    && 0 <= k < |cs| && Printable(cs[k])
    && forall m :: k < m <= |cs| ==> |Edited(cs[..m])| > |Edited(cs[..k])|
  }

  lemma SurvivesBefore(cs: seq<char>, k: int)
    requires cs != [] && 0 <= k < |cs| - 1
    ensures Survives(cs, k) <==> Survives(cs[..|cs| - 1], k) && |Edited(cs)| > |Edited(cs[..k])|
  {
    var init := cs[..|cs| - 1];
    assert cs[..|cs|] == cs;
    forall m | 0 <= m <= |init| ensures init[..m] == cs[..m] {}
    if Survives(init, k) && |Edited(cs)| > |Edited(cs[..k])| {
      forall m | k < m <= |cs| ensures |Edited(cs[..m])| > |Edited(cs[..k])| {
        if m < |cs| { assert |Edited(init[..m])| > |Edited(init[..k])|; }
      }
    }
    if Survives(cs, k) {
      forall m | k < m <= |init| ensures |Edited(init[..m])| > |Edited(init[..k])| {
        assert |Edited(cs[..m])| > |Edited(cs[..k])|;
      }
    }
  }

  /** A character that survives stands in the line where it was typed. */
  lemma {:induction false} SurvivorStands(cs: seq<char>, k: int)
    requires Survives(cs, k)
    ensures |Edited(cs[..k])| < |Edited(cs)| && Edited(cs)[|Edited(cs[..k])|] == cs[k]
    decreases |cs|
  {
    assert cs[..|cs|] == cs;
    if k < |cs| - 1 {
      SurvivesBefore(cs, k);
      SurvivorStands(cs[..|cs| - 1], k);
      assert cs[..|cs| - 1][..k] == cs[..k];
    }
  }

  /** And every character of the line is one that survived: with the above, the line is the
      surviving characters in order. */
  lemma {:induction false} LineIsSurvivors(cs: seq<char>, i: int) returns (k: int)
    requires 0 <= i < |Edited(cs)|
    ensures Survives(cs, k) && |Edited(cs[..k])| == i
    decreases |cs|
  {
    var init := cs[..|cs| - 1];
    if i < |Edited(init)| {
      k := LineIsSurvivors(init, i);
      assert init[..k] == cs[..k];
      SurvivesBefore(cs, k);
    } else {
      k := |init|;
      assert cs[..|cs|] == cs;
    }
  }

  lemma {:induction false} LineIsPrintable(cs: seq<char>)
    ensures IsText(Edited(cs))
    decreases |cs|
  {
    if cs != [] { LineIsPrintable(cs[..|cs| - 1]); }
  }

  // ---------------------------------------------------------------- where a line ends

  /** The characters cs leave the line open: no newline yet, and the buffer was never full. */
  ghost predicate Open(cs: seq<char>, size: int) {
    '\n' !in cs && forall m :: 0 <= m <= |cs| ==> |Edited(cs[..m])| < size - 1
  }

  /** How a call ends: out of input, by a newline, or because the buffer is full. */
  datatype Ending = Waiting | Entered | Full

  /** A call with a buffer of `size` takes exactly `used` characters of the input. */
  ghost predicate Takes(input: seq<char>, used: int, size: int, e: Ending) {
    && 0 <= used <= |input|
    && match e
       case Waiting => used == |input| && Open(input, size)
       case Entered => used > 0 && Open(input[..used - 1], size) && input[used - 1] == '\n'
       case Full =>
         && |Edited(input[..used])| == size - 1
         && (used > 0 ==> Open(input[..used - 1], size) && input[used - 1] != '\n')
  }

  lemma OpenPrefix(cs: seq<char>, k: int, size: int)
    requires Open(cs, size) && 0 <= k <= |cs|
    ensures Open(cs[..k], size) && |Edited(cs[..k])| < size - 1
  {
    forall m | 0 <= m <= k ensures |Edited(cs[..k][..m])| < size - 1 {
      assert cs[..k][..m] == cs[..m];
    }
  }

  lemma OpenGrows(cs: seq<char>, c: char, size: int)
    requires Open(cs, size) && c != '\n' && |Edited(cs + [c])| < size - 1
    ensures Open(cs + [c], size)
  {
    forall m | 0 <= m <= |cs| + 1 ensures |Edited((cs + [c])[..m])| < size - 1 {
      if m <= |cs| { assert (cs + [c])[..m] == cs[..m]; } else { assert (cs + [c])[..m] == cs + [c]; }
    }
  }

  lemma OneMoreTaken(input: seq<char>, used: int, size: int)
    requires 0 <= used < |input| && Open(input[..used], size)
    ensures input[..used + 1] == input[..used] + [input[used]]
    ensures Edited(input[..used + 1]) == Edit(Edited(input[..used]), input[used])
    ensures input[used] == '\n' ==> Takes(input, used + 1, size, Entered)
    ensures input[used] != '\n' && |Edited(input[..used + 1])| < size - 1 ==> Open(input[..used + 1], size)
    ensures input[used] != '\n' && |Edited(input[..used + 1])| == size - 1 ==> Takes(input, used + 1, size, Full)
  {
    var cs, c := input[..used], input[used];
    assert input[..used + 1] == cs + [c];
    EditedMore(cs, c);
    if c != '\n' && |Edited(cs + [c])| < size - 1 { OpenGrows(cs, c, size); }
  }

  lemma Prefixes(input: seq<char>, v: int, u: int)
    requires 0 <= u < v <= |input|
    ensures input[..v - 1][..u] == input[..u] && (u > 0 ==> input[u - 1] in input[..v - 1])
  {
    if u > 0 { assert input[..v - 1][u - 1] == input[u - 1]; }
  }

  /** A call that ends within the first characters of the input cannot go on beyond them. */
  lemma TakesNoMore(input: seq<char>, size: int, u: int, e: Ending, v: int, f: Ending)
    requires Takes(input, u, size, e) && Takes(input, v, size, f)
    ensures !(u < v)
  {
    if u < v {
      var open := if f.Waiting? then input else input[..v - 1];
      OpenPrefix(open, u, size);
      Prefixes(input, v, u);
    }
  }

  /** The input determines where the line ends and how. */
  lemma EndIsUnique(input: seq<char>, size: int, u: int, e: Ending, v: int, f: Ending)
    requires Takes(input, u, size, e) && Takes(input, v, size, f)
    ensures u == v && e == f
  {
    TakesNoMore(input, size, u, e, v, f);
    TakesNoMore(input, size, v, f, u, e);
    assert input[..|input|] == input;
    if e != f && u > 0 && (e.Waiting? || f.Waiting?) {
      OpenPrefix(input, u, size);
    }
  }

  lemma {:induction false} TypedText(text: seq<char>)
    requires IsText(text)
    ensures Edited(text) == text
    decreases |text|
  {
    if text != [] {
      var init, c := text[..|text| - 1], text[|text| - 1];
      TypedText(init);
      assert text == init + [c];
    }
  }

  /** Text that fits, typed and entered, comes back as the line, whatever follows it. */
  lemma TypedLineComesBack(text: seq<char>, rest: seq<char>, size: int)
    requires (forall i :: 0 <= i < |text| ==> 32 <= text[i] as int <= 126) && |text| < size - 1
    ensures Takes(text + ['\n'] + rest, |text| + 1, size, Entered)
    ensures Edited((text + ['\n'] + rest)[..|text| + 1]) == text
  {
    var input := text + ['\n'] + rest;
    assert input[..|text|] == text && input[..|text| + 1] == text + ['\n'];
    EditedMore(text, '\n');
    TypedText(text);
    forall m | 0 <= m <= |text| ensures |Edited(text[..m])| < size - 1 {
      TypedText(text[..m]);
    }
  }

  // ---------------------------------------------------------------- the echo

  function Code(c: char): byte { c as int % 256 }

  lemma CodeIsPlain(c: char)
    requires Printable(c)
    ensures Screen.Printable(Code(c)) && Code(c) == c as int
  {
  }

  function Codes(s: seq<char>): (r: seq<byte>)
    ensures |r| == |s|
  {
    if s == [] then [] else Codes(s[..|s| - 1]) + [Code(s[|s| - 1])]
  }

  /** What the screen is sent for one character. */
  function EchoOf(line: seq<char>, c: char): seq<byte> {
    if c == '\n' || Printable(c) then [Code(c)]
    else if c == Keyboard.BACKSPACE && line != [] then [Screen.BACKSPACE]
    else []
  }

  function Echo(cs: seq<char>): seq<byte> {
    if cs == [] then [] else Echo(cs[..|cs| - 1]) + EchoOf(Edited(cs[..|cs| - 1]), cs[|cs| - 1])
  }

  lemma WriteMore(t: Screen.Terminal, data: seq<byte>, more: seq<byte>)
    requires t.Valid() && |more| <= 1
    ensures Screen.Write(t, data + more) == Screen.Write(Screen.Write(t, data), more)
  {
    if more == [] {
      assert data + more == data;
    } else {
      assert (data + more)[..|data|] == data && more[..0] == [];
    }
  }

  lemma EchoMore(t: Screen.Terminal, cs: seq<char>, c: char)
    requires t.Valid()
    ensures Screen.Write(t, Echo(cs + [c])) == Screen.Write(Screen.Write(t, Echo(cs)), EchoOf(Edited(cs), c))
  {
    assert (cs + [c])[..|cs|] == cs;
    WriteMore(t, Echo(cs), EchoOf(Edited(cs), c));
  }

  /** Where the loop stops, the line is as the call leaves it. */
  lemma StopsThere(input: seq<char>, used: int, size: int, e: Ending, t: Screen.Terminal)
    requires 0 <= used <= |input| && t.Valid()
    requires if e.Full? then Takes(input, used, size, Full) else Open(input[..used], size)
    requires if e.Entered? then used < |input| && input[used] == '\n' else e.Waiting? ==> used == |input|
    ensures var taken := if e.Entered? then used + 1 else used;
            && Takes(input, taken, size, e) && Edited(input[..taken]) == Edited(input[..used])
            && Screen.Write(t, Echo(input[..taken])) ==
               Screen.Write(Screen.Write(t, Echo(input[..used])),
                            if e.Entered? then EchoOf(Edited(input[..used]), '\n') else [])
  {
    if e.Entered? {
      OneMoreTaken(input, used, size);
      EchoMore(t, input[..used], '\n');
    } else if e.Waiting? {
      assert input[..used] == input;
    }
  }

  lemma {:induction false} CodesArePlain(line: seq<char>)
    requires IsText(line)
    ensures Screen.PlainText(Codes(line))
    decreases |line|
  {
    if line != [] {
      CodesArePlain(line[..|line| - 1]);
      CodeIsPlain(line[|line| - 1]);
    }
  }

  /** The cursor behind a line that was written from column x on has wrapped to column 0. */
  predicate AtMargin(x: int, length: int) {
    length > 0 && (x + length) % Screen.WIDTH == 0
  }

  /** No backspace takes away a character after which the cursor wrapped. */
  ghost predicate ErasesCleanly(x: int, cs: seq<char>) {
    forall k :: 0 <= k < |cs| && cs[k] == Keyboard.BACKSPACE ==> !AtMargin(x, |Edited(cs[..k])|)
  }

  lemma CleanBefore(x: int, cs: seq<char>)
    requires cs != []
    ensures ErasesCleanly(x, cs) <==>
            && ErasesCleanly(x, cs[..|cs| - 1])
            && (cs[|cs| - 1] == Keyboard.BACKSPACE ==> !AtMargin(x, |Edited(cs[..|cs| - 1])|))
  {
    var init := cs[..|cs| - 1];
    forall k | 0 <= k < |init| ensures init[..k] == cs[..k] && init[k] == cs[k] {}
    if !ErasesCleanly(x, init) {
      var k :| 0 <= k < |init| && init[k] == Keyboard.BACKSPACE && AtMargin(x, |Edited(init[..k])|);
      assert cs[k] == Keyboard.BACKSPACE && AtMargin(x, |Edited(cs[..k])|);
    }
  }

  lemma {:induction false} BlankBehindLine(t: Screen.Terminal, line: seq<char>)
    requires Screen.BlankAhead(t) && IsText(line)
    ensures Screen.BlankAhead(Screen.Write(t, Codes(line)))
    decreases |line|
  {
    if line != [] {
      var init, c := line[..|line| - 1], line[|line| - 1];
      BlankBehindLine(t, init);
      WriteMore(t, Codes(init), [Code(c)]);
      CodeIsPlain(c);
      Screen.BlankAheadStays(Screen.Write(t, Codes(init)), Code(c));
    }
  }

  /** The column n cells behind t. */
  lemma ColumnBehind(t: Screen.Terminal, n: int, u: Screen.Terminal)
    requires t.Valid() && u.Valid() && n >= 0 && Screen.Position(u) == Screen.Position(t) + n
    ensures AtMargin(t.x, n) ==> u.x == 0
    ensures u.x == Screen.WIDTH - 1 <==> AtMargin(t.x, n + 1)
  {
  }

  lemma CodesMore(line: seq<char>, c: char)
    ensures Codes(line + [c]) == Codes(line) + [Code(c)]
  {
    assert (line + [c])[..|line|] == line;
  }

  /** Taking the last character of a written line away on the screen, when it did not wrap. */
  lemma LastErased(t: Screen.Terminal, line: seq<char>, c: char, u: Screen.Terminal, w: Screen.Terminal)
    requires Screen.BlankAhead(t) && IsText(line) && Printable(c) && !AtMargin(t.x, |line| + 1)
    requires u == Screen.Write(t, Codes(line)) && w == Screen.Write(t, Codes(line + [c]))
    ensures Screen.Put(w, Screen.BACKSPACE) == u
  {
    BlankBehindLine(t, line);
    CodesArePlain(line);
    CodesMore(line, c);
    CodeIsPlain(c);
    WriteMore(t, Codes(line), [Code(c)]);
    Screen.WriteOne(u, Code(c));
    Screen.TextAdvances(t, Codes(line));
    ErasedAt(t, |line|, Code(c), u, w);
  }

  lemma ErasedAt(t: Screen.Terminal, n: nat, c: byte, u: Screen.Terminal, w: Screen.Terminal)
    requires t.Valid() && Screen.BlankAhead(u) && Screen.Position(u) == Screen.Position(t) + n
    requires !AtMargin(t.x, n + 1) && Screen.Printable(c) && w == Screen.Put(u, c)
    ensures Screen.Put(w, Screen.BACKSPACE) == u
  {
    ColumnBehind(t, n, u);
    Screen.BackspaceUndoesIff(u, c);
  }

  /** The screen u shows the edited line and so does w after one more character. */
  lemma EchoFollows(t: Screen.Terminal, line: seq<char>, c: char, u: Screen.Terminal)
    requires Screen.BlankAhead(t) && c != '\n' && IsText(line)
    requires c == Keyboard.BACKSPACE ==> !AtMargin(t.x, |line|)
    requires u == Screen.Write(t, Codes(line))
    ensures Screen.Write(u, EchoOf(line, c)) == Screen.Write(t, Codes(Edit(line, c)))
  {
    if Printable(c) {
      CodesMore(line, c);
      WriteMore(t, Codes(line), [Code(c)]);
    } else if c == Keyboard.BACKSPACE && line != [] {
      var shorter, last := line[..|line| - 1], line[|line| - 1];
      assert line == shorter + [last];
      LastErased(t, shorter, last, Screen.Write(t, Codes(shorter)), u);
      Screen.WriteOne(u, Screen.BACKSPACE);
    }
  }

  lemma {:induction false} ScreenFollows(t: Screen.Terminal, cs: seq<char>)
    requires Screen.BlankAhead(t) && '\n' !in cs && ErasesCleanly(t.x, cs)
    ensures Screen.Write(t, Echo(cs)) == Screen.Write(t, Codes(Edited(cs)))
    decreases |cs|
  {
    if cs != [] {
      var init, c := cs[..|cs| - 1], cs[|cs| - 1];
      CleanBefore(t.x, cs);
      ScreenFollows(t, init);
      LineIsPrintable(init);
      WriteMore(t, Echo(init), EchoOf(Edited(init), c));
      EchoFollows(t, Edited(init), c, Screen.Write(t, Codes(Edited(init))));
    }
  }

  lemma EchoedColumn(t: Screen.Terminal, cs: seq<char>)
    requires Screen.BlankAhead(t) && '\n' !in cs && ErasesCleanly(t.x, cs)
    ensures Screen.Position(Screen.Write(t, Echo(cs))) == Screen.Position(t) + |Edited(cs)|
    ensures AtMargin(t.x, |Edited(cs)|) ==> Screen.Write(t, Echo(cs)).x == 0
  {
    ScreenFollows(t, cs);
    LineIsPrintable(cs);
    CodesArePlain(Edited(cs));
    Screen.TextAdvances(t, Codes(Edited(cs)));
    ColumnBehind(t, |Edited(cs)|, Screen.Write(t, Echo(cs)));
  }

  /** How far one character moves the cursor. */
  lemma EchoMoves(t: Screen.Terminal, line: seq<char>, c: char)
    requires t.Valid() && c != '\n'
    ensures Screen.Position(Screen.Write(t, EchoOf(line, c))) >= Screen.Position(t) + |Edit(line, c)| - |line|
    ensures c == Keyboard.BACKSPACE && t.x == 0 ==> Screen.Write(t, EchoOf(line, c)) == t
  {
    if Printable(c) {
      CodeIsPlain(c);
      Screen.WriteOne(t, Code(c));
      Screen.PutPrintable(t, Code(c), 0);
    } else if EchoOf(line, c) != [] {
      Screen.WriteOne(t, Screen.BACKSPACE);
      Screen.BackspaceMoves(t);
    }
  }

  /** One lost backspace leaves the cursor too far on for the rest of the line. */
  lemma {:induction false} ScreenDrifts(t: Screen.Terminal, cs: seq<char>)
    requires Screen.BlankAhead(t) && '\n' !in cs && !ErasesCleanly(t.x, cs)
    ensures Screen.Position(Screen.Write(t, Echo(cs))) > Screen.Position(t) + |Edited(cs)|
    decreases |cs|
  {
    var init, c := cs[..|cs| - 1], cs[|cs| - 1];
    var line := Edited(init);
    CleanBefore(t.x, cs);
    WriteMore(t, Echo(init), EchoOf(line, c));
    EchoMoves(Screen.Write(t, Echo(init)), line, c);
    if ErasesCleanly(t.x, init) {
      EchoedColumn(t, init);
    } else {
      ScreenDrifts(t, init);
    }
  }

  /** What is on the screen while a line is typed is the line itself, as if written in one go,
      exactly when no backspace took away a character after which the cursor wrapped. */
  lemma ScreenShowsLineIff(t: Screen.Terminal, cs: seq<char>)
    requires Screen.BlankAhead(t) && '\n' !in cs
    ensures Screen.Write(t, Echo(cs)) == Screen.Write(t, Codes(Edited(cs))) <==> ErasesCleanly(t.x, cs)
  {
    if ErasesCleanly(t.x, cs) {
      ScreenFollows(t, cs);
    } else {
      ScreenDrifts(t, cs);
      LineIsPrintable(cs);
      CodesArePlain(Edited(cs));
      Screen.TextAdvances(t, Codes(Edited(cs)));
    }
  }

  lemma TypeAndErase(cs: seq<char>)
    requires cs == ['a', Keyboard.BACKSPACE]
    ensures Edited(cs[..1]) == ['a'] && Edited(cs) == []
  {
    assert cs == [] + ['a'] + [Keyboard.BACKSPACE] && cs[..1] == [] + ['a'];
    EditedMore([], 'a');
    EditedMore([] + ['a'], Keyboard.BACKSPACE);
  }

  /** The newline that enters a line goes to the start of the next row. */
  lemma EnterEchoes(t: Screen.Terminal, cs: seq<char>, u: Screen.Terminal, v: Screen.Terminal)
    requires t.Valid() && u == Screen.Write(t, Echo(cs)) && v == Screen.Write(t, Echo(cs + ['\n']))
    ensures v == Screen.Put(u, 10) && v.x == 0 && v.y == u.y + 1
  {
    EchoMore(t, cs, '\n');
    EnterIsEchoed(Edited(cs));
    Screen.WriteOne(u, 10);
    Screen.NewlineStartsRow(u);
  }

  lemma EnterIsEchoed(line: seq<char>)
    ensures EchoOf(line, '\n') == [10]
  {
  }

  /** It can fail: at the right margin the screen keeps a character that the line has lost. */
  lemma MarginKeepsErased(t: Screen.Terminal, cs: seq<char>)
    requires Screen.BlankAhead(t) && t.x == Screen.WIDTH - 1 && cs == ['a', Keyboard.BACKSPACE]
    ensures Edited(cs) == [] && Screen.Write(t, Echo(cs)) != Screen.Write(t, Codes([]))
  {
    TypeAndErase(cs);
    ScreenShowsLineIff(t, cs);
    assert cs[1] == Keyboard.BACKSPACE && AtMargin(t.x, |Edited(cs[..1])|);
  }

  /** The echo never moves the cursor back over text, so the blanks ahead of it stay from line
      to line. */
  lemma {:induction false} BlankAheadOfEcho(t: Screen.Terminal, cs: seq<char>)
    requires Screen.BlankAhead(t)
    ensures Screen.BlankAhead(Screen.Write(t, Echo(cs)))
    decreases |cs|
  {
    if cs != [] {
      var init, c := cs[..|cs| - 1], cs[|cs| - 1];
      var echo := EchoOf(Edited(init), c);
      BlankAheadOfEcho(t, init);
      WriteMore(t, Echo(init), echo);
      if echo != [] {
        if Printable(c) { CodeIsPlain(c); }
        Screen.WriteOne(Screen.Write(t, Echo(init)), echo[0]);
        Screen.BlankAheadStays(Screen.Write(t, Echo(init)), echo[0]);
      }
    }
  }

  // ---------------------------------------------------------------- the shell

  /** What fits into a slot of the history. */
  function Kept(line: seq<char>): seq<char> {
    if |line| < MAX_LINE then line else line[..LAST]
  }

  /** Slot j of the history holds the line, and NULs behind it. */
  ghost predicate Holds(history: array2<char>, j: int, line: seq<char>)
    requires history.Length0 == MAX_HISTORY && history.Length1 == MAX_LINE && 0 <= j < MAX_HISTORY
    reads history
  {
    && |line| < MAX_LINE
    && forall i :: 0 <= i < MAX_LINE ==> history[j, i] == if i < |line| then line[i] else NUL
  }

  class Shell {
    const screen: Screen.Display
    const history: array2<char>
    var histCount: int
    var histIdx: int
    /** Every line ever recorded. */
    ghost var lines: seq<seq<char>>

    constructor (screen: Screen.Display)
      requires screen.Valid()
      ensures Valid() && lines == [] && this.screen == screen && fresh(history)
    {
      this.screen := screen;
      history := new char[MAX_HISTORY, MAX_LINE]((i, j) => NUL);
      histCount, histIdx, lines := 0, 0, [];
    }

    /** The history holds the last 50 recorded lines, line k in slot k modulo 50. */
    ghost predicate Valid()
      reads this, screen, screen.buffer, history
    {
      && screen.Valid()
      && history.Length0 == MAX_HISTORY && history.Length1 == MAX_LINE
      && histCount == histIdx == |lines|
      && (forall j :: 0 <= j < MAX_HISTORY ==> history[j, LAST] == NUL)
      && (forall k :: 0 <= k < |lines| && k >= |lines| - MAX_HISTORY ==> Holds(history, k % MAX_HISTORY, lines[k]))
    }

    /** `strncpy` of a string into a slot: its characters, then NULs up to byte 511. */
    method CopyLine(j: int, buf: array<char>, ghost line: seq<char>)
      requires history.Length0 == MAX_HISTORY && history.Length1 == MAX_LINE && 0 <= j < MAX_HISTORY
      requires IsText(line) && |line| < buf.Length && buf[..|line|] == line && buf[|line|] == NUL
      requires history[j, LAST] == NUL
      modifies history
      ensures Holds(history, j, Kept(line))
      ensures forall i :: 0 <= i < 512 ==> history[j, i] == if i < |line| && i < 511 then line[i] else NUL
      ensures forall a, i :: 0 <= a < MAX_HISTORY && a != j && 0 <= i < MAX_LINE ==> history[a, i] == old(history[a, i])
    {
      var i := 0;
      while i < LAST && buf[i] != NUL
        invariant 0 <= i <= |line| && i < MAX_LINE && history[j, LAST] == NUL
        invariant forall k :: 0 <= k < i ==> history[j, k] == line[k]
        invariant forall a, k :: 0 <= a < MAX_HISTORY && a != j && 0 <= k < MAX_LINE ==>
                    history[a, k] == old(history[a, k])
      {
        history[j, i] := buf[i];
        i := i + 1;
      }
      ghost var n := i;
      while i < LAST
        invariant n <= i < MAX_LINE && history[j, LAST] == NUL
        invariant forall k :: 0 <= k < i ==> history[j, k] == if k < n then line[k] else NUL
        invariant forall a, k :: 0 <= a < MAX_HISTORY && a != j && 0 <= k < MAX_LINE ==>
                    history[a, k] == old(history[a, k])
      {
        history[j, i] := NUL;
        i := i + 1;
      }
      assert |Kept(line)| == n;
    }

    /** A line entered with at least one character goes into the next slot. */
    method Record(buf: array<char>, ghost line: seq<char>)
      requires Valid() && line != [] && IsText(line) && |line| < buf.Length
      requires buf[..|line|] == line && buf[|line|] == NUL
      modifies this`histCount, this`histIdx, this`lines, history
      ensures Valid() && lines == old(lines) + [Kept(line)]
      ensures forall k :: 0 <= k < |lines| && |lines| - 50 <= k ==> Holds(history, k % 50, lines[k])
    {
      CopyLine(histCount % MAX_HISTORY, buf, line);
      histCount := histCount + 1;
      histIdx := histCount;
      lines := lines + [Kept(line)];
      forall k | 0 <= k < |lines| && k >= |lines| - MAX_HISTORY ensures Holds(history, k % MAX_HISTORY, lines[k]) {
        SlotsDiffer(k, |lines| - 1);
        assert k < |lines| - 1 ==> old(Holds(history, k % MAX_HISTORY, lines[k]));
      }
    }

    /** One character of the line: edit the buffer and echo. */
    method TypeChar(buf: array<char>, i: int, c: char) returns (i': int)
      requires screen.Valid() && 0 <= i < buf.Length - 1 && c != '\n'
      modifies buf, screen`cursorX, screen`cursorY, screen`terminal, screen.buffer
      ensures screen.Valid() && 0 <= i' < buf.Length && buf[..i'] == Edit(old(buf[..i]), c)
      ensures screen.terminal == Screen.Write(old(screen.terminal), EchoOf(old(buf[..i]), c))
    {
      i' := i;
      if c == Keyboard.BACKSPACE {
        if i > 0 {
          i' := i - 1;
          Screen.WriteOne(screen.terminal, Screen.BACKSPACE);
          screen.Putchar(Screen.BACKSPACE);
          assert buf[..i'] == buf[..i][..|buf[..i]| - 1];
        }
      } else if ' ' <= c <= '~' {
        buf[i] := c;
        i' := i + 1;
        Screen.WriteOne(screen.terminal, Code(c));
        screen.Putchar(Code(c));
      }
    }

    /** The newline: end the line, echo, and record it unless it is empty. */
    method EndLine(buf: array<char>, i: int, ghost line: seq<char>)
      requires Valid() && 0 <= i < buf.Length && buf[..i] == line && IsText(line)
      modifies this`histCount, this`histIdx, this`lines, history, buf
      modifies screen`cursorX, screen`cursorY, screen`terminal, screen.buffer
      ensures Valid() && buf[..i] == line && Tokenizer.LineEnd(buf[..], i)
      ensures lines == old(lines) + (if line != [] then [Kept(line)] else [])
      ensures screen.terminal == Screen.Write(old(screen.terminal), EchoOf(line, '\n'))
    {
      buf[i] := NUL;
      Screen.WriteOne(screen.terminal, Screen.NEWLINE);
      screen.Putchar(Screen.NEWLINE);
      if i > 0 {
        Record(buf, line);
      }
    }

    /** The loop of `shell_getline` up to the newline, the full buffer or the end of the input. */
    method TypeLine(buf: array<char>, input: seq<char>) returns (used: int, i: int)
      requires screen.Valid() && buf.Length > 0
      modifies buf, screen`cursorX, screen`cursorY, screen`terminal, screen.buffer
      ensures screen.Valid() && 0 <= used <= |input| && 0 <= i < buf.Length && buf[..i] == Edited(input[..used])
      ensures screen.terminal == Screen.Write(old(screen.terminal), Echo(input[..used]))
      ensures if i == buf.Length - 1 then Takes(input, used, buf.Length, Full)
              else Open(input[..used], buf.Length) && (used == |input| || input[used] == '\n')
    {
      used, i := 0, 0;
      while i < buf.Length - 1 && used < |input| && input[used] != '\n'
        invariant screen.Valid()
        invariant 0 <= used <= |input| && 0 <= i < buf.Length && buf[..i] == Edited(input[..used])
        invariant screen.terminal == Screen.Write(old(screen.terminal), Echo(input[..used]))
        invariant if i == buf.Length - 1 then Takes(input, used, buf.Length, Full) else Open(input[..used], buf.Length)
        decreases |input| - used
      {
        OneMoreTaken(input, used, buf.Length);
        EchoMore(old(screen.terminal), input[..used], input[used]);
        i := TypeChar(buf, i, input[used]);
        used := used + 1;
      }
    }

    /** What follows the loop: `line` is in the buffer, and e says why the loop stopped. */
    method Finish(buf: array<char>, i: int, e: Ending, ghost line: seq<char>)
      requires Valid() && 0 <= i < buf.Length && buf[..i] == line && IsText(line)
      modifies this`histCount, this`histIdx, this`lines, history, buf
      modifies screen`cursorX, screen`cursorY, screen`terminal, screen.buffer
      ensures Valid() && buf[..i] == line
      ensures !e.Waiting? ==> Tokenizer.LineEnd(buf[..], i)
      ensures lines == old(lines) + (if e.Entered? && line != [] then [Kept(line)] else [])
      ensures screen.terminal ==
              Screen.Write(old(screen.terminal), if e.Entered? then EchoOf(line, '\n') else [])
    {
      if e.Entered? {
        EndLine(buf, i, line);
      } else if e.Full? {
        buf[i] := NUL;
      }
    }

    /** `shell_getline`: takes characters until the line ends or the input runs out. */
    method GetLine(buf: array<char>, input: seq<char>) returns (used: int, e: Ending)
      requires Valid() && buf.Length > 0
      modifies this`histCount, this`histIdx, this`lines, history, buf
      modifies screen`cursorX, screen`cursorY, screen`terminal, screen.buffer
      ensures Valid() && Takes(input, used, buf.Length, e)
      ensures var line := Edited(input[..used]);
              && |line| < buf.Length && buf[..|line|] == line
              && (!e.Waiting? ==> Tokenizer.LineEnd(buf[..], |line|))
              && lines == old(lines) + (if e.Entered? && line != [] then [Kept(line)] else [])
      ensures buf.Length <= 512 && e.Entered? && Edited(input[..used]) != [] ==>
                lines == old(lines) + [Edited(input[..used])]
      ensures screen.terminal == Screen.Write(old(screen.terminal), Echo(input[..used]))
    {
      buf[0] := NUL;
      var i;
      used, i := TypeLine(buf, input);
      e := if i == buf.Length - 1 then Full else if used == |input| then Waiting else Entered;
      LineIsPrintable(input[..used]);
      Finish(buf, i, e, Edited(input[..used]));
      StopsThere(input, used, buf.Length, e, old(screen.terminal));
      if e.Entered? {
        used := used + 1;
      }
    }
  }

  lemma SlotsDiffer(k: int, n: int)
    requires n - MAX_HISTORY < k <= n
    ensures k % MAX_HISTORY == n % MAX_HISTORY <==> k == n
  {
  }
}
