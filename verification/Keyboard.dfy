/** The keyboard driver of drivers/keyboard.c: an interrupt handler decodes scancodes into a
    ring of 256 characters, and a reader takes them out in steps that the handler can fall
    between. */
module Keyboard {
  import opened Machine

  const BACKSPACE: char := 8 as char
  const SIZE := 256

  const KB_US: seq<char> :=
    [NUL, NUL] + "1234567890-=" + [BACKSPACE] +
    ['\t'] + "qwertyuiop[]" + ['\n'] +
    [NUL] + "asdfghjkl;'`" +
    [NUL] + "\\zxcvbnm,./" + [NUL] +
    "*" + [NUL] + " " + [NUL]

  const KB_US_SHIFT: seq<char> :=
    [NUL, NUL] + "!@#$%^&*()_+" + [BACKSPACE] +
    ['\t'] + "QWERTYUIOP{}" + ['\n'] +
    [NUL] + "ASDFGHJKL:\"~" +
    [NUL] + "|ZXCVBNM<>?" + [NUL] +
    "*" + [NUL] + " " + [NUL]

  // ---------------------------------------------------------------- decoding

  datatype Keys = Keys(shift: bool, caps: bool)

  predicate IsModifier(code: int) {
    code == 0x2A || code == 0x36 || code == 0xAA || code == 0xB6 || code == 0x3A
  }

  function KeysAfter(keys: Keys, code: int): Keys {
    if code == 0x2A || code == 0x36 then keys.(shift := true)
    else if code == 0xAA || code == 0xB6 then keys.(shift := false)
    else if code == 0x3A then keys.(caps := !keys.caps)
    else keys
  }

  /** The character a scancode stands for, or NUL. */
  function Decode(keys: Keys, code: byte): char {
    if IsModifier(code) || code >= 0x80 then NUL
    else
      var table := if keys.shift != keys.caps then KB_US_SHIFT else KB_US;
      if code < |table| then table[code] else NUL
  }

  function Kept(c: char): seq<char> { if c == NUL then [] else [c] }

  /** All characters of a stream of scancodes, with nothing dropped. */
  function DecodeAll(keys: Keys, codes: seq<byte>): seq<char>
    decreases |codes|
  {
    if codes == [] then []
    else
      Kept(Decode(keys, codes[0])) + DecodeAll(KeysAfter(keys, codes[0]), codes[1..])
  }

  function KeysAfterAll(keys: Keys, codes: seq<byte>): Keys
    decreases |codes|
  {
    if codes == [] then keys else KeysAfterAll(KeysAfter(keys, codes[0]), codes[1..])
  }

  lemma {:induction false} DecodeOneMore(keys: Keys, codes: seq<byte>, code: byte)
    ensures KeysAfterAll(keys, codes + [code]) == KeysAfter(KeysAfterAll(keys, codes), code)
    ensures DecodeAll(keys, codes + [code]) ==
            DecodeAll(keys, codes) + Kept(Decode(KeysAfterAll(keys, codes), code))
    decreases |codes|
  {
    if codes == [] {
      assert [code][1..] == [];
    } else {
      DecodeOneMore(KeysAfter(keys, codes[0]), codes[1..], code);
      assert (codes + [code])[1..] == codes[1..] + [code];
    }
  }

  // ---------------------------------------------------------------- the ring and its reader

  /** Where `keyboard_getchar` stands: it has seen a non-empty ring, read the character,
      advanced the head, and then only the count is left to lower. */
  datatype Reader = Waiting | Checked | Fetched | Advanced

  /** `accepted` and `delivered` record what went into the ring and what the reader fetched. */
  datatype Ring = Ring(buffer: seq<char>, head: int, tail: int, count: int, keys: Keys, reader: Reader,
                       accepted: seq<char>, delivered: seq<char>)

  datatype Event = Interrupt(code: byte) | Check | Fetch | Advance | Drop

  predicate Enabled(s: Ring, e: Event) {
    match e
    case Interrupt(_) => true
    case Check => s.reader.Waiting? && s.count != 0
    case Fetch => s.reader.Checked?
    case Advance => s.reader.Fetched?
    case Drop => s.reader.Advanced?
  }

  predicate Shaped(s: Ring) {
    |s.buffer| == SIZE && 0 <= s.head < SIZE && 0 <= s.tail < SIZE
  }

  /** Put a decoded character into the ring unless it is full. */
  function Accept(s: Ring, c: char): Ring
    requires Shaped(s)
  {
    if c != NUL && s.count < SIZE then
      s.(buffer := s.buffer[s.tail := c], tail := (s.tail + 1) % SIZE, count := s.count + 1,
         accepted := s.accepted + [c])
    else s
  }

  function Handle(s: Ring, code: byte): Ring
    requires Shaped(s)
  {
    Accept(s, Decode(s.keys, code)).(keys := KeysAfter(s.keys, code))
  }

  function Next(s: Ring, e: Event): Ring
    requires Shaped(s) && Enabled(s, e)
  {
    match e
    case Interrupt(code) => Handle(s, code)
    case Check => s.(reader := Checked)
    case Fetch => s.(reader := Fetched, delivered := s.delivered + [s.buffer[s.head]])
    case Advance => s.(reader := Advanced, head := (s.head + 1) % SIZE)
    case Drop => s.(reader := Waiting, count := s.count - 1)
  }

  /** Characters whose count has been lowered: the one being read still holds its place. */
  function Released(s: Ring): int {
    if s.reader.Fetched? || s.reader.Advanced? then |s.delivered| - 1 else |s.delivered|
  }

  ghost predicate Inv(s: Ring) {
    var released, advanced := Released(s), if s.reader.Fetched? then |s.delivered| - 1 else |s.delivered|;
    && Shaped(s)
    && 0 <= released && |s.delivered| <= |s.accepted|
    && s.count == |s.accepted| - released && s.count <= SIZE
    && (s.reader.Checked? ==> s.count > 0)
    && s.head == advanced % SIZE && s.tail == |s.accepted| % SIZE
    && s.delivered == s.accepted[..|s.delivered|]
    && forall k :: released <= k < |s.accepted| ==> s.buffer[k % SIZE] == s.accepted[k]
  }

  function Start(buffer: seq<char>): Ring {
    Ring(buffer, 0, 0, 0, Keys(false, false), Waiting, [], [])
  }

  ghost predicate IsRun(ss: seq<Ring>, es: seq<Event>) {
    && |ss| == |es| + 1 && |ss[0].buffer| == SIZE && ss[0] == Start(ss[0].buffer)
    && forall k :: 0 <= k < |es| ==> Shaped(ss[k]) && Enabled(ss[k], es[k]) && ss[k + 1] == Next(ss[k], es[k])
  }

  lemma SlotsDiffer(k: int, n: int)
    requires 0 <= k < n < k + SIZE
    ensures k % SIZE != n % SIZE
  {
  }

  lemma NextSlot(n: int)
    requires 0 <= n
    ensures (n % SIZE + 1) % SIZE == (n + 1) % SIZE
  {
  }

  lemma {:induction false} AcceptKeepsInv(s: Ring, c: char)
    requires Inv(s)
    ensures Inv(Accept(s, c))
  {
    var t := Accept(s, c);
    NextSlot(|s.accepted|);
    if t != s {
      forall k | Released(t) <= k < |t.accepted| ensures t.buffer[k % SIZE] == t.accepted[k] {
        if k < |s.accepted| {
          assert s.buffer[k % SIZE] == s.accepted[k];
          SlotsDiffer(k, |s.accepted|);
        }
      }
    }
  }

  lemma {:induction false} StepKeepsInv(s: Ring, e: Event)
    requires Inv(s) && Enabled(s, e)
    ensures Inv(Next(s, e))
  {
    match e
    case Interrupt(code) => AcceptKeepsInv(s, Decode(s.keys, code));
    case Fetch =>
      assert s.buffer[|s.delivered| % SIZE] == s.accepted[|s.delivered|];
    case Advance => NextSlot(|s.delivered| - 1);
    case _ =>
  }

  /** Wherever interrupts fall, the characters read are a prefix of the accepted ones, in order. */
  lemma {:induction false} DeliveredIsPrefix(ss: seq<Ring>, es: seq<Event>, k: int)
    requires IsRun(ss, es) && 0 <= k <= |es|
    ensures Inv(ss[k]) && ss[k].delivered <= ss[k].accepted
    decreases k
  {
    if k > 0 {
      DeliveredIsPrefix(ss, es, k - 1);
      StepKeepsInv(ss[k - 1], es[k - 1]);
      assert ss[k - 1 + 1] == Next(ss[k - 1], es[k - 1]);
    }
  }

  /** A decoded character is dropped exactly when the count is 256. */
  lemma DroppedIffFull(ss: seq<Ring>, es: seq<Event>, k: int, code: byte)
    requires IsRun(ss, es) && 0 <= k < |es| && es[k] == Interrupt(code)
    requires Decode(ss[k].keys, code) != NUL
    ensures ss[k + 1].accepted ==
            if ss[k].count == 256 then ss[k].accepted else ss[k].accepted + [Decode(ss[k].keys, code)]
  {
    DeliveredIsPrefix(ss, es, k);
    assert ss[k + 1] == Next(ss[k], es[k]);
  }

  // ---------------------------------------------------------------- what the keys type

  /** A row of keys with consecutive scancodes from `first` on, and what they type with shift
      and caps lock both off or both on, and with exactly one of them on. */
  predicate IsRow(first: int, plain: string, shifted: string) {
    || (first == 0x02 && plain == "1234567890-=" && shifted == "!@#$%^&*()_+")
    || (first == 0x0E && plain == [8 as char, 9 as char] && shifted == plain)
    || (first == 0x10 && plain == "qwertyuiop[]" && shifted == "QWERTYUIOP{}")
    || (first == 0x1C && plain == [10 as char] && shifted == plain)
    || (first == 0x1E && plain == "asdfghjkl;'`" && shifted == "ASDFGHJKL:\"~")
    || (first == 0x2B && plain == "\\zxcvbnm,./" && shifted == "|ZXCVBNM<>?")
    || (first == 0x37 && plain == "*" && shifted == plain)
    || (first == 0x39 && plain == " " && shifted == plain)
  }

  lemma RowShape(first: int, plain: string, shifted: string)
    requires IsRow(first, plain, shifted)
    ensures 0 <= first && |shifted| == |plain| && first + |plain| <= |KB_US| == |KB_US_SHIFT|
    ensures first + |plain| <= 0x2A || 0x2A < first
    ensures first + |plain| <= 0x36 || (0x36 < first && first + |plain| <= 0x3A)
    ensures NUL !in plain && NUL !in shifted
  {
  }

  lemma RowIsPlain(first: int, plain: string, shifted: string, k: int)
    requires IsRow(first, plain, shifted) && 0 <= k < |plain|
    ensures first + k < |KB_US| && KB_US[first + k] == plain[k]
  {
  }

  lemma RowIsShifted(first: int, plain: string, shifted: string, k: int)
    requires IsRow(first, plain, shifted) && 0 <= k < |plain|
    ensures k < |shifted| && first + k < |KB_US_SHIFT| && KB_US_SHIFT[first + k] == shifted[k]
  {
  }

  lemma RowDecodes(first: int, plain: string, shifted: string, k: int, keys: Keys)
    requires IsRow(first, plain, shifted) && 0 <= k < |plain|
    ensures |shifted| == |plain| && 0 <= first + k < 0x80
    ensures Decode(keys, first + k) == if keys.shift == keys.caps then plain[k] else shifted[k]
    ensures plain[k] != NUL && shifted[k] != NUL && KeysAfter(keys, first + k) == keys
  {
    RowShape(first, plain, shifted);
    RowIsPlain(first, plain, shifted, k);
    RowIsShifted(first, plain, shifted, k);
  }

  /** In every run a key of a row types its character, unless the ring is full, and changes no
      modifier. */
  lemma KeyTypes(ss: seq<Ring>, es: seq<Event>, n: int, first: int, plain: string, shifted: string, k: int)
    requires IsRun(ss, es) && 0 <= n < |es| && IsRow(first, plain, shifted) && 0 <= k < |plain| == |shifted|
    requires es[n].Interrupt? && es[n].code == first + k
    ensures ss[n + 1].keys == ss[n].keys && ss[n].count <= 256
    ensures ss[n + 1].accepted == ss[n].accepted +
              if ss[n].count == 256 then [] else [if ss[n].keys.shift == ss[n].keys.caps then plain[k] else shifted[k]]
  {
    RowDecodes(first, plain, shifted, k, ss[n].keys);
    DeliveredIsPrefix(ss, es, n);
    assert ss[n + 1] == Next(ss[n], es[n]);
  }

  predicate PressesShift(e: Event) { e == Interrupt(0x2A) || e == Interrupt(0x36) }

  predicate ReleasesShift(e: Event) { e == Interrupt(0xAA) || e == Interrupt(0xB6) }

  /** Shift is on from a press until the next release of either key. */
  lemma {:induction false} ShiftHeldIff(ss: seq<Ring>, es: seq<Event>, n: int)
    requires IsRun(ss, es) && 0 <= n <= |es|
    ensures ss[n].keys.shift <==>
            exists a :: 0 <= a < n && PressesShift(es[a]) && forall b :: a < b < n ==> !ReleasesShift(es[b])
    decreases n
  {
    if n > 0 {
      ShiftHeldIff(ss, es, n - 1);
      assert ss[n - 1 + 1] == Next(ss[n - 1], es[n - 1]);
      if ss[n].keys.shift && !PressesShift(es[n - 1]) {
        var a :| 0 <= a < n - 1 && PressesShift(es[a]) && forall b :: a < b < n - 1 ==> !ReleasesShift(es[b]);
        assert forall b :: a < b < n ==> !ReleasesShift(es[b]);
      }
    }
  }

  /** How often caps lock was pressed. */
  function CapsPresses(es: seq<Event>): int {
    if es == [] then 0 else CapsPresses(es[..|es| - 1]) + if es[|es| - 1] == Interrupt(0x3A) then 1 else 0
  }

  lemma CapsStep(s: Ring, e: Event)
    requires Shaped(s) && Enabled(s, e)
    ensures Next(s, e).keys.caps == (s.keys.caps != (e == Interrupt(0x3A)))
  {
  }

  lemma OnePress(presses: int, pressed: bool)
    ensures (presses + if pressed then 1 else 0) % 2 == 1 <==> (presses % 2 == 1) != pressed
  {
  }

  lemma CapsPressesGrow(es: seq<Event>, n: int)
    requires 0 < n <= |es|
    ensures CapsPresses(es[..n]) == CapsPresses(es[..n - 1]) + if es[n - 1] == Interrupt(0x3A) then 1 else 0
  {
    assert es[..n][..n - 1] == es[..n - 1];
  }

  /** Caps lock is on exactly after an odd number of presses. */
  lemma {:induction false} CapsOddIff(ss: seq<Ring>, es: seq<Event>, n: int)
    requires IsRun(ss, es) && 0 <= n <= |es|
    ensures ss[n].keys.caps <==> CapsPresses(es[..n]) % 2 == 1
    decreases n
  {
    if n > 0 {
      CapsOddIff(ss, es, n - 1);
      assert ss[n - 1 + 1] == Next(ss[n - 1], es[n - 1]);
      CapsStep(ss[n - 1], es[n - 1]);
      CapsPressesGrow(es, n);
      OnePress(CapsPresses(es[..n - 1]), es[n - 1] == Interrupt(0x3A));
    }
  }

  lemma OthersInTables(code: int)
    requires code in {0, 1, 0x1D, 0x38}
    ensures KB_US[code] == NUL && KB_US_SHIFT[code] == NUL
  {
  }

  /** No other scancode types anything. */
  lemma OtherCodesAreSilent(s: Ring, code: byte)
    requires Shaped(s)
    requires code in {0, 1, 0x1D, 0x2A, 0x36, 0x38} || code >= 0x3A
    ensures Handle(s, code).accepted == s.accepted && Handle(s, code).count == s.count
  {
    if code in {0, 1, 0x1D, 0x38} { OthersInTables(code); }
  }

  /** Every character from space to tilde is on some key of some row. */
  lemma EveryPrintableIsTyped(c: char) returns (first: int, plain: string, shifted: string, k: int)
    requires 32 <= c as int <= 126
    ensures IsRow(first, plain, shifted) && 0 <= k < |plain| == |shifted| && (plain[k] == c || shifted[k] == c)
  {
    if c in "1234567890-=!@#$%^&*()_+" {
      first, plain, shifted := 0x02, "1234567890-=", "!@#$%^&*()_+";
    } else if c in "qwertyuiop[]QWERTYUIOP{}" {
      first, plain, shifted := 0x10, "qwertyuiop[]", "QWERTYUIOP{}";
    } else if c in "asdfghjkl;'`ASDFGHJKL:\"~" {
      first, plain, shifted := 0x1E, "asdfghjkl;'`", "ASDFGHJKL:\"~";
    } else if c == ' ' {
      first, plain, shifted := 0x39, " ", " ";
    } else {
      first, plain, shifted := 0x2B, "\\zxcvbnm,./", "|ZXCVBNM<>?";
    }
    assert c in plain || c in shifted;
    if c in plain {
      k :| 0 <= k < |plain| && plain[k] == c;
    } else {
      k :| 0 <= k < |shifted| && shifted[k] == c;
    }
  }

  function Codes(es: seq<Event>): seq<byte> {
    if es == [] then []
    else Codes(es[..|es| - 1]) + (if es[|es| - 1].Interrupt? then [es[|es| - 1].code] else [])
  }

  /** If the ring never fills up, what is accepted is the decoded scancode stream itself,
      and the reader has seen a prefix of it. */
  lemma {:induction false} NothingIsLost(ss: seq<Ring>, es: seq<Event>, k: int)
    requires IsRun(ss, es) && 0 <= k <= |es|
    requires forall i :: 0 <= i < k ==> ss[i].count < SIZE
    ensures ss[k].keys == KeysAfterAll(Keys(false, false), Codes(es[..k]))
    ensures ss[k].accepted == DecodeAll(Keys(false, false), Codes(es[..k]))
    ensures ss[k].delivered <= DecodeAll(Keys(false, false), Codes(es[..k]))
    decreases k
  {
    DeliveredIsPrefix(ss, es, k);
    if k > 0 {
      NothingIsLost(ss, es, k - 1);
      assert ss[k - 1 + 1] == Next(ss[k - 1], es[k - 1]);
      assert es[..k][..k - 1] == es[..k - 1];
      if es[k - 1].Interrupt? {
        assert Codes(es[..k]) == Codes(es[..k - 1]) + [es[k - 1].code];
        DecodeOneMore(Keys(false, false), Codes(es[..k - 1]), es[k - 1].code);
      } else {
        assert Codes(es[..k]) == Codes(es[..k - 1]);
      }
    }
  }

  // ---------------------------------------------------------------- the driver

  class Driver {
    const buffer: array<char>
    var head: int
    var tail: int
    var count: int
    var shiftPressed: bool
    var capsLock: bool
    ghost var reader: Reader
    ghost var accepted: seq<char>
    ghost var delivered: seq<char>

    constructor ()
      ensures Valid() && View() == Start(buffer[..]) && fresh(buffer)
    {
      buffer := new char[SIZE];
      head, tail, count := 0, 0, 0;
      shiftPressed, capsLock := false, false;
      reader, accepted, delivered := Waiting, [], [];
    }

    ghost function View(): Ring
      reads this, buffer
    {
      Ring(buffer[..], head, tail, count, Keys(shiftPressed, capsLock), reader, accepted, delivered)
    }

    ghost predicate Valid()
      reads this, buffer
    {
      Inv(View())
    }

    /** `keyboard_handler`, given the byte read from port 0x60. */
    method Handler(code: byte)
      requires Valid()
      modifies this`tail, this`count, this`shiftPressed, this`capsLock, this`accepted, buffer
      ensures Valid() && View() == Next(old(View()), Interrupt(code))
    {
      if code == 0x2A || code == 0x36 {
        shiftPressed := true;
        return;
      }
      if code == 0xAA || code == 0xB6 {
        shiftPressed := false;
        return;
      }
      if code == 0x3A {
        capsLock := !capsLock;
        return;
      }
      if code >= 0x80 {
        return;
      }
      var c := Lookup(code);
      Put(c);
    }

    method Lookup(code: byte) returns (c: char)
      requires !IsModifier(code) && code < 0x80
      ensures c == Decode(Keys(shiftPressed, capsLock), code)
    {
      if shiftPressed != capsLock {
        c := if code < |KB_US_SHIFT| then KB_US_SHIFT[code] else NUL;
      } else {
        c := if code < |KB_US| then KB_US[code] else NUL;
      }
    }

    method Put(c: char)
      requires Valid()
      modifies this`tail, this`count, this`accepted, buffer
      ensures Valid() && View() == Accept(old(View()), c)
    {
      AcceptKeepsInv(View(), c);
      if c != NUL && count < 256 {
        buffer[tail] := c;
        tail := (tail + 1) % 256;
        count := count + 1;
        accepted := accepted + [c];
      }
    }

    /** The loop test of `keyboard_getchar`: false means wait for the next interrupt. */
    method CheckChar() returns (some: bool)
      requires Valid() && reader.Waiting?
      modifies this`reader
      ensures Valid() && some == (old(count) != 0)
      ensures View() == if some then Next(old(View()), Check) else old(View())
    {
      some := count != 0;
      if some {
        reader := Checked;
      }
    }

    method FetchChar() returns (c: char)
      requires Valid() && reader.Checked?
      modifies this`reader, this`delivered
      ensures Valid() && View() == Next(old(View()), Fetch)
      ensures delivered == old(delivered) + [c] && delivered <= accepted
    {
      StepKeepsInv(View(), Fetch);
      c := buffer[head];
      reader, delivered := Fetched, delivered + [c];
    }

    method AdvanceHead()
      requires Valid() && reader.Fetched?
      modifies this`head, this`reader
      ensures Valid() && View() == Next(old(View()), Advance)
    {
      StepKeepsInv(View(), Advance);
      head := (head + 1) % 256;
      reader := Advanced;
    }

    method LowerCount()
      requires Valid() && reader.Advanced?
      modifies this`count, this`reader
      ensures Valid() && View() == Next(old(View()), Drop)
    {
      count := count - 1;
      reader := Waiting;
    }

    /** `keyboard_getchar` with no interrupt in between: the oldest character not read yet,
        or nothing while it would still be waiting. */
    method GetChar() returns (got: bool, c: char)
      requires Valid() && reader.Waiting?
      modifies this`reader, this`delivered, this`head, this`count
      ensures Valid() && reader.Waiting? && got == (old(count) != 0)
      ensures !got ==> View() == old(View())
      ensures got ==> |old(delivered)| < |accepted| && c == accepted[|old(delivered)|]
      ensures got ==> delivered == old(delivered) + [c] && count == old(count) - 1
    {
      c := NUL;
      got := CheckChar();
      if got {
        c := FetchChar();
        AdvanceHead();
        LowerCount();
      }
    }
  }
}
