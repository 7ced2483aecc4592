/** Numbers as text: `itoa` and `atoi` of lib/string.c and `strtol` of lib/stdlib.c. */
module Numerals {
  import opened Machine

  const INT_MIN := -0x8000_0000
  const INT_MAX := 0x7FFF_FFFF

  // ---------------------------------------------------------------- digits and their value

  function DigitChar(d: int): char
    requires 0 <= d < 36
  {
    if d < 10 then '0' + d as char else 'a' + (d - 10) as char
  }

  /** The digit a character stands for, or -1. */
  function DigitValue(c: char): int {
    if '0' <= c <= '9' then c as int - '0' as int
    else if 'a' <= c <= 'z' then c as int - 'a' as int + 10
    else if 'A' <= c <= 'Z' then c as int - 'A' as int + 10
    else -1
  }

  predicate IsDigit(c: char, base: int) {
    0 <= DigitValue(c) < base
  }

  /** The value of a run of digits, read left to right. */
  function ValueOf(s: seq<char>, base: int): int {
    if s == [] then 0 else ValueOf(s[..|s| - 1], base) * base + DigitValue(s[|s| - 1])
  }

  /** The digits of v without leading zeros. */
  function Digits(v: int, base: int): (s: seq<char>)
    requires 0 <= v && 2 <= base <= 36
    ensures |s| >= 1
  {
    if v < base then [DigitChar(v)] else Digits(v / base, base) + [DigitChar(v % base)]
  }

  /** What `itoa` writes before the terminator. */
  function Render(value: int, base: int): seq<char>
    requires INT_MIN <= value <= INT_MAX
  {
    if base < 2 || base > 36 then [] else Sign(value, base) + Digits(Magnitude(value, base), base)
  }

  function Sign(value: int, base: int): seq<char> {
    if value < 0 && base == 10 then ['-'] else []
  }

  /** The unsigned 32-bit number whose digits follow the sign. */
  function Magnitude(value: int, base: int): (v: int)
    ensures v >= 0
  {
    (if value < 0 && base == 10 then -value else value) % WORD
  }

  lemma DigitCharValue(d: int)
    requires 0 <= d < 36
    ensures DigitValue(DigitChar(d)) == d
  {
  }

  /** The digits are 0 to 9 and then the letters from a on; letters are read in either case. */
  lemma DigitAlphabet(c: char, d: int)
    requires 0 <= d < 36
    ensures DigitChar(d) as int == if d < 10 then 48 + d else 87 + d
    ensures DigitValue(c) == d <==> if d < 10 then c as int == 48 + d else c as int == 87 + d || c as int == 55 + d
  {
  }

  lemma DivMod(v: int, base: int)
    requires 0 <= v && base >= 2
    ensures v / base * base + v % base == v && 0 <= v % base < base
    ensures 0 <= v / base <= v && (v > 0 ==> v / base < v) && (v / base == 0 <==> v < base)
  {
    var q := v / base;
    assert q * base >= q * 2;
  }

  lemma ValueAppend(s: seq<char>, c: char, base: int)
    ensures ValueOf(s + [c], base) == ValueOf(s, base) * base + DigitValue(c)
  {
    assert (s + [c])[..|s|] == s;
  }

  lemma {:induction false} DigitsAreDigits(v: int, base: int)
    requires 0 <= v && 2 <= base <= 36
    ensures forall c :: c in Digits(v, base) ==> IsDigit(c, base)
  {
    DivMod(v, base);
    if v < base {
      DigitCharValue(v);
    } else {
      DigitCharValue(v % base);
      DigitsAreDigits(v / base, base);
    }
  }

  lemma {:induction false} DigitsHaveValue(v: int, base: int)
    requires 0 <= v && 2 <= base <= 36
    ensures ValueOf(Digits(v, base), base) == v
  {
    var q, r := v / base, v % base;
    DivMod(v, base);
    DigitCharValue(r);
    if v < base {
      assert Digits(v, base) == [] + [DigitChar(v)];
      ValueAppend([], DigitChar(v), base);
      DigitCharValue(v);
    } else {
      DigitsHaveValue(q, base);
      ValueAppend(Digits(q, base), DigitChar(r), base);
    }
  }

  /** Reading only some leading digits never gives more than reading them all. */
  lemma {:induction false} PrefixValueBounded(s: seq<char>, base: int, k: int)
    requires (forall c :: c in s ==> IsDigit(c, base)) && 0 <= k <= |s|
    ensures 0 <= ValueOf(s[..k], base) <= ValueOf(s, base)
  {
    if k == |s| {
      assert s[..k] == s;
      if k > 0 {
        PrefixValueBounded(s[..k - 1], base, k - 1);
        assert s[..k - 1][..k - 1] == s[..k - 1] && s[k - 1] in s;
        NeverLess(ValueOf(s[..k - 1], base), base);
      }
    } else {
      var t, d := s[..|s| - 1], s[|s| - 1];
      PrefixValueBounded(t, base, k);
      assert t[..k] == s[..k] && d in s;
      NeverLess(ValueOf(t, base), base);
    }
  }

  lemma NeverLess(v: int, base: int)
    requires v >= 0 && base >= 1
    ensures v * base >= v
  {
    assert v * (base - 1) >= 0;
  }

  /** Every intermediate result of reading digits fits a 32-bit `long` exactly when the last one does. */
  lemma OverflowFreeIff(s: seq<char>, base: int)
    requires forall c :: c in s ==> IsDigit(c, base)
    ensures (forall k :: 0 <= k <= |s| ==> 0 <= ValueOf(s[..k], base) <= INT_MAX) <==> ValueOf(s, base) <= INT_MAX
  {
    assert s[..|s|] == s;
    forall k | 0 <= k <= |s| ensures 0 <= ValueOf(s[..k], base) <= ValueOf(s, base) {
      PrefixValueBounded(s, base, k);
    }
  }

  function Pow(base: int, n: nat): int {
    if n == 0 then 1 else base * Pow(base, n - 1)
  }

  /** A number has at most n digits exactly when it is below base^n. */
  lemma {:induction false} DigitCountIff(v: int, base: int, n: nat)
    requires 0 <= v && 2 <= base <= 36 && n >= 1
    ensures |Digits(v, base)| <= n <==> v < Pow(base, n)
    decreases n
  {
    assert Pow(base, 1) == base * Pow(base, 0) == base;
    if n > 1 {
      PowGrows(base, n);
      if v >= base {
        DigitCountIff(v / base, base, n - 1);
        DivBelow(v, base, Pow(base, n - 1));
      }
    }
  }

  lemma PowGrows(base: int, n: nat)
    requires base >= 2 && n >= 1
    ensures Pow(base, n) >= base
  {
    if n > 1 {
      PowGrows(base, n - 1);
      assert base * Pow(base, n - 1) >= base * 1;
    }
  }

  lemma DivBelow(v: int, b: int, p: int)
    requires b > 0
    ensures v / b < p <==> v < b * p
  {
    var q := v / b;
    assert b * q <= v < b * q + b;
    if q < p {
      assert b * (q + 1) <= b * p;
    } else {
      assert b * p <= b * q;
    }
  }

  lemma PowersOfPrintfBases()
    ensures Pow(2, 32) == WORD && Pow(8, 11) >= WORD && Pow(10, 10) >= WORD && Pow(16, 8) >= WORD
  {
    assert Pow(2, 8) == 256;
    assert Pow(2, 16) == 65536;
    assert Pow(2, 24) == 0x100_0000;
    assert Pow(8, 6) == 262144;
    assert Pow(10, 5) == 100000;
  }

  /** At most 32 digits in any base, and at most 11 characters in bases 8, 10 and 16: with
      the terminator these fit printf's 32-byte buffer. */
  lemma RenderedLength(value: int, base: int)
    requires INT_MIN <= value <= INT_MAX
    ensures |Render(value, base)| <= 32 && (Render(value, base) == [] <==> base < 2 || base > 36)
    ensures base == 8 || base == 10 || base == 16 ==> |Render(value, base)| <= 11
  {
    if 2 <= base <= 36 {
      var v := Magnitude(value, base);
      PowersOfPrintfBases();
      if base == 10 {
        DigitCountIff(v, 10, 10);
      } else {
        if base == 8 { DigitCountIff(v, 8, 11); }
        if base == 16 { DigitCountIff(v, 16, 8); }
        PowMonotone(base, 32);
        DigitCountIff(v, base, 32);
      }
    }
  }

  lemma {:induction false} PowMonotone(base: int, n: nat)
    requires base >= 2
    ensures Pow(base, n) >= Pow(2, n) >= 1
  {
    if n > 0 {
      PowMonotone(base, n - 1);
      assert base * Pow(base, n - 1) >= 2 * Pow(base, n - 1) by {
        assert (base - 2) * Pow(base, n - 1) >= 0;
      }
    }
  }

  // ---------------------------------------------------------------- itoa

  lemma LastDigit(v: int, base: int)
    requires 0 <= v && 2 <= base <= 36
    ensures 0 <= v % base < base && Digits(v, base)[|Digits(v, base)| - 1] == DigitChar(v % base)
    ensures 0 <= v / base && (v / base == 0 <==> |Digits(v, base)| == 1)
    ensures v / base != 0 ==> Digits(v / base, base) == Digits(v, base)[..|Digits(v, base)| - 1]
  {
    DivMod(v, base);
  }

  /** The do-while loop: digits of v from the last to the first, starting at `from`. */
  method EmitDigits(v: int, base: int, str: array<char>, from: int) returns (p: int)
    requires 0 <= v && 2 <= base <= 36 && 0 <= from && from + |Digits(v, base)| <= str.Length
    modifies str
    ensures p == from + |Digits(v, base)|
    ensures forall i :: from <= i < p ==> str[i] == Digits(v, base)[p - 1 - i]
    ensures forall i :: 0 <= i < str.Length && !(from <= i < p) ==> str[i] == old(str[i])
  {
    ghost var all := Digits(v, base);
    ghost var end := from + |all|;
    var rest := v;
    p := from;
    var more := true;
    while more
      invariant 0 <= rest && from <= p <= end && (more <==> p < end)
      invariant more ==> Digits(rest, base) == all[..end - p]
      invariant forall i :: from <= i < p ==> str[i] == all[end - 1 - i]
      invariant forall i :: 0 <= i < str.Length && !(from <= i < p) ==> str[i] == old(str[i])
      decreases end - p
    {
      var rem := rest % base;
      LastDigit(rest, base);
      str[p] := if rem < 10 then '0' + rem as char else 'a' + (rem - 10) as char;
      p := p + 1;
      rest := rest / base;
      more := rest != 0;
    }
  }

  method ReverseRange(str: array<char>, lo: int, hi: int)
    requires 0 <= lo <= hi <= str.Length
    modifies str
    ensures forall i :: lo <= i < hi ==> str[i] == old(str[lo + hi - 1 - i])
    ensures forall i :: 0 <= i < str.Length && !(lo <= i < hi) ==> str[i] == old(str[i])
  {
    var p1, p2 := lo, hi - 1;
    while p1 < p2
      invariant lo <= p1 <= hi && p1 + p2 == lo + hi - 1 && p1 <= p2 + 1
      invariant forall i :: p1 <= i <= p2 ==> str[i] == old(str[i])
      invariant forall i :: lo <= i < p1 || p2 < i < hi ==> str[i] == old(str[lo + hi - 1 - i])
      invariant forall i :: 0 <= i < str.Length && !(lo <= i < hi) ==> str[i] == old(str[i])
    {
      var tmp := str[p1];
      str[p1] := str[p2];
      str[p2] := tmp;
      p1, p2 := p1 + 1, p2 - 1;
    }
  }

  lemma JoinedAt(s: seq<char>, a: seq<char>, b: seq<char>)
    requires |a| + |b| <= |s| && s[..|a|] == a && s[|a|..|a| + |b|] == b
    ensures s[..|a| + |b|] == a + b
  {
  }

  method Itoa(value: int, str: array<char>, base: int)
    requires INT_MIN <= value <= INT_MAX && |Render(value, base)| < str.Length
    modifies str
    ensures str[..|Render(value, base)|] == Render(value, base) && str[|Render(value, base)|] == NUL
    ensures forall i :: |Render(value, base)| < i < str.Length ==> str[i] == old(str[i])
  {
    if base < 2 || base > 36 {
      str[0] := NUL;
      return;
    }
    var p, v := 0, 0;
    if value < 0 && base == 10 {
      str[p] := '-';
      p := p + 1;
      v := (-value) % WORD;
    } else {
      v := value % WORD;
    }
    ghost var sign, digits := Sign(value, base), Digits(v, base);
    assert v == Magnitude(value, base) && str[..p] == sign;
    WriteDigits(v, base, str, p);
    JoinedAt(str[..], sign, digits);
  }

  /** The digits of v in reading order, and the terminator. */
  method WriteDigits(v: int, base: int, str: array<char>, p1: int)
    requires 0 <= v && 2 <= base <= 36 && 0 <= p1 && p1 + |Digits(v, base)| < str.Length
    modifies str
    ensures str[p1..p1 + |Digits(v, base)|] == Digits(v, base)
    ensures str[p1 + |Digits(v, base)|] == NUL
    ensures forall i :: 0 <= i < str.Length && !(p1 <= i <= p1 + |Digits(v, base)|) ==> str[i] == old(str[i])
  {
    ghost var digits := Digits(v, base);
    var p := EmitDigits(v, base, str, p1);
    str[p] := NUL;
    ReverseRange(str, p1, p);
    forall i | 0 <= i < |digits| ensures str[p1 + i] == digits[i] {
      var j := p1 + i;
      assert str[j] == digits[p - 1 - (p1 + p - 1 - j)];
    }
  }

  // ---------------------------------------------------------------- strtol and atoi

  /** A number read at the start of s: blanks, an optional sign, then s[from..end]. */
  datatype Reading = Reading(blanks: int, from: int, end: int)

  /** The reading stops at the first character that is no digit of the base. */
  predicate Reads(s: seq<char>, base: int, r: Reading) {
    && 0 <= r.blanks < |s| && s[r.blanks] != ' ' && (forall k :: 0 <= k < r.blanks ==> s[k] == ' ')
    && r.from == (if s[r.blanks] == '-' || s[r.blanks] == '+' then r.blanks + 1 else r.blanks)
    && r.from <= r.end < |s| && !IsDigit(s[r.end], base) && (forall k :: r.from <= k < r.end ==> IsDigit(s[k], base))
  }

  function Number(s: seq<char>, base: int, r: Reading): int
    requires Reads(s, base, r)
  {
    if s[r.blanks] == '-' then -ValueOf(s[r.from..r.end], base) else ValueOf(s[r.from..r.end], base)
  }

  /** The leading blanks and the sign, as both `strtol` and `atoi` read them. */
  method ReadSign(s: seq<char>) returns (p: int, sign: int, ghost blanks: int)
    requires NUL in s
    ensures 0 <= blanks < |s| && s[blanks] != ' ' && forall k :: 0 <= k < blanks ==> s[k] == ' '
    ensures p == (if s[blanks] == '-' || s[blanks] == '+' then blanks + 1 else blanks)
    ensures sign == (if s[blanks] == '-' then -1 else 1) && NUL in s[p..]
  {
    p, sign := 0, 1;
    ghost var nul :| 0 <= nul < |s| && s[nul] == NUL;
    while s[p] == ' '
      invariant 0 <= p <= nul && forall k :: 0 <= k < p ==> s[k] == ' '
      decreases nul - p
    {
      p := p + 1;
    }
    blanks := p;
    if s[p] == '-' {
      sign := -1;
      p := p + 1;
    } else if s[p] == '+' {
      p := p + 1;
    }
    assert s[p..][nul - p] == NUL;
  }

  lemma ValueGrows(s: seq<char>, from: int, p: int, base: int)
    requires 0 <= from <= p < |s|
    ensures ValueOf(s[from..p + 1], base) == ValueOf(s[from..p], base) * base + DigitValue(s[p])
  {
    ValueAppend(s[from..p], s[p], base);
    assert s[from..p] + [s[p]] == s[from..p + 1];
  }

  method ReadDigits(s: seq<char>, from: int, base: int) returns (result: int, p: int)
    requires 0 <= from <= |s| && NUL in s[from..]
    ensures from <= p < |s| && !IsDigit(s[p], base) && forall k :: from <= k < p ==> IsDigit(s[k], base)
    ensures result == ValueOf(s[from..p], base)
  {
    ghost var nul :| 0 <= nul < |s[from..]| && s[from..][nul] == NUL;
    result, p := 0, from;
    while s[p] != NUL
      invariant from <= p <= from + nul
      invariant forall k :: from <= k < p ==> IsDigit(s[k], base)
      invariant result == ValueOf(s[from..p], base)
      decreases from + nul - p
    {
      var digit;
      if '0' <= s[p] <= '9' {
        digit := s[p] as int - '0' as int;
      } else if 'a' <= s[p] <= 'z' {
        digit := s[p] as int - 'a' as int + 10;
      } else if 'A' <= s[p] <= 'Z' {
        digit := s[p] as int - 'A' as int + 10;
      } else {
        break;
      }
      if digit >= base {
        break;
      }
      ValueGrows(s, from, p, base);
      result := result * base + digit;
      p := p + 1;
    }
  }

  /** The value of the one reading of s, and where it ends. */
  method Strtol(s: seq<char>, base: int) returns (value: int, end: int)
    requires NUL in s
    ensures exists r :: Reads(s, base, r) && value == Number(s, base, r) && end == r.end
  {
    var from, sign;
    ghost var blanks;
    from, sign, blanks := ReadSign(s);
    var result, p := ReadDigits(s, from, base);
    ghost var r := Reading(blanks, from, p);
    assert Reads(s, base, r);
    assert result * 1 == result && result * -1 == -result;
    return result * sign, p;
  }

  /** `atoi` is `strtol` in base 10. */
  method Atoi(s: seq<char>) returns (value: int)
    requires NUL in s
    ensures exists r :: Reads(s, 10, r) && value == Number(s, 10, r)
  {
    var from, sign;
    ghost var blanks;
    from, sign, blanks := ReadSign(s);
    ghost var nul :| 0 <= nul < |s[from..]| && s[from..][nul] == NUL;
    var result, p := 0, from;
    while '0' <= s[p] <= '9'
      invariant from <= p <= from + nul
      invariant forall k :: from <= k < p ==> IsDigit(s[k], 10)
      invariant result == ValueOf(s[from..p], 10)
      decreases from + nul - p
    {
      ValueGrows(s, from, p, 10);
      result := result * 10 + (s[p] as int - '0' as int);
      p := p + 1;
    }
    ghost var r := Reading(blanks, from, p);
    assert Reads(s, 10, r);
    return result * sign;
  }

  /** Every text has one reading. */
  lemma ReadingIsUnique(s: seq<char>, base: int, r: Reading, q: Reading)
    requires Reads(s, base, r) && Reads(s, base, q)
    ensures r == q
  {
    assert r.blanks == q.blanks;
  }

  /** Blanks, a sign, digits, and then anything after a character that is no digit. */
  function Padded(blanks: nat, sign: seq<char>, digits: seq<char>, rest: seq<char>): seq<char> {
    seq(blanks, i => ' ') + sign + digits + rest
  }

  lemma DigitsStand(blanks: nat, sign: seq<char>, digits: seq<char>, base: int, rest: seq<char>)
    requires forall c :: c in digits ==> IsDigit(c, base)
    ensures var s, from := Padded(blanks, sign, digits, rest), blanks + |sign|;
            && s[from..from + |digits|] == digits
            && (forall k :: 0 <= k < blanks ==> s[k] == ' ')
            && (forall k :: from <= k < from + |digits| ==> IsDigit(s[k], base))
            && (rest != [] ==> s[from + |digits|] == rest[0])
            && (digits != [] ==> s[from] == digits[0]) && (sign != [] ==> s[blanks] == sign[0])
  {
    var s, from := Padded(blanks, sign, digits, rest), blanks + |sign|;
    forall k | from <= k < from + |digits| ensures IsDigit(s[k], base) {
      assert s[k] == digits[k - from];
    }
  }

  /** Any blanks, one optional sign and some digits up to the first other character read as
      exactly that number. */
  lemma PaddedNumberReads(blanks: nat, sign: seq<char>, digits: seq<char>, base: int, rest: seq<char>)
      returns (r: Reading)
    requires sign == [] || sign == ['-'] || sign == ['+']
    requires digits != [] && (forall c :: c in digits ==> IsDigit(c, base)) && rest != [] && !IsDigit(rest[0], base)
    ensures Reads(Padded(blanks, sign, digits, rest), base, r) && r.end == blanks + |sign| + |digits|
    ensures Number(Padded(blanks, sign, digits, rest), base, r) ==
            if sign == ['-'] then -ValueOf(digits, base) else ValueOf(digits, base)
  {
    var s := Padded(blanks, sign, digits, rest);
    r := Reading(blanks, blanks + |sign|, blanks + |sign| + |digits|);
    DigitsStand(blanks, sign, digits, base, rest);
    assert IsDigit(s[r.from], base);
  }

  lemma SignedDigitsRead(sign: seq<char>, digits: seq<char>, base: int, rest: seq<char>) returns (r: Reading)
    requires (sign == [] || sign == ['-']) && digits != [] && forall c :: c in digits ==> IsDigit(c, base)
    ensures Reads(sign + digits + [NUL] + rest, base, r) && r.end == |sign| + |digits|
    ensures Number(sign + digits + [NUL] + rest, base, r) ==
            if sign == [] then ValueOf(digits, base) else -ValueOf(digits, base)
  {
    assert Padded(0, sign, digits, [NUL] + rest) == sign + digits + [NUL] + rest;
    r := PaddedNumberReads(0, sign, digits, base, [NUL] + rest);
  }

  function UpperCase(s: seq<char>): (u: seq<char>)
    ensures |u| == |s|
  {
    seq(|s|, i requires 0 <= i < |s| => if 'a' <= s[i] <= 'z' then (s[i] as int - 32) as char else s[i])
  }

  lemma {:induction false} UpperValue(s: seq<char>, base: int)
    ensures ValueOf(UpperCase(s), base) == ValueOf(s, base)
    decreases |s|
  {
    if s != [] {
      UpperValue(s[..|s| - 1], base);
      assert UpperCase(s)[..|s| - 1] == UpperCase(s[..|s| - 1]);
    }
  }

  /** Readers cannot tell the two characters apart but by the value of a digit. */
  predicate SameKind(a: char, b: char, base: int) {
    && (IsDigit(a, base) <==> IsDigit(b, base))
    && (a == ' ' <==> b == ' ') && (a == '-' <==> b == '-') && (a == '+' <==> b == '+')
  }

  lemma ReadsIfSame(s: seq<char>, t: seq<char>, base: int, r: Reading)
    requires |s| == |t| && Reads(s, base, r) && forall k :: 0 <= k < |s| ==> SameKind(s[k], t[k], base)
    ensures Reads(t, base, r)
  {
    assert SameKind(s[r.blanks], t[r.blanks], base) && SameKind(s[r.end], t[r.end], base);
    forall k | 0 <= k < r.blanks ensures t[k] == ' ' {
      assert SameKind(s[k], t[k], base);
    }
    forall k | r.from <= k < r.end ensures IsDigit(t[k], base) {
      assert SameKind(s[k], t[k], base);
    }
  }

  lemma UpperSlice(s: seq<char>, i: int, j: int)
    requires 0 <= i <= j <= |s|
    ensures UpperCase(s)[i..j] == UpperCase(s[i..j])
  {
  }

  /** Upper-case letters read like lower-case ones, in any text. */
  lemma CaseDoesNotMatter(s: seq<char>, base: int, r: Reading)
    ensures Reads(UpperCase(s), base, r) <==> Reads(s, base, r)
    ensures Reads(s, base, r) ==> Number(UpperCase(s), base, r) == Number(s, base, r)
  {
    var t := UpperCase(s);
    assert forall k :: 0 <= k < |s| ==> SameKind(s[k], t[k], base) && SameKind(t[k], s[k], base);
    if Reads(t, base, r) { ReadsIfSame(t, s, base, r); }
    if Reads(s, base, r) {
      ReadsIfSame(s, t, base, r);
      UpperSlice(s, r.from, r.end);
      UpperValue(s[r.from..r.end], base);
      assert SameKind(s[r.blanks], t[r.blanks], base);
    }
  }

  /** What a rendered number reads as. */
  function Shown(value: int, base: int): int {
    if value < 0 && base != 10 then value + WORD else value
  }

  lemma SignedMagnitude(value: int, base: int)
    requires INT_MIN <= value <= INT_MAX
    ensures Shown(value, base) == if Sign(value, base) == [] then Magnitude(value, base) else -Magnitude(value, base)
  {
  }

  /** Any reading of a rendered number reads all of it, and exactly that number. */
  lemma RenderedReads(value: int, base: int, rest: seq<char>, r: Reading)
    requires INT_MIN <= value <= INT_MAX && 2 <= base <= 36
    requires Reads(Render(value, base) + [NUL] + rest, base, r)
    ensures r.end == |Render(value, base)|
    ensures Number(Render(value, base) + [NUL] + rest, base, r) == Shown(value, base)
  {
    SplitReads(Sign(value, base), Magnitude(value, base), base, rest, r);
    SignedMagnitude(value, base);
  }

  lemma SplitReads(sign: seq<char>, v: int, base: int, rest: seq<char>, r: Reading)
    requires (sign == [] || sign == ['-']) && 0 <= v && 2 <= base <= 36
    requires Reads(sign + Digits(v, base) + [NUL] + rest, base, r)
    ensures r.end == |sign + Digits(v, base)|
    ensures Number(sign + Digits(v, base) + [NUL] + rest, base, r) == if sign == [] then v else -v
  {
    DigitsAreDigits(v, base);
    DigitsHaveValue(v, base);
    var q := SignedDigitsRead(sign, Digits(v, base), base, rest);
    ReadingIsUnique(sign + Digits(v, base) + [NUL] + rest, base, r, q);
  }

  /** `strtol` undoes `itoa` and stops at the terminator, whatever follows it. */
  lemma StrtolUndoesItoa(value: int, base: int, rest: seq<char>, r: Reading)
    requires INT_MIN < value <= INT_MAX && 2 <= base <= 36 && (value >= 0 || base == 10)
    requires Reads(Render(value, base) + [NUL] + rest, base, r)
    ensures r.end == |Render(value, base)|
    ensures Number(Render(value, base) + [NUL] + rest, base, r) == value
  {
    RenderedReads(value, base, rest, r);
  }

  /** On such a text no intermediate result leaves the range of `long`. */
  lemma NoOverflowOnTheWay(value: int, base: int, k: int)
    requires INT_MIN < value <= INT_MAX && 2 <= base <= 36 && (value >= 0 || base == 10)
    requires 0 <= k <= |Digits(if value < 0 then -value else value, base)|
    ensures 0 <= ValueOf(Digits(if value < 0 then -value else value, base)[..k], base) <= INT_MAX
  {
    var v := if value < 0 then -value else value;
    DigitsAreDigits(v, base);
    DigitsHaveValue(v, base);
    PrefixValueBounded(Digits(v, base), base, k);
  }

  /** Outside base 10 a negative number is rendered as its unsigned 32-bit pattern, so the
      exact value read back differs from it by 2^32. */
  lemma NegativeReadsUnsigned(value: int, base: int, rest: seq<char>, r: Reading)
    requires INT_MIN <= value < 0 && 2 <= base <= 36 && base != 10
    requires Reads(Render(value, base) + [NUL] + rest, base, r)
    ensures Number(Render(value, base) + [NUL] + rest, base, r) == value + WORD
  {
    RenderedReads(value, base, rest, r);
  }
}
