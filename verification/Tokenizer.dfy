/** The command line of kernel/shell.c: `shell_execute` cuts the line into words in place. */
module Tokenizer {
  import opened Machine

  const MAX_ARGS := 32

  predicate Blank(c: char) {
    c == ' ' || c == '\t'
  }

  predicate Blanks(s: seq<char>, i: int, j: int)
    requires 0 <= i <= j <= |s|
  {
    forall k :: i <= k < j ==> Blank(s[k])
  }

  predicate BlankFree(s: seq<char>, i: int, j: int)
    requires 0 <= i <= j <= |s|
  {
    forall k :: i <= k < j ==> !Blank(s[k])
  }

  /** w is the first word of s, between i and j: only blanks before it, a blank or the end after. */
  ghost predicate FirstWord(s: seq<char>, i: int, j: int, w: seq<char>) {
    0 <= i < j <= |s| && Blanks(s, 0, i) && BlankFree(s, i, j) && (j < |s| ==> Blank(s[j])) && w == s[i..j]
  }

  /** ws are the maximal blank-free words of s, in order. */
  ghost predicate SplitsInto(s: seq<char>, ws: seq<seq<char>>)
    decreases |ws|
  {
    if ws == [] then Blanks(s, 0, |s|)
    else exists i, j :: FirstWord(s, i, j, ws[0]) && SplitsInto(s[j..], ws[1..])
  }

  // ---------------------------------------------------------------- a functional split

  /** The number of characters before the first blank. */
  function WordEnd(s: seq<char>): (k: int)
    ensures 0 <= k <= |s| && BlankFree(s, 0, k) && (k < |s| ==> Blank(s[k]))
  {
    if s == [] || Blank(s[0]) then 0 else 1 + WordEnd(s[1..])
  }

  function Words(s: seq<char>): seq<seq<char>>
    decreases |s|
  {
    if s == [] then []
    else if Blank(s[0]) then Words(s[1..])
    else [s[..WordEnd(s)]] + Words(s[WordEnd(s)..])
  }

  lemma {:induction false} BlanksSkipped(s: seq<char>, i: int)
    requires 0 <= i <= |s| && Blanks(s, 0, i)
    ensures Words(s) == Words(s[i..])
    decreases i
  {
    if i > 0 {
      BlanksSkipped(s[1..], i - 1);
      assert s[1..][i - 1..] == s[i..];
    } else {
      assert s[0..] == s;
    }
  }

  /** The functional split takes the first word, however many blanks come before it. */
  lemma WordsAfterFirst(s: seq<char>, i: int, j: int, w: seq<char>)
    requires FirstWord(s, i, j, w)
    ensures Words(s) == [w] + Words(s[j..])
  {
    BlanksSkipped(s, i);
    var t := s[i..];
    assert t[0] == s[i];
    assert WordEnd(t) == j - i by {
      assert forall k :: i <= k <= j && k < |s| ==> t[k - i] == s[k];
    }
    assert t[..j - i] == s[i..j] && t[j - i..] == s[j..];
  }

  lemma FindFirstWord(s: seq<char>) returns (i: int, j: int)
    requires !Blanks(s, 0, |s|)
    ensures 0 <= i < j <= |s| && FirstWord(s, i, j, s[i..j])
  {
    var k :| 0 <= k < |s| && !Blank(s[k]);
    i := 0;
    while Blank(s[i])
      invariant 0 <= i <= k && Blanks(s, 0, i)
      decreases k - i
    {
      i := i + 1;
    }
    j := i + WordEnd(s[i..]);
    assert s[i..][0] == s[i];
    forall n | i <= n < j ensures !Blank(s[n]) {
      assert s[i..][n - i] == s[n];
    }
  }

  lemma FirstWordIsUnique(s: seq<char>, a: int, b: int, v: seq<char>, i: int, j: int, w: seq<char>)
    requires FirstWord(s, a, b, v) && FirstWord(s, i, j, w)
    ensures a == i && b == j && v == w
  {
    assert !Blank(s[a]) && !Blank(s[i]);
    assert b < |s| ==> Blank(s[b]);
    assert j < |s| ==> Blank(s[j]);
  }

  /** The functional split finds the maximal blank-free words and nothing else. */
  lemma {:induction false} WordsAreTheSplit(s: seq<char>, ws: seq<seq<char>>)
    ensures SplitsInto(s, ws) <==> ws == Words(s)
    decreases |s|
  {
    if Blanks(s, 0, |s|) {
      BlanksSkipped(s, |s|);
      forall i, j, w ensures !FirstWord(s, i, j, w) {
        assert 0 <= i < |s| ==> Blank(s[i]);
      }
    } else {
      var i, j := FindFirstWord(s);
      WordsAfterFirst(s, i, j, s[i..j]);
      if ws != [] {
        WordsAreTheSplit(s[j..], ws[1..]);
        assert ws == [ws[0]] + ws[1..];
        forall a, b | FirstWord(s, a, b, ws[0]) ensures a == i && b == j {
          FirstWordIsUnique(s, a, b, ws[0], i, j, s[i..j]);
        }
      }
    }
  }

  // ---------------------------------------------------------------- joining words again

  predicate IsWord(w: seq<char>) {
    w != [] && BlankFree(w, 0, |w|)
  }

  /** The words with single spaces between them, as `echo` prints its arguments. */
  function Join(ws: seq<seq<char>>): seq<char> {
    if ws == [] then []
    else if |ws| == 1 then ws[0]
    else ws[0] + [' '] + Join(ws[1..])
  }

  /** Joining words with single spaces and splitting again gives the same words. */
  lemma {:induction false} SplitUndoesJoin(ws: seq<seq<char>>)
    requires forall k :: 0 <= k < |ws| ==> IsWord(ws[k])
    ensures Words(Join(ws)) == ws
  {
    if ws != [] {
      var s, j := Join(ws), |ws[0]|;
      assert s[..j] == ws[0];
      assert IsWord(ws[0]);
      if |ws| > 1 {
        SplitUndoesJoin(ws[1..]);
        assert s[j] == ' ' && s[j..][0] == ' ';
        assert s[j..][1..] == Join(ws[1..]);
      }
      forall k | 0 <= k < j ensures s[k] == ws[0][k] {}
      WordsAfterFirst(s, 0, j, ws[0]);
    }
  }

  predicate IsGap(g: seq<char>) {
    forall i :: 0 <= i < |g| ==> g[i] == ' ' || g[i] == '\t'
  }

  predicate NoGapIn(w: seq<char>) {
    w != [] && forall i :: 0 <= i < |w| ==> w[i] != ' ' && w[i] != '\t'
  }

  /** The words with gaps[k] before the k-th and `tail` behind the last. */
  function Scatter(ws: seq<seq<char>>, gaps: seq<seq<char>>, tail: seq<char>): seq<char>
    requires |gaps| == |ws|
  {
    if ws == [] then tail else gaps[0] + ws[0] + Scatter(ws[1..], gaps[1..], tail)
  }

  /** Words apart by any spaces and tabs, with any of them before and behind, are what the line
      splits into. */
  lemma {:induction false} ScatteredWords(ws: seq<seq<char>>, gaps: seq<seq<char>>, tail: seq<char>)
    requires |gaps| == |ws| && IsGap(tail) && (forall k :: 0 <= k < |ws| ==> NoGapIn(ws[k]) && IsGap(gaps[k]))
    requires forall k :: 0 < k < |ws| ==> gaps[k] != []
    ensures Words(Scatter(ws, gaps, tail)) == ws
    decreases |ws|
  {
    var s := Scatter(ws, gaps, tail);
    if ws == [] {
      BlanksSkipped(tail, |tail|);
    } else {
      var rest := Scatter(ws[1..], gaps[1..], tail);
      ScatteredWords(ws[1..], gaps[1..], tail);
      GapFollows(ws[1..], gaps[1..], tail);
      FirstOf(gaps[0], ws[0], rest);
    }
  }

  lemma GapFollows(ws: seq<seq<char>>, gaps: seq<seq<char>>, tail: seq<char>)
    requires |gaps| == |ws| && IsGap(tail) && (forall k :: 0 <= k < |ws| ==> IsGap(gaps[k]) && gaps[k] != [])
    ensures var s := Scatter(ws, gaps, tail); s == [] || s[0] == ' ' || s[0] == '\t'
  {
  }

  lemma FirstOf(gap: seq<char>, w: seq<char>, rest: seq<char>)
    requires IsGap(gap) && NoGapIn(w) && (rest == [] || rest[0] == ' ' || rest[0] == '\t')
    ensures Words(gap + w + rest) == [w] + Words(rest)
  {
    var s, i, j := gap + w + rest, |gap|, |gap| + |w|;
    assert s[i..j] == w && s[j..] == rest;
    forall k | i <= k < j ensures !Blank(s[k]) {
      assert s[k] == w[k - i];
    }
    assert j < |s| ==> s[j] == rest[0];
    WordsAfterFirst(s, i, j, w);
  }

  lemma {:induction false} WordsAreWords(s: seq<char>, k: int)
    requires 0 <= k < |Words(s)|
    ensures IsWord(Words(s)[k])
    decreases |s|
  {
    if Blanks(s, 0, |s|) {
      BlanksSkipped(s, |s|);
    } else {
      var i, j := FindFirstWord(s);
      WordsAfterFirst(s, i, j, s[i..j]);
      if k > 0 {
        WordsAreWords(s[j..], k - 1);
      }
    }
  }

  /** The words of any line, cut at any number, survive being joined and split again. */
  lemma RejoinedWordsSplitTheSame(s: seq<char>, k: int)
    requires 0 <= k <= |Words(s)|
    ensures Words(Join(Words(s)[..k])) == Words(s)[..k]
  {
    forall i | 0 <= i < k ensures IsWord(Words(s)[..k][i]) {
      WordsAreWords(s, i);
    }
    SplitUndoesJoin(Words(s)[..k]);
  }

  lemma {:induction false} JoinOneMore(ws: seq<seq<char>>, w: seq<char>)
    requires ws != []
    ensures Join(ws + [w]) == Join(ws) + [' '] + w
  {
    if |ws| > 1 {
      JoinOneMore(ws[1..], w);
      assert (ws + [w])[1..] == ws[1..] + [w];
    } else {
      assert (ws + [w])[1..] == [w];
    }
  }

  /** The loop of the `echo` command over its arguments. */
  method Echo(args: seq<seq<char>>) returns (out: seq<char>)
    requires |args| >= 1
    ensures out == Join(args[1..]) + ['\n']
  {
    out := [];
    for i := 1 to |args|
      invariant out == Join(args[1..i]) + (if 1 < i < |args| then [' '] else [])
    {
      assert args[1..i + 1] == args[1..i] + [args[i]];
      if i > 1 { JoinOneMore(args[1..i], args[i]); }
      out := out + args[i] + (if i + 1 < |args| then [' '] else []);
    }
    assert args[1..|args|] == args[1..];
    out := out + ['\n'];
  }

  // ---------------------------------------------------------------- cutting the line in place

  /** The buffer holds w at p as a NUL-terminated string. */
  ghost predicate HoldsWord(line: seq<char>, p: int, w: seq<char>) {
    0 <= p && p + |w| < |line| && line[p..p + |w|] == w && line[p + |w|] == NUL
  }

  /** The line is the text before its first NUL. */
  ghost predicate LineEnd(line: seq<char>, n: int) {
    0 <= n < |line| && line[n] == NUL && forall k :: 0 <= k < n ==> line[k] != NUL
  }

  function Min(a: int, b: int): int { if a < b then a else b }

  /** The words cut off so far: words[k] sits at args[k], and ends before p or at the line's end. */
  ghost predicate Cut(line: seq<char>, args: seq<int>, words: seq<seq<char>>, p: int, n: int) {
    && |args| == |words|
    && forall k :: 0 <= k < |args| ==>
         && HoldsWord(line, args[k], words[k])
         && (args[k] + |words[k]| < p || (p == n && args[k] + |words[k]| <= n))
  }

  /** One more word after p: the earlier ones survive a change at or after p. */
  lemma CutGrows(line: seq<char>, line': seq<char>, args: seq<int>, words: seq<seq<char>>, p: int,
                 start: int, w: seq<char>, p': int, n: int)
    requires Cut(line, args, words, p, n) && p < n && p <= p' <= n && |line'| == |line| && n < |line|
    requires forall i :: 0 <= i < p ==> line'[i] == line[i]
    requires HoldsWord(line', start, w) && (start + |w| < p' || (p' == n && start + |w| <= n))
    ensures Cut(line', args + [start], words + [w], p', n)
  {
    var args', words' := args + [start], words + [w];
    forall k | 0 <= k < |args'|
      ensures HoldsWord(line', args'[k], words'[k])
      ensures args'[k] + |words'[k]| < p' || (p' == n && args'[k] + |words'[k]| <= n)
    {
      if k < |args| {
        assert HoldsWord(line, args[k], words[k]);
        assert line'[args[k]..args[k] + |words[k]|] == line[args[k]..args[k] + |words[k]|];
      }
    }
  }

  /** Facts about a stretch of s, seen from the slice that starts at p. */
  lemma StretchInSlice(s: seq<char>, p: int, start: int, end: int, n: int)
    requires 0 <= p <= start <= end <= n <= |s|
    ensures Blanks(s, p, start) ==> Blanks(s[p..n], 0, start - p)
    ensures BlankFree(s, start, end) ==> BlankFree(s[p..n], start - p, end - p)
    ensures s[p..n][start - p..] == s[start..n] && s[p..n][start - p..end - p] == s[start..end]
  {
    forall k | p <= k < n ensures s[p..n][k - p] == s[k] {}
  }

  lemma TextSplits(s: seq<char>, p: int, start: int, end: int, n: int)
    requires 0 <= p <= start <= end <= n <= |s| && Blanks(s, p, start) && BlankFree(s, start, end)
    requires end == n || Blank(s[end])
    ensures start == n ==> Words(s[p..n]) == []
    ensures start < end ==> Words(s[p..n]) == [s[start..end]] + Words(s[end..n])
  {
    StretchInSlice(s, p, start, end, n);
    StretchInSlice(s, p, end, end, n);
    if start < end {
      WordsAfterFirst(s[p..n], start - p, end - p, s[start..end]);
    } else {
      BlanksSkipped(s[p..n], start - p);
    }
  }

  /** Skip blanks and mark the next word of the text between p and n. */
  method NextWord(line: array<char>, p: int, ghost n: int) returns (found: bool, start: int, end: int)
    requires 0 <= p < n < line.Length && line[n] == NUL && forall k :: p <= k < n ==> line[k] != NUL
    ensures !found ==> Words(line[p..n]) == []
    ensures found ==> p <= start < end <= n && (end < n ==> Blank(line[end]))
    ensures found ==> Words(line[p..n]) == [line[start..end]] + Words(line[end..n])
  {
    ghost var s := line[..];
    start := SkipBlanks(line, p, n);
    end := start;
    if line[start] == NUL {
      TextSplits(s, p, start, end, n);
      assert s[p..n] == line[p..n];
      return false, start, end;
    }
    end := SkipWord(line, start, n);
    TextSplits(s, p, start, end, n);
    assert s[p..n] == line[p..n] && s[start..end] == line[start..end] && s[end..n] == line[end..n];
    return true, start, end;
  }

  /** End the word with a NUL unless the line ends there anyway, and go past it. */
  method EndWord(line: array<char>, start: int, end: int, ghost n: int) returns (p: int)
    requires 0 <= start < end <= n < line.Length && line[n] == NUL && (end < n ==> Blank(line[end]))
    modifies line
    ensures p == (if end < n then end + 1 else n)
    ensures line[..] == old(line[..])[end := NUL]
    ensures HoldsWord(line[..], start, old(line[start..end]))
    ensures Words(old(line[end..n])) == Words(old(line[p..n]))
  {
    p := end;
    if line[p] != NUL {
      BlanksSkipped(line[end..n], 1);
      assert line[end..n][1..] == line[end + 1..n];
      line[p] := NUL;
      p := p + 1;
    }
    assert line[start..start + (end - start)] == old(line[start..end]);
  }

  /** Apart from blanks of the text turned into NULs nothing has changed. */
  ghost predicate OnlyCuts(was: seq<char>, line: seq<char>, n: int) {
    |line| == |was| && forall i :: 0 <= i < |was| ==> line[i] == was[i] || (i < n && Blank(was[i]) && line[i] == NUL)
  }

  lemma SameTail(line: seq<char>, was: seq<char>, p: int, n: int)
    requires 0 <= p <= n < |line| == |was| && line[p..] == was[p..]
    ensures forall i :: p <= i < |line| ==> line[i] == was[i]
    ensures forall q :: p <= q <= n ==> line[q..n] == was[q..n]
  {
    forall i | p <= i < |line| ensures line[i] == was[i] {
      assert line[p..][i - p] == was[p..][i - p];
    }
  }

  /** What one round of the loop keeps: the text after p', the cuts before it, and that only
      blanks were overwritten. */
  lemma RoundKeeps(was: seq<char>, before: seq<char>, after: seq<char>, args: seq<int>, words: seq<seq<char>>,
                   p: int, start: int, end: int, p': int, n: int)
    requires 0 <= p <= start < end <= n < |before| == |was| && before[n] == NUL && (end < n ==> Blank(before[end]))
    requires before[p..] == was[p..] && OnlyCuts(was, before, n) && Cut(before, args, words, p, n)
    requires after == before[end := NUL] && p' == (if end < n then end + 1 else n)
    requires HoldsWord(after, start, before[start..end])
    ensures after[p'..] == was[p'..] && OnlyCuts(was, after, n)
    ensures Cut(after, args + [start], words + [before[start..end]], p', n)
  {
    SameTail(before, was, p, n);
    CutGrows(before, after, args, words, p, start, before[start..end], p', n);
  }

  lemma NextOfAll(all: seq<seq<char>>, k: int, w: seq<char>, rest: seq<seq<char>>)
    requires 0 <= k <= |all| && all[k..] == [w] + rest
    ensures k < |all| && all[..k] + [w] == all[..k + 1] && all[k + 1..] == rest
  {
    assert all[k..][0] == w;
    assert all[k..][1..] == rest;
  }

  /** The loop of `shell_execute`: at most 31 words, each ended by a NUL in the line itself. */
  method Tokenize(line: array<char>, ghost n: int) returns (args: seq<int>)
    requires LineEnd(line[..], n)
    modifies line
    ensures |args| == Min(31, |Words(old(line[..n]))|)
    ensures forall k :: 0 <= k < |args| ==> HoldsWord(line[..], args[k], Words(old(line[..n]))[k])
    ensures OnlyCuts(old(line[..]), line[..], n)
  {
    ghost var was := line[..];
    ghost var all := Words(was[..n]);
    var p := 0;
    args := [];
    assert was[0..n] == was[..n];
    while line[p] != NUL && |args| < MAX_ARGS - 1
      invariant 0 <= p <= n && |args| <= MAX_ARGS - 1 && |args| <= |all|
      invariant line[p..] == was[p..] && OnlyCuts(was, line[..], n)
      invariant Words(was[p..n]) == all[|args|..]
      invariant Cut(line[..], args, all[..|args|], p, n)
      decreases n - p
    {
      ghost var before := line[..];
      SameTail(before, was, p, n);
      var found, start, end := NextWord(line, p, n);
      if !found {
        break;
      }
      var p' := EndWord(line, start, end, n);
      NextOfAll(all, |args|, before[start..end], Words(before[p'..n]));
      RoundKeeps(was, before, line[..], args, all[..|args|], p, start, end, p', n);
      args, p := args + [start], p';
    }
  }

  method SkipBlanks(line: array<char>, from: int, ghost n: int) returns (p: int)
    requires 0 <= from <= n < line.Length && line[n] == NUL && forall k :: from <= k < n ==> line[k] != NUL
    ensures from <= p <= n && !Blank(line[p]) && Blanks(line[..], from, p)
  {
    p := from;
    while line[p] == ' ' || line[p] == '\t'
      invariant from <= p <= n && Blanks(line[..], from, p)
      decreases n - p
    {
      p := p + 1;
    }
  }

  method SkipWord(line: array<char>, from: int, ghost n: int) returns (p: int)
    requires 0 <= from <= n < line.Length && line[n] == NUL && forall k :: from <= k < n ==> line[k] != NUL
    ensures from <= p <= n && BlankFree(line[..], from, p) && (p == n || Blank(line[p]))
  {
    p := from;
    while line[p] != NUL && line[p] != ' ' && line[p] != '\t'
      invariant from <= p <= n && BlankFree(line[..], from, p)
      decreases n - p
    {
      p := p + 1;
    }
  }
}
