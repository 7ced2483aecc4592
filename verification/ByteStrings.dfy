/** Memory and string primitives of lib/string.c over one byte buffer. */
module ByteStrings {
  import opened Machine

  /** Section 7.21.2.2 of ISO/IEC 9899:1999: n bytes move as if through a temporary, for any
      overlap of the two areas of one buffer. */
  method Memmove(mem: array<byte>, dest: int, src: int, n: int)
    requires 0 <= dest && 0 <= src && 0 <= n && dest + n <= mem.Length && src + n <= mem.Length
    modifies mem
    ensures mem[dest..dest + n] == old(mem[src..src + n])
    ensures mem[..dest] == old(mem[..dest]) && mem[dest + n..] == old(mem[dest + n..])
  {
    if dest < src {
      CopyUp(mem, dest, src, n);
    } else {
      CopyDown(mem, dest, src, n);
    }
  }

  method CopyUp(mem: array<byte>, dest: int, src: int, n: int)
    requires 0 <= dest < src && 0 <= n && src + n <= mem.Length
    modifies mem
    ensures mem[dest..dest + n] == old(mem[src..src + n])
    ensures forall k :: 0 <= k < dest || dest + n <= k < mem.Length ==> mem[k] == old(mem[k])
  {
    ghost var was := mem[..];
    for i := 0 to n
      invariant mem[dest..dest + i] == was[src..src + i]
      invariant forall k :: 0 <= k < dest || dest + i <= k < mem.Length ==> mem[k] == was[k]
    {
      mem[dest + i] := mem[src + i];
      assert mem[dest..dest + i + 1] == mem[dest..dest + i] + [was[src + i]];
    }
  }

  method CopyDown(mem: array<byte>, dest: int, src: int, n: int)
    requires 0 <= src <= dest && 0 <= n && dest + n <= mem.Length
    modifies mem
    ensures mem[dest..dest + n] == old(mem[src..src + n])
    ensures forall k :: 0 <= k < dest || dest + n <= k < mem.Length ==> mem[k] == old(mem[k])
  {
    ghost var was := mem[..];
    var i := n;
    while i > 0
      invariant 0 <= i <= n && mem[dest + i..dest + n] == was[src + i..src + n]
      invariant forall k :: 0 <= k < dest + i || dest + n <= k < mem.Length ==> mem[k] == was[k]
    {
      mem[dest + i - 1] := mem[src + i - 1];
      assert mem[dest + i - 1..dest + n] == [was[src + i - 1]] + mem[dest + i..dest + n];
      i := i - 1;
    }
  }

  /** s holds a string that starts at p and has its NUL at p + n. */
  ghost predicate IsString(s: seq<byte>, p: int, n: int) {
    0 <= p <= p + n < |s| && s[p + n] == 0 && forall k :: p <= k < p + n ==> s[k] != 0
  }

  method Strlen(s: seq<byte>, p: int, ghost n: int) returns (len: int)
    requires IsString(s, p, n)
    ensures len == n
  {
    len := 0;
    while s[p + len] != 0
      invariant 0 <= len <= n
      decreases n - len
    {
      len := len + 1;
    }
  }

  /** The length-len stretch at i is the stretch at q. */
  ghost predicate Same(s: seq<byte>, i: int, q: int, len: int) {
    && 0 <= len && 0 <= i && 0 <= q && i + len <= |s| && q + len <= |s|
    && s[i..i + len] == s[q..q + len]
  }

  lemma Differ(s: seq<byte>, p: int, q: int, len: int, k: int)
    requires 0 <= k < len && 0 <= p && 0 <= q && p + len <= |s| && q + len <= |s| && s[p + k] != s[q + k]
    ensures !Same(s, p, q, len)
  {
    assert s[p..p + len][k] == s[p + k] && s[q..q + len][k] == s[q + k];
  }

  lemma OneMore(s: seq<byte>, p: int, q: int, i: int)
    requires Same(s, p, q, i) && p + i < |s| && q + i < |s| && s[p + i] == s[q + i]
    ensures Same(s, p, q, i + 1)
  {
    assert s[p..p + i + 1] == s[p..p + i] + [s[p + i]];
    assert s[q..q + i + 1] == s[q..q + i] + [s[q + i]];
  }

  /** Zero exactly when the strings agree on their first `len` bytes, or are equal and shorter;
      otherwise the difference of the first bytes that differ. */
  method Strncmp(s: seq<byte>, p: int, q: int, len: int, ghost n: int, ghost m: int) returns (r: int)
    requires IsString(s, p, n) && IsString(s, q, m) && 0 <= len
    ensures r == 0 <==> if len <= n && len <= m then Same(s, p, q, len) else n == m && Same(s, p, q, n)
    ensures r != 0 ==> exists k :: 0 <= k < len && k <= n && k <= m && Same(s, p, q, k) &&
                           r == s[p + k] as int - s[q + k] as int && r != 0
  {
    for i := 0 to len
      invariant i <= n && i <= m && Same(s, p, q, i)
    {
      if s[p + i] != s[q + i] {
        if len <= n && len <= m {
          Differ(s, p, q, len, i);
        } else if n == m {
          Differ(s, p, q, n, i);
        }
        r := s[p + i] as int - s[q + i] as int;
        return;
      }
      if s[p + i] == 0 {
        return 0;
      }
      OneMore(s, p, q, i);
    }
    return 0;
  }

  /** Section 7.21.5.7 of ISO/IEC 9899:1999: the first occurrence of the needle at q in the
      haystack at p, or null (-1) exactly when there is none. */
  method Strstr(s: seq<byte>, p: int, q: int, ghost n: int, ghost m: int) returns (r: int)
    requires IsString(s, p, n) && IsString(s, q, m)
    ensures r == -1 <==> forall i :: p <= i <= p + n - m ==> !Same(s, i, q, m)
    ensures r != -1 ==> p <= r <= p + n - m && Same(s, r, q, m) && forall i :: p <= i < r ==> !Same(s, i, q, m)
  {
    var len := Strlen(s, q, m);
    if len == 0 {
      assert Same(s, p, q, 0);
      return p;
    }
    r := p;
    while s[r] != 0
      invariant p <= r <= p + n
      invariant forall i :: p <= i < r && i <= p + n - m ==> !Same(s, i, q, m)
      decreases p + n - r
    {
      var c := Strncmp(s, r, q, len, p + n - r, m);
      if c == 0 {
        return;
      }
      r := r + 1;
    }
    return -1;
  }
}
