/** One bit of a 32-bit word, as `1 << (bit % 32)` masks it in kernel/mm.c. */
module BitWords {
  function Mask(k: int): bv32
    requires 0 <= k < 32
  {
    1 << k
  }

  lemma MaskIsNotZero(k: int)
    requires 0 <= k < 32
    ensures Mask(k) != 0
  {
  }

  /** The masks are 1, 2, 4, and so on: bit 0 is the lowest one of the word. */
  lemma MaskDoubles(k: int)
    requires 0 <= k < 31
    ensures Mask(0) == 1 && Mask(k + 1) == Mask(k) + Mask(k)
  {
  }

  lemma MasksApart(j: int, k: int)
    requires 0 <= j < 32 && 0 <= k < 32 && j != k
    ensures Mask(j) & Mask(k) == 0
  {
  }

  lemma OrSame(w: bv32, m: bv32)
    ensures (w | m) & m == m
  {
  }

  lemma AndNotSame(w: bv32, m: bv32)
    ensures (w & !m) & m == 0
  {
  }

  lemma OrApart(w: bv32, m: bv32, n: bv32)
    requires m & n == 0
    ensures (w | m) & n == w & n
  {
  }

  lemma AndNotApart(w: bv32, m: bv32, n: bv32)
    requires m & n == 0
    ensures (w & !m) & n == w & n
  {
  }

  lemma OrSeen(w: bv32, m: bv32, n: bv32, same: bool)
    requires n != 0 && if same then m == n else m & n == 0
    ensures (w | m) & n != 0 <==> same || w & n != 0
  {
    if same { OrSame(w, m); } else { OrApart(w, m, n); }
  }

  lemma AndNotSeen(w: bv32, m: bv32, n: bv32, same: bool)
    requires n != 0 && if same then m == n else m & n == 0
    ensures (w & !m) & n != 0 <==> !same && w & n != 0
  {
    if same { AndNotSame(w, m); } else { AndNotApart(w, m, n); }
  }

  predicate Test(w: bv32, k: int)
    requires 0 <= k < 32
  {
    w & Mask(k) != 0
  }

  lemma MaskedOr(w: bv32, j: int, k: int)
    requires 0 <= j < 32 && 0 <= k < 32
    ensures (w | Mask(j)) & Mask(k) != 0 <==> j == k || w & Mask(k) != 0
  {
    MaskIsNotZero(k);
    if j != k { MasksApart(j, k); }
    OrSeen(w, Mask(j), Mask(k), j == k);
  }

  lemma MaskedAndNot(w: bv32, j: int, k: int)
    requires 0 <= j < 32 && 0 <= k < 32
    ensures (w & !Mask(j)) & Mask(k) != 0 <==> j != k && w & Mask(k) != 0
  {
    MaskIsNotZero(k);
    if j != k { MasksApart(j, k); }
    AndNotSeen(w, Mask(j), Mask(k), j == k);
  }

  /** `w | (1 << k)`: bit k is set and every other bit is as before. */
  method OrMask(w: bv32, k: int) returns (r: bv32)
    requires 0 <= k < 32
    ensures forall j :: 0 <= j < 32 ==> Test(r, j) == if j == k then true else Test(w, j)
  {
    r := w | Mask(k);
    forall j | 0 <= j < 32 ensures Test(r, j) == (j == k || Test(w, j)) {
      MaskedOr(w, k, j);
    }
  }

  /** `w & ~(1 << k)`: bit k is clear and every other bit is as before. */
  method AndNotMask(w: bv32, k: int) returns (r: bv32)
    requires 0 <= k < 32
    ensures forall j :: 0 <= j < 32 ==> Test(r, j) == if j == k then false else Test(w, j)
  {
    r := w & !Mask(k);
    forall j | 0 <= j < 32 ensures Test(r, j) == (j != k && Test(w, j)) {
      MaskedAndNot(w, k, j);
    }
  }
}
