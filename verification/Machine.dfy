/** Fixed-width arithmetic of the C program, and the exact ceiling that stands for
    `ceil(x / (double) y)` on values below 2^53. */
module Machine {
  const TWO_64 := 0x1_0000_0000_0000_0000
  const TWO_63 := 0x8000_0000_0000_0000

  /** Every unsigned quantity that is converted to `double` is exact below this bound. */
  const EXACT := 0x20_0000_0000_0000

  /** No object is this large: an allocation of so many bytes fails. */
  const ALLOCATABLE := TWO_63

  /** Conversion to `size_t` / `unsigned long`: the residue modulo 2^64, see `U64IsResidue`. */
  function U64(x: int): (r: nat)
    ensures r < TWO_64
    decreases x < 0, if x < 0 then -x else x
  {
    if x < 0 then U64(x + TWO_64) else if x >= TWO_64 then U64(x - TWO_64) else x
  }

  lemma U64Step(x: int)
    ensures U64(x + TWO_64) == U64(x)
  {
  }

  lemma {:induction false} U64Periodic(x: int, k: nat)
    ensures U64(x + k * TWO_64) == U64(x)
  {
    if k == 0 {
    } else {
      U64Step(x + (k - 1) * TWO_64);
      U64Periodic(x, k - 1);
    }
  }

  lemma U64Small(x: int)
    requires 0 <= x < TWO_64
    ensures U64(x) == x
  {
  }

  lemma MulMono(a: int, b: int, c: int)
    requires a <= b && 0 <= c
    ensures a * c <= b * c && c * a <= c * b
  {
  }

  /** The quotient and remainder are the only ones in range. */
  lemma DivUnique(x: int, y: int, q: int, r: int)
    requires 0 < y && 0 <= r < y && x == q * y + r
    ensures x / y == q && x % y == r
  {
    var q', r' := x / y, x % y;
    assert x == q' * y + r';
    if q < q' { MulMono(q + 1, q', y); }
    if q' < q { MulMono(q' + 1, q, y); }
  }

  lemma ResidueStep(x: int, y: int)
    requires 0 < y
    ensures (x + y) % y == x % y
  {
    assert x == x / y * y + x % y;
    DivUnique(x + y, y, x / y + 1, x % y);
  }

  lemma {:induction false} U64IsResidue(x: int)
    ensures U64(x) == x % TWO_64
    decreases x < 0, if x < 0 then -x else x
  {
    if x < 0 {
      U64IsResidue(x + TWO_64);
      ResidueStep(x, TWO_64);
    } else if x >= TWO_64 {
      U64IsResidue(x - TWO_64);
      ResidueStep(x - TWO_64, TWO_64);
    } else {
      DivUnique(x, TWO_64, 0, x);
    }
  }

  /** Wrapping early or late makes no difference. */
  lemma U64Add(x: int, y: int)
    ensures U64(U64(x) + y) == U64(x + y)
  {
    var u := U64(x);
    U64IsResidue(x);
    if x >= 0 {
      U64Periodic(u + y, x / TWO_64);
    } else {
      U64Periodic(x + y, -(x / TWO_64));
    }
  }

  /** The same for a subtrahend. */
  lemma U64Sub(x: int, y: int)
    ensures U64(x - U64(y)) == U64(x - y)
  {
    U64IsResidue(y);
    U64IsResidue(x - U64(y));
    U64IsResidue(x - y);
    U64Add(x - U64(y), U64(y));
    var k := y / TWO_64;
    if k >= 0 {
      U64Periodic(x - y, k);
    } else {
      U64Periodic(x - U64(y), -k);
    }
  }

  /** Conversion of an unsigned 64-bit value to `off_t` / `long`. */
  function S64(x: int): (r: int)
    ensures -TWO_63 <= r < TWO_63
    ensures -TWO_63 <= x < TWO_63 ==> r == x
    ensures TWO_63 <= x < TWO_64 ==> r == x - TWO_64
  {
    U64Step(x);
    var u := U64(x);
    if u < TWO_63 then u else u - TWO_64
  }

  function Min(a: int, b: int): int {
    if a < b then a else b
  }

  function Max(a: int, b: int): int {
    if a < b then b else a
  }

  /** `ceil(x / (double) y)`, counted up in steps of `y`; see `CeilDivIsCeiling`. */
  function CeilDiv(x: nat, y: nat): (q: nat)
    requires 0 < y
    ensures x == 0 <==> q == 0
    ensures q <= x
  {
    if x == 0 then 0 else if x <= y then 1 else 1 + CeilDiv(x - y, y)
  }

  lemma {:induction false} CeilDivBounds(x: nat, y: nat)
    requires 0 < y
    ensures x <= CeilDiv(x, y) * y < x + y
  {
    if x <= y {
    } else {
      CeilDivBounds(x - y, y);
      assert CeilDiv(x, y) * y == CeilDiv(x - y, y) * y + y;
    }
  }

  lemma CeilDivIsCeiling(x: nat, y: nat)
    requires 0 < y
    ensures CeilDiv(x, y) == (x + y - 1) / y
  {
    CeilDivBounds(x, y);
    DivUnique(x + y - 1, y, CeilDiv(x, y), x + y - 1 - CeilDiv(x, y) * y);
  }
}
