/** The size classes of the TLSF allocator: `MAPPING_INSERT` puts a block size into a
    (first level, second level) class, `MAPPING_SEARCH` rounds a request up to the least
    size of a class so that any block of that class or a later one is large enough. */
module TlsfMapping {
  import opened BitWord

  const MAX_SIZE: nat := 0x4000_0000  // 1 << MAX_FLI
  const SMALL_BLOCK: nat := 128
  const REAL_FLI: nat := 24
  const MAX_SLI: nat := 32

  /** `ROUNDUP_SIZE` */
  function RoundUp8(n: nat): nat { (n + 7) / 8 * 8 }

  /** `ROUNDDOWN_SIZE` */
  function RoundDown8(n: nat): nat { n / 8 * 8 }

  /** `(size < MIN_BLOCK_SIZE) ? MIN_BLOCK_SIZE : ROUNDUP_SIZE(size)` */
  function Adjust(size: nat): nat {
    if size < 8 then 8 else RoundUp8(size)
  }

  lemma Pow2Five(k: nat)
    ensures Pow2(k + 5) == 32 * Pow2(k)
  {
    assert Pow2(k + 2) == 4 * Pow2(k);
    assert Pow2(k + 4) == 4 * Pow2(k + 2);
  }

  lemma Pow2Next(k: nat)
    ensures Pow2(k + 1) == 2 * Pow2(k)
  {
  }

  lemma Pow2Seven()
    ensures Pow2(7) == SMALL_BLOCK
  {
  }

  lemma LargeExponent(r: nat)
    requires SMALL_BLOCK <= r
    ensures 7 <= MsBit(r)
    ensures var u := Pow2(MsBit(r) - 5); 32 * u <= r < 64 * u && u >= 4 && u % 4 == 0
  {
    hide Pow2, MsBit;
    FloorLog(r);
    Pow2Seven();
    Pow2Monotone(if MsBit(r) < 7 then MsBit(r) + 1 else 7, 7);
    var k := MsBit(r) - 5;
    Pow2Five(k);
    Pow2Next(MsBit(r));
    Pow2Next(k - 1);
    Pow2Next(k - 2);
  }

  /** The width `2^(ms_bit(r) - MAX_LOG2_SLI)` of the classes of a large size. */
  function Width(r: nat): (u: nat)
    requires SMALL_BLOCK <= r
    ensures 32 * u <= r < 64 * u
    ensures u >= 4 && u % 4 == 0
  {
    LargeExponent(r);
    Pow2(MsBit(r) - 5)
  }

  /** `MAPPING_INSERT` */
  function MappingInsert(r: nat): (c: (int, int)) {
    if r < SMALL_BLOCK then (0, r / 4)
    else (MsBit(r) - 6, r / Width(r) - 32)
  }

  /** `MAPPING_SEARCH`: the rounded request with its class. */
  function MappingSearch(r: nat): (c: (nat, int, int)) {
    if r < SMALL_BLOCK then (r, 0, r / 4)
    else
      var u := Width(r);
      var r1 := r + (u - 1);
      (r1 - r1 % u, MsBit(r1) - 6, r1 / Width(r1) - 32)
  }

  lemma NonNegativeClass(r: nat)
    ensures MappingInsert(r).0 >= 0 && MappingInsert(r).1 >= 0
  {
    if r >= SMALL_BLOCK {
      LargeExponent(r);
      DivBounds(r, Width(r), 32, 64);
    }
  }

  /** Classes in search order. */
  function Class(r: nat): (c: nat) {
    NonNegativeClass(r);
    MappingInsert(r).0 * MAX_SLI + MappingInsert(r).1
  }

  // ---- arithmetic on multiples of a width ----

  lemma MulMonotone(a: int, b: int, u: nat)
    requires a <= b
    ensures a * u <= b * u
  {
    assert (b - a) * u >= 0;
  }

  lemma MulOrder(a: int, b: int, u: nat)
    requires a * u < b * u
    ensures a < b
  {
    if b <= a {
      MulMonotone(b, a, u);
    }
  }

  lemma DivBounds(x: nat, u: nat, lo: nat, hi: nat)
    requires u > 0 && lo * u <= x < hi * u
    ensures lo <= x / u < hi
  {
    var q := x / u;
    assert q * u <= x < (q + 1) * u;
    MulOrder(lo, q + 1, u);
    MulOrder(q, hi, u);
  }

  lemma DivMonotone(x: nat, y: nat, u: nat)
    requires u > 0 && x <= y
    ensures x / u <= y / u
  {
    assert x / u * u <= x && y < (y / u + 1) * u;
    MulOrder(x / u, y / u + 1, u);
  }

  lemma MsBitBelow30(r: nat)
    requires 0 < r < MAX_SIZE
    ensures 0 <= MsBit(r) < 30
  {
    FloorLog(r);
    assert Pow2(15) == 0x8000;
    Pow2Add15(15);
    if MsBit(r) >= 30 {
      Pow2Monotone(30, MsBit(r));
    }
  }

  lemma Pow2Add15(t: nat)
    ensures Pow2(t + 15) == 0x8000 * Pow2(t)
  {
    Pow2Five(t);
    Pow2Five(t + 5);
    Pow2Five(t + 10);
  }

  /** Every size below 2^30 maps inside the 24 x 32 matrix. */
  lemma ClassInMatrix(r: nat)
    requires r < MAX_SIZE
    ensures 0 <= MappingInsert(r).0 < REAL_FLI && 0 <= MappingInsert(r).1 < MAX_SLI
    ensures r >= SMALL_BLOCK ==> MappingInsert(r).0 >= 1
    ensures Class(r) == MappingInsert(r).0 * 32 + MappingInsert(r).1
  {
    if r >= SMALL_BLOCK {
      LargeExponent(r);
      MsBitBelow30(r);
      DivBounds(r, Width(r), 32, 64);
    }
  }

  lemma MsBitMonotone(a: nat, b: nat)
    requires 0 < a <= b
    ensures MsBit(a) <= MsBit(b)
  {
    FloorLog(a);
    FloorLog(b);
    if MsBit(a) > MsBit(b) {
      Pow2Monotone(MsBit(b) + 1, MsBit(a));
    }
  }

  /** Larger sizes never map to earlier classes. */
  lemma ClassMonotone(a: nat, b: nat)
    requires a <= b < MAX_SIZE
    ensures Class(a) <= Class(b)
  {
    ClassInMatrix(a);
    ClassInMatrix(b);
    if a >= SMALL_BLOCK {
      MsBitMonotone(a, b);
      if MsBit(a) == MsBit(b) {
        DivMonotone(a, b, Width(a));
      }
    }
  }

  lemma Bracket(u: nat, q: nat, x: nat)
    requires 32 <= q < 64 && u * q <= x < u * (q + 1)
    ensures 32 * u <= x < 64 * u
  {
    MulMonotone(32, q, u);
    MulMonotone(q + 1, 64, u);
  }

  /** The class of a large size, from any bracket of it by multiples of a width. */
  lemma ClassOfMultiple(x: nat, k: nat, q: nat)
    requires 7 <= k && 32 <= q < 64
    requires Pow2(k - 5) * q <= x < Pow2(k - 5) * (q + 1)
    ensures x >= SMALL_BLOCK && MsBit(x) == k
    ensures x / Width(x) == q && Width(x) == Pow2(k - 5)
  {
    hide Pow2, MsBit;
    var u := Pow2(k - 5);
    Bracket(u, q, x);
    Pow2Five(k - 5);
    Pow2Next(k);
    Pow2Monotone(7, k);
    Pow2Seven();
    FloorLogUnique(x, k);
    DivBounds(x, u, q, q + 1);
  }

  lemma RoundUpTo(r: nat, u: nat)
    requires u > 0
    ensures var r1 := r + (u - 1); r1 - r1 % u == u * (r1 / u) && r <= u * (r1 / u) < r + u
  {
  }

  /** A rounded large request is a multiple of its class width, found by the search. */
  lemma SearchLarge(r: nat) returns (k: nat, q: nat)
    requires SMALL_BLOCK <= r
    ensures 7 <= k && 32 <= q < 64
    ensures MappingSearch(r) == (Pow2(k - 5) * q, k - 6, q - 32)
    ensures r <= MappingSearch(r).0 < r + Width(r)
  {
    hide Pow2, MsBit, MappingSearch;
    LargeExponent(r);
    var u := Width(r);
    var r1 := r + (u - 1);
    SearchParts(r);
    q := r1 / u;
    k := MsBit(r);
    DivBounds(r1, u, 32, 65);
    if q < 64 {
      RemainderBound(r1, u);
      ClassOfMultiple(r1, k, q);
    } else {
      DoubleWidth(k, u, r1);
      q, k := 32, k + 1;
    }
  }

  lemma SearchParts(r: nat)
    requires SMALL_BLOCK <= r
    ensures var u := Width(r); var r1 := r + (u - 1);
      && r <= u * (r1 / u) < r + u && r1 >= SMALL_BLOCK
      && MappingSearch(r) == (u * (r1 / u), MsBit(r1) - 6, r1 / Width(r1) - 32)
  {
    hide Pow2, MsBit, Width;
    RoundUpTo(r, Width(r));
  }

  lemma RemainderBound(x: nat, u: nat)
    requires u > 0
    ensures u * (x / u) <= x < u * (x / u + 1)
  {
  }

  lemma DoubleWidth(k: nat, u: nat, x: nat)
    requires 7 <= k && u == Pow2(k - 5) && 64 * u <= x < 65 * u
    ensures x >= SMALL_BLOCK && MsBit(x) == k + 1 && x / Width(x) == 32
    ensures Pow2(k - 4) * 32 == u * 64
  {
    assert Pow2(k - 4) == 2 * u;
    ClassOfMultiple(x, k + 1, 32);
  }

  lemma BelowMultiple(s: nat, k: nat, q: nat)
    requires 7 <= k && 32 <= q < 64 && s < Pow2(k - 5) * q < MAX_SIZE
    ensures Class(s) < Class(Pow2(k - 5) * q)
  {
    hide Pow2, MsBit;
    var u := Pow2(k - 5);
    var x := u * q;
    ClassOfMultiple(x, k, q);
    ClassMonotone(s, x - 1);
    ClassInMatrix(x - 1);
    if q > 32 {
      ClassOfMultiple(x - 1, k, q - 1);
    } else if x - 1 >= SMALL_BLOCK {
      FloorLog(x - 1);
      Pow2Five(k - 5);
      if MsBit(x - 1) >= k {
        Pow2Monotone(k, MsBit(x - 1));
      }
    }
  }

  lemma RoundedMultiple(r: nat)
    requires SMALL_BLOCK <= r && r % 8 == 0
    ensures MappingSearch(r).0 % 8 == 0
  {
    hide Pow2, MsBit, Width, MappingSearch;
    var u := WidthEight(r);
    SearchParts(r);
    if u == 4 {
      ByFours(r);
    } else {
      TimesEight(u / 8, (r + (u - 1)) / u);
    }
  }

  lemma ByFours(r: nat)
    requires r % 8 == 0
    ensures 4 * ((r + 3) / 4) % 8 == 0
  {
  }

  lemma WidthEight(r: nat) returns (u: nat)
    requires SMALL_BLOCK <= r
    ensures u == Width(r) && (u == 4 || u % 8 == 0)
  {
    LargeExponent(r);
    u := Width(r);
    if MsBit(r) > 7 {
      assert u == 2 * Pow2(MsBit(r) - 6) && Pow2(MsBit(r) - 6) == 4 * Pow2(MsBit(r) - 8);
    } else {
      assert u == Pow2(2) == 4;
    }
  }

  lemma TimesEight(v: nat, q: nat)
    ensures (8 * v) * q % 8 == 0
  {
    assert (8 * v) * q == 8 * (v * q);
  }

  lemma LargeExact(r: nat, s: nat)
    requires SMALL_BLOCK <= r && r % 8 == 0 && MappingSearch(r).0 < MAX_SIZE
    ensures var (r', fl, sl) := MappingSearch(r);
      && MappingInsert(r') == (fl, sl)
      && r <= r' && r' % 8 == 0 && 32 * (r' - r) < r
      && (s < r' ==> Class(s) < Class(r'))
  {
    hide Pow2, MsBit, Width, MappingSearch, Class;
    var k, q := SearchLarge(r);
    ClassOfMultiple(MappingSearch(r).0, k, q);
    RoundedMultiple(r);
    if s < MappingSearch(r).0 {
      BelowMultiple(s, k, q);
    }
  }

  /** `MAPPING_SEARCH` is exact: its class is where `MAPPING_INSERT` puts the rounded
      request; rounding keeps 8-byte multiples and adds less than 1/32 of a large request;
      and a size maps to that class or a later one exactly when it is large enough. */
  lemma SearchExact(r: nat, s: nat)
    requires r % 8 == 0 && MappingSearch(r).0 < MAX_SIZE && s < MAX_SIZE
    ensures var (r', fl, sl) := MappingSearch(r);
      && MappingInsert(r') == (fl, sl)
      && r <= r' && r' % 8 == 0
      && (r < SMALL_BLOCK ==> r' == r)
      && (r >= SMALL_BLOCK ==> 32 * (r' - r) < r)
      && (s >= r' <==> Class(s) >= Class(r'))
  {
    var r' := MappingSearch(r).0;
    if r >= SMALL_BLOCK {
      LargeExact(r, s);
    }
    if s >= r' {
      ClassMonotone(r', s);
    }
  }
}
