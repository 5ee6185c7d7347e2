/** Machine words used as bitmaps and sizes, as naturals below 2^32 whose bit `k` is
    `(w / 2^k) % 2`: setting, clearing and masking bits, PaRTiKle's portable `_ffs`,
    and the table-driven `ls_bit` and `ms_bit` of the TLSF allocator. */
module BitWord {
  import opened Basics

  function Pow2(n: nat): (p: nat)
    ensures p >= 1
  {
    if n == 0 then 1 else 2 * Pow2(n - 1)
  }

  predicate Test(w: nat, k: nat) {
    if k == 0 then w % 2 == 1 else Test(w / 2, k - 1)
  }

  /** `w | (1 << k)` */
  function SetBit(w: nat, k: nat): nat {
    if k == 0 then w - w % 2 + 1 else 2 * SetBit(w / 2, k - 1) + w % 2
  }

  /** `w & ~(1 << k)` */
  function ClearBit(w: nat, k: nat): nat {
    if k == 0 then w - w % 2 else 2 * ClearBit(w / 2, k - 1) + w % 2
  }

  /** `w & (~0 << k)` */
  function FromBit(w: nat, k: nat): nat {
    if k == 0 then w else 2 * FromBit(w / 2, k - 1)
  }

  /** `w & -w` */
  function LowBit(w: nat): nat
    requires w != 0
  {
    if w % 2 == 1 then 1 else 2 * LowBit(w / 2)
  }

  lemma Doubled(x: nat, b: nat)
    requires b < 2
    ensures (2 * x + b) / 2 == x && (2 * x + b) % 2 == b
  {
  }

  /** Setting a bit adds exactly the position it names. */
  lemma {:induction false} SetBitTest(w: nat, k: nat, j: nat)
    ensures Test(SetBit(w, k), j) <==> Test(w, j) || j == k
  {
    if k != 0 {
      Doubled(SetBit(w / 2, k - 1), w % 2);
      if j != 0 {
        SetBitTest(w / 2, k - 1, j - 1);
      }
    }
  }

  /** Clearing a bit removes exactly the position it names. */
  lemma {:induction false} ClearBitTest(w: nat, k: nat, j: nat)
    ensures Test(ClearBit(w, k), j) <==> Test(w, j) && j != k
  {
    if k != 0 {
      Doubled(ClearBit(w / 2, k - 1), w % 2);
      if j != 0 {
        ClearBitTest(w / 2, k - 1, j - 1);
      }
    }
  }

  /** Masking keeps exactly the positions from `k` upwards. */
  lemma {:induction false} FromBitTest(w: nat, k: nat, j: nat)
    ensures Test(FromBit(w, k), j) <==> Test(w, j) && k <= j
  {
    if k != 0 {
      Doubled(FromBit(w / 2, k - 1), 0);
      if j != 0 {
        FromBitTest(w / 2, k - 1, j - 1);
      }
    }
  }

  lemma {:induction false} WordBounds(w: nat, k: nat, n: nat)
    requires k < n && w < Pow2(n)
    ensures SetBit(w, k) < Pow2(n) && ClearBit(w, k) < Pow2(n) && FromBit(w, k) < Pow2(n)
  {
    if k != 0 {
      WordBounds(w / 2, k - 1, n - 1);
    }
  }

  lemma {:induction false} NoBits(k: nat)
    ensures !Test(0, k)
  {
    if k != 0 {
      NoBits(k - 1);
    }
  }

  lemma WordBits(w: nat, k: nat)
    requires w < WORD && k < 32
    ensures SetBit(w, k) < WORD && ClearBit(w, k) < WORD && FromBit(w, k) < WORD && SetBit(w, k) != 0
  {
    WordIsPow2();
    WordBounds(w, k, 32);
    SetBitTest(w, k, k);
    NoBits(k);
  }

  lemma WordIsPow2()
    ensures Pow2(32) == WORD
  {
    Pow2Byte(0);
    Pow2Byte(8);
    Pow2Byte(16);
    Pow2Byte(24);
  }

  /** `r` is the least position set in `w`. */
  ghost predicate IsLowest(w: nat, r: int) {
    0 <= r && Test(w, r) && forall j: nat :: j < r ==> !Test(w, j)
  }

  // ---- shifting out zero bits ----

  /** `y` is `x >> s`, and the `s` bits shifted out are zero. */
  ghost predicate ShiftedOut(x: nat, y: nat, s: nat) {
    && (forall j: nat {:trigger Test(y, j)} :: Test(y, j) == Test(x, j + s))
    && (forall j: nat {:trigger Test(x, j)} :: j < s ==> !Test(x, j))
  }

  lemma ShiftCompose(x: nat, y: nat, z: nat, s: nat, t: nat)
    requires ShiftedOut(x, y, s) && ShiftedOut(y, z, t)
    ensures ShiftedOut(x, z, s + t)
  {
    forall j: nat
      ensures Test(z, j) == Test(x, j + (s + t))
    {
      assert Test(z, j) == Test(y, j + t) == Test(x, j + t + s);
    }
    forall j: nat | j < s + t
      ensures !Test(x, j)
    {
      if j >= s { assert Test(y, j - s) == Test(x, j - s + s); }
    }
  }

  lemma Shift1(x: nat)
    requires x % 2 == 0
    ensures ShiftedOut(x, x / 2, 1)
  {
    forall j: nat
      ensures Test(x / 2, j) == Test(x, j + 1)
    {
    }
  }

  lemma Shift2(x: nat)
    requires x % 4 == 0
    ensures ShiftedOut(x, x / 4, 2)
  {
    Shift1(x);
    Shift1(x / 2);
    ShiftCompose(x, x / 2, x / 4, 1, 1);
  }

  lemma Shift4(x: nat)
    requires x % 0x10 == 0
    ensures ShiftedOut(x, x / 0x10, 4)
  {
    Shift2(x);
    Shift2(x / 4);
    ShiftCompose(x, x / 4, x / 0x10, 2, 2);
  }

  lemma Shift8(x: nat)
    requires x % 0x100 == 0
    ensures ShiftedOut(x, x / 0x100, 8)
  {
    Shift4(x);
    Shift4(x / 0x10);
    ShiftCompose(x, x / 0x10, x / 0x100, 4, 4);
  }

  lemma Shift16(x: nat)
    requires x % 0x1_0000 == 0
    ensures ShiftedOut(x, x / 0x1_0000, 16)
  {
    Shift8(x);
    Shift8(x / 0x100);
    ShiftCompose(x, x / 0x100, x / 0x1_0000, 8, 8);
  }

  lemma ByteResidue(x: nat)
    requires x % 0x10 == 0
    ensures x / 0x10 % 0x10 == 0 ==> x % 0x100 == 0
  {
    assert x / 0x10 % 0x10 == 0 ==> x == 0x100 * (x / 0x10 / 0x10);
  }

  lemma NibbleResidue(x: nat)
    requires x % 4 == 0
    ensures x / 4 % 4 == 0 ==> x % 0x10 == 0
  {
    assert x / 4 % 4 == 0 ==> x == 0x10 * (x / 4 / 4);
  }

  lemma PairResidue(x: nat)
    requires x % 2 == 0
    ensures x / 2 % 2 == 0 ==> x % 4 == 0
  {
    assert x / 2 % 2 == 0 ==> x == 4 * (x / 2 / 2);
  }

  /** `_ffs`: the least position set, or -1 for the empty word. */
  method Ffs(w: nat) returns (r: int)
    requires w < WORD
    ensures w == 0 ==> r == -1
    ensures w != 0 ==> IsLowest(w, r) && r < 32
  {
    var x := w;
    r := 0;
    if x == 0 {
      return -1;
    }
    if x % 0x1_0000 == 0 {
      Shift16(x);
      x := x / 0x1_0000;
      r := r + 16;
    }
    assert x % 0x1_0000 != 0 && ShiftedOut(w, x, r);
    if x % 0x100 == 0 {
      Shift8(x);
      ShiftCompose(w, x, x / 0x100, r, 8);
      x := x / 0x100;
      r := r + 8;
    }
    r := FfsByte(w, x, r);
  }

  // the last three steps of `_ffs`, once the lowest set bit is within the low byte
  method FfsByte(ghost w: nat, x0: nat, r0: nat) returns (r: int)
    requires ShiftedOut(w, x0, r0) && x0 % 0x100 != 0
    ensures IsLowest(w, r) && r <= r0 + 7
  {
    var x := x0;
    r := r0;
    if x % 0x10 == 0 {
      Shift4(x);
      ByteResidue(x);
      ShiftCompose(w, x, x / 0x10, r, 4);
      x := x / 0x10;
      r := r + 4;
    }
    assert x % 0x10 != 0 && ShiftedOut(w, x, r);
    if x % 4 == 0 {
      Shift2(x);
      NibbleResidue(x);
      ShiftCompose(w, x, x / 4, r, 2);
      x := x / 4;
      r := r + 2;
    }
    assert x % 4 != 0 && ShiftedOut(w, x, r);
    if x % 2 == 0 {
      Shift1(x);
      PairResidue(x);
      ShiftCompose(w, x, x / 2, r, 1);
      x := x / 2;
      r := r + 1;
    }
    ScanEnd(w, x, r);
  }

  lemma ScanEnd(w: nat, x: nat, r: nat)
    requires ShiftedOut(w, x, r) && x % 2 == 1
    ensures IsLowest(w, r)
  {
    assert Test(x, 0);
  }

  // ---- most and least significant bit ----

  /** Position of the most significant bit: the floor of log2, -1 at zero. */
  function MsBit(x: nat): (r: int)
    ensures r >= -1
  {
    if x == 0 then -1 else 1 + MsBit(x / 2)
  }

  /** Position of the least significant bit, -1 at zero. */
  function LsBit(w: nat): (r: int)
    ensures r >= -1
  {
    if w == 0 then -1 else if w % 2 == 1 then 0 else 1 + LsBit(w / 2)
  }

  /** `table[i]` of the allocator, for a byte `i`. */
  function Table(i: nat): int {
    if i == 0 then -1 else if i < 2 then 0 else if i < 4 then 1 else if i < 8 then 2
    else if i < 16 then 3 else if i < 32 then 4 else if i < 64 then 5
    else if i < 128 then 6 else 7
  }

  /** `table[x >> a] + a`, with `a` chosen by comparing against byte boundaries. */
  function ByTable(x: nat): int {
    if x <= 0xffff then
      if x <= 0xff then Table(x) else Table(x / 0x100) + 8
    else
      if x <= 0xff_ffff then Table(x / 0x1_0000) + 16 else Table(x / 0x100_0000) + 24
  }

  lemma {:induction false} FloorLog(x: nat)
    requires x != 0
    ensures MsBit(x) >= 0 && Pow2(MsBit(x)) <= x < Pow2(MsBit(x) + 1)
  {
    if x != 1 {
      FloorLog(x / 2);
    }
  }

  lemma {:induction false} Pow2Monotone(a: nat, b: nat)
    requires a <= b
    ensures Pow2(a) <= Pow2(b)
  {
    if a < b {
      Pow2Monotone(a, b - 1);
    }
  }

  /** The exponent below a word is unique. */
  lemma FloorLogUnique(x: nat, k: nat)
    requires Pow2(k) <= x < Pow2(k + 1)
    ensures MsBit(x) == k
  {
    FloorLog(x);
    if MsBit(x) < k {
      Pow2Monotone(MsBit(x) + 1, k);
    } else if k < MsBit(x) {
      Pow2Monotone(k + 1, MsBit(x));
    }
  }

  lemma TableFloorLog(i: nat)
    requires 0 < i < 0x100
    ensures 0 <= Table(i) < 8 && Pow2(Table(i)) <= i < 2 * Pow2(Table(i))
  {
    assert Pow2(7) == 0x80 && Pow2(6) == 0x40 && Pow2(5) == 0x20 && Pow2(4) == 0x10;
  }

  lemma Pow2Byte(t: nat)
    ensures Pow2(t + 8) == 0x100 * Pow2(t)
  {
    assert Pow2(t + 2) == 4 * Pow2(t);
    assert Pow2(t + 4) == 4 * Pow2(t + 2);
    assert Pow2(t + 6) == 4 * Pow2(t + 4);
    assert Pow2(t + 8) == 4 * Pow2(t + 6);
  }

  /** `ms_bit`: the table-driven scan is the floor of log2 on every word. */
  lemma MsBitByTable(x: nat)
    requires x < WORD
    ensures ByTable(x) == MsBit(x) < 32
  {
    if x != 0 {
      var i := if x > 0xff_ffff then x / 0x100_0000 else if x > 0xffff then x / 0x1_0000
               else if x > 0xff then x / 0x100 else x;
      TableFloorLog(i);
      var t := Table(i);
      Pow2Byte(t);
      Pow2Byte(t + 8);
      Pow2Byte(t + 16);
      FloorLogUnique(x, ByTable(x));
    }
  }

  /** The isolated lowest bit is the power of two at the least position set. */
  lemma {:induction false} LowBitIsPower(w: nat)
    requires w != 0
    ensures LsBit(w) >= 0 && LowBit(w) == Pow2(LsBit(w)) <= w && IsLowest(w, LsBit(w))
  {
    if w % 2 == 0 {
      LowBitIsPower(w / 2);
      forall j: nat | j < LsBit(w)
        ensures !Test(w, j)
      {
        if j != 0 { assert !Test(w / 2, j - 1); }
      }
    }
  }

  /** `ls_bit`: the table-driven scan of `w & -w` is the least position set. */
  lemma LsBitByTable(w: nat)
    requires 0 < w < WORD
    ensures ByTable(LowBit(w)) == LsBit(w) < 32 && IsLowest(w, LsBit(w))
  {
    LowBitIsPower(w);
    MsBitByTable(LowBit(w));
    FloorLogUnique(LowBit(w), LsBit(w));
  }

  lemma {:induction false} MsBitShift(x: nat, k: nat)
    requires x > 0
    ensures x * Pow2(k) > 0 && MsBit(x * Pow2(k)) == MsBit(x) + k
  {
    if k > 0 {
      MsBitShift(x, k - 1);
      Doubling(x, Pow2(k - 1));
      MsBitDouble(x * Pow2(k - 1));
    }
  }

  lemma Doubling(x: nat, p: nat)
    ensures x * (2 * p) == 2 * (x * p)
  {
  }

  lemma MsBitDouble(y: nat)
    requires y > 0
    ensures MsBit(2 * y) == MsBit(y) + 1
  {
    Doubled(y, 0);
  }

  lemma MsBitTop(x: nat)
    requires 0x8000_0000 <= x < WORD
    ensures MsBit(x) == 31
  {
    WordIsPow2();
    assert Pow2(32) == 2 * Pow2(31);
    FloorLogUnique(x, 31);
  }

  /** `_fls`: the greatest position set, or -1 for the empty word. */
  method Fls(w: nat) returns (r: int)
    requires w < WORD
    ensures r == MsBit(w)
  {
    hide MsBit, Pow2;
    var x := w;
    r := 31;
    if x == 0 {
      Empty();
      return -1;
    }
    Powers();
    if x < 0x1_0000 {
      MsBitShift(x, 16);
      x := x * 0x1_0000;
      r := r - 16;
    }
    if x < 0x100_0000 {
      MsBitShift(x, 8);
      x := x * 0x100;
      r := r - 8;
    }
    if x < 0x1000_0000 {
      MsBitShift(x, 4);
      x := x * 0x10;
      r := r - 4;
    }
    if x < 0x4000_0000 {
      MsBitShift(x, 2);
      x := x * 4;
      r := r - 2;
    }
    if x < 0x8000_0000 {
      MsBitShift(x, 1);
      x := x * 2;
      r := r - 1;
    }
    MsBitTop(x);
  }

  lemma Empty()
    ensures MsBit(0) == -1
  {
  }

  lemma Powers()
    ensures Pow2(16) == 0x1_0000 && Pow2(8) == 0x100 && Pow2(4) == 0x10 && Pow2(2) == 4 && Pow2(1) == 2
  {
    Pow2Byte(0);
    Pow2Byte(8);
    assert Pow2(4) == 4 * Pow2(2);
  }
}
