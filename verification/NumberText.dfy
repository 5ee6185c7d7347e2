/** PaRTiKle's number parsing (`strtoul` and `strtol`, section 7.20.1.4 of ISO/IEC 9899:1999) and the
    integer conversion of its `printf`, for a 32-bit target. */
module NumberText {
  import opened Basics

  type Text = seq<Byte>

  const ULONG_MAX := 0xFFFF_FFFF
  const LONG_MAX := 0x7FFF_FFFF
  const LONG_MIN := -0x8000_0000
  const ABS_LONG_MIN := 0x8000_0000

  /** A C string is ended by a zero byte. */
  function At(s: Text, i: nat): Byte { if i < |s| then s[i] else 0 }

  predicate IsSpace(c: Byte) { 9 <= c < 14 || c == ' ' as int }

  predicate IsHexDigit(c: Byte) {
    '0' as int <= c <= '9' as int || 'a' as int <= c <= 'f' as int || 'A' as int <= c <= 'F' as int
  }

  predicate IsAlnum(c: Byte) {
    '0' as int <= c <= '9' as int || 'a' as int <= c <= 'z' as int || 'A' as int <= c <= 'Z' as int
  }

  // ---- what a text means ----

  /** The value of a digit, or 36 for a character that is a digit in no base. */
  function DigitValue(c: Byte): (d: nat)
    ensures d <= 36
  {
    if '0' as int <= c <= '9' as int then c - '0' as int
    else if 'a' as int <= c <= 'z' as int then c - 'a' as int + 10
    else if 'A' as int <= c <= 'Z' as int then c - 'A' as int + 10
    else 36
  }

  /** The first position from `i` on with a character that is no space. */
  function SkipSpaces(s: Text, i: nat): (k: nat)
    requires i <= |s|
    ensures i <= k <= |s|
    decreases |s| - i
  {
    if i < |s| && IsSpace(s[i]) then SkipSpaces(s, i + 1) else i
  }

  /** The first position from `i` on that holds no digit of the base. */
  function DigitsEnd(s: Text, i: nat, base: nat): (e: nat)
    requires i <= |s| && base <= 36
    ensures i <= e <= |s|
    decreases |s| - i
  {
    if i < |s| && DigitValue(s[i]) < base then DigitsEnd(s, i + 1, base) else i
  }

  /** The number denoted by the digits from `i` to before `e`. */
  function Value(s: Text, i: nat, e: nat, base: nat): nat
    requires i <= e <= |s|
  {
    if i == e then 0 else Value(s, i, e - 1, base) * base + DigitValue(s[e - 1])
  }

  /** Where the digits begin, after the sign at `k`, and in which base; base 0 if none is possible. */
  function Start(s: Text, k: nat, base: int): (r: (nat, nat))
    requires k <= |s|
    ensures k <= r.0 <= |s| && r.1 <= 36 && r.1 != 1 && (r.1 == 0 ==> r.0 == k)
  {
    var prefixed := At(s, k) == '0' as int && (At(s, k + 1) == 'x' as int || At(s, k + 1) == 'X' as int)
      && IsHexDigit(At(s, k + 2));
    if base == 0 then
      if prefixed then (k + 2, 16) else if At(s, k) == '0' as int then (k, 8) else (k, 10)
    else if base == 16 && prefixed then (k + 2, 16)
    else if 2 <= base <= 36 then (k, base) else (k, 0)
  }

  /** A number parsed: whether it has a minus sign, its magnitude, and where the text of it ends, or
      nothing if there are no digits. */
  datatype Parsed = BadBase | NoNumber | Number(negative: bool, magnitude: nat, end: nat)

  /** The conversion that the standard asks for, of the text from `from` on. */
  function Parse(s: Text, from: nat, base: int): Parsed
    requires from <= |s|
  {
    var i := SkipSpaces(s, from);
    var negative := At(s, i) == '-' as int;
    Digits(s, negative, if negative || At(s, i) == '+' as int then i + 1 else i, base)
  }

  function Digits(s: Text, negative: bool, k: nat, base: int): Parsed
    requires k <= |s|
  {
    var (b, radix) := Start(s, k, base);
    if radix == 0 then BadBase
    else
      var e := DigitsEnd(s, b, radix);
      if e == k then NoNumber else Number(negative, Value(s, b, e, radix), e)
  }

  function Unsigned(p: Parsed): nat {
    if !p.Number? then 0
    else if p.magnitude > ULONG_MAX then ULONG_MAX
    else if p.negative then (WORD - p.magnitude) % WORD else p.magnitude
  }

  function Signed(p: Parsed): int {
    if !p.Number? then 0
    else if p.negative then (if -(p.magnitude as int) < LONG_MIN then LONG_MIN else -(p.magnitude as int))
    else if p.magnitude > LONG_MAX then LONG_MAX else p.magnitude
  }

  /** What is stored through `endptr`: the start of the text if there is no number, nothing (-1) if
      the base is bad. */
  function End(p: Parsed, from: nat): int {
    match p
    case BadBase => -1
    case NoNumber => from
    case Number(_, _, e) => e
  }

  lemma {:induction false} DigitsEndAt(s: Text, i: nat, e: nat, base: nat)
    requires i <= e <= |s| && base <= 36 && forall k :: i <= k < e ==> DigitValue(s[k]) < base
    requires e == |s| || DigitValue(s[e]) >= base
    ensures DigitsEnd(s, i, base) == e
    decreases e - i
  {
    if i < e {
      DigitsEndAt(s, i + 1, e, base);
    }
  }

  /** Some texts and what they mean. Letters of either case are digits, a sign may follow spaces, and in
      base 0 a prefix gives the base: " \t-0x1aF,". */
  lemma HexadecimalText()
    ensures Parse([' ' as int, 9, '-' as int, '0' as int, 'x' as int, '1' as int, 'a' as int, 'F' as int, ',' as int], 0, 0)
      == Number(true, 0x1AF, 8)
  {
    var t: Text := [32, 9, 45, 48, 120, 49, 97, 70, 44];
    assert SkipSpaces(t, 0) == 2 by { assert SkipSpaces(t, 1) == 2; }
    assert Start(t, 3, 0) == (5, 16);
    DigitsEndAt(t, 5, 8, 16);
    assert Value(t, 5, 6, 16) == 1;
    assert Value(t, 5, 7, 16) == 26;
    assert Value(t, 5, 8, 16) == 0x1AF;
  }

  /** The prefix counts only before a digit of base 16: "0xg" is zero, "0X7" is seven. */
  lemma PrefixedTexts()
    ensures Parse(['0' as int, 'x' as int, 'g' as int], 0, 16) == Number(false, 0, 1)
    ensures Parse(['0' as int, 'X' as int, '7' as int], 0, 16) == Number(false, 7, 3)
  {
    var t: Text := [48, 120, 103];
    DigitsEndAt(t, 0, 1, 16);
    var u: Text := [48, 88, 55];
    DigitsEndAt(u, 2, 3, 16);
  }

  /** Base 8 by a leading zero, base 36 as asked for: "0179" is 15, "+zZ" is 35 times 37. */
  lemma OtherBases()
    ensures Parse(['0' as int, '1' as int, '7' as int, '9' as int], 0, 0) == Number(false, 15, 3)
    ensures Parse(['+' as int, 'z' as int, 'Z' as int], 0, 36) == Number(false, 35 * 37, 3)
  {
    var t: Text := [48, 49, 55, 57];
    DigitsEndAt(t, 0, 3, 8);
    assert Value(t, 0, 1, 8) == 0;
    assert Value(t, 0, 2, 8) == 1;
    var u: Text := [43, 122, 90];
    DigitsEndAt(u, 1, 3, 36);
    assert Value(u, 1, 2, 36) == 35;
  }

  /** No number: nothing that is a digit after the sign, or no such base. */
  lemma NoNumberTexts()
    ensures Parse(['-' as int, ' ' as int, '5' as int], 0, 10) == NoNumber
    ensures Parse(['1' as int], 0, 1) == BadBase && Parse(['1' as int], 0, 37) == BadBase
  {
    var t: Text := [45, 32, 53];
    DigitsEndAt(t, 1, 1, 10);
  }

  // ---- strtoul ----

  /** The digit as the code computes it in an unsigned char. */
  function CharDigit(c: Byte): nat {
    (if c >= 'a' as int then c - 'a' as int + 10
     else if c >= 'A' as int then c - 'A' as int + 10
     else if c <= '9' as int then c - '0' as int else 0xff) % 256
  }

  lemma CharDigitValue(c: Byte, base: nat)
    requires base <= 36
    ensures CharDigit(c) < base <==> DigitValue(c) < base
    ensures CharDigit(c) < base ==> CharDigit(c) == DigitValue(c)
  {
  }

  /** The number with one digit more. */
  function Appended(v: nat, base: nat, c: nat): nat { v * base + c }

  /** The product of the low byte, with the digit. */
  function LowPart(v: nat, base: nat, c: nat): nat { v % 256 * base + c }

  /** The product of the rest, with what the low part `x` carries over. */
  function HighPart(v: nat, base: nat, x: nat): nat { v / 256 * base + x / 256 }

  /** The multiplication of `v` by the base in two parts. */
  lemma SplitProduct(v: nat, base: nat, c: nat)
    requires v < WORD && base <= 36 && c < base
    ensures var x := LowPart(v, base, c); var w := HighPart(v, base, x);
      Appended(v, base, c) == w * 256 + x % 256 && x < WORD && w < WORD
  {
    var h, l := v / 256, v % 256;
    assert v == h * 256 + l;
    assert v * base == h * base * 256 + l * base;
    assert l * base <= 255 * 36 by { Product(l, base, 255, 36); }
    assert h * base <= 0xFF_FFFF * 36 by { Product(h, base, 0xFF_FFFF, 36); }
  }

  /** Putting the parts together again loses the high part exactly if it does not fit. */
  lemma Recombine(w: nat, r: nat)
    requires w < WORD && r < 256
    ensures (w * 256 % WORD + r) % WORD < WORD && (w > ULONG_MAX / 256 <==> w * 256 + r >= WORD)
    ensures w <= ULONG_MAX / 256 ==> (w * 256 % WORD + r) % WORD == w * 256 + r
  {
  }

  /** A number that does not fit a word stays so with further digits. */
  lemma StaysBig(value: nat, base: nat, c: nat)
    requires value >= WORD && base >= 1
    ensures Appended(value, base, c) >= WORD
  {
  }

  lemma Product(a: nat, b: nat, c: nat, d: nat)
    requires a <= c && b <= d
    ensures a * b <= c * d
  {
    assert a * b <= c * b;
    assert c * b <= c * d;
  }

  /** One digit more: `v` is the number so far while that fits a word, and `overflow` stays set once
      it does not. */
  method Accumulate(v: nat, overflow: bool, base: nat, c: nat, ghost value: nat) returns (v': nat, overflow': bool)
    requires v < WORD && 2 <= base <= 36 && c < base
    requires (overflow <==> value >= WORD) && (!overflow ==> v == value)
    ensures v' < WORD && (overflow' <==> Appended(value, base, c) >= WORD) && (!overflow' ==> v' == Appended(value, base, c))
  {
    hide Appended, LowPart, HighPart;
    SplitProduct(v, base, c);
    var x := LowPart(v, base, c);
    var w := HighPart(v, base, x);
    Recombine(w, x % 256);
    if value >= WORD { StaysBig(value, base, c); }
    overflow' := overflow;
    if w > ULONG_MAX / 256 {
      overflow' := true;
    }
    v' := (w * 256 % WORD + x % 256) % WORD;
  }

  /** The digit loop of `strtoul`. */
  method ReadDigits(s: Text, b: nat, base: nat) returns (v: nat, overflow: bool, e: nat)
    requires b <= |s| && 2 <= base <= 36
    ensures e == DigitsEnd(s, b, base) && v < WORD
    ensures (overflow <==> Value(s, b, e, base) >= WORD) && (!overflow ==> v == Value(s, b, e, base))
  {
    v, overflow, e := 0, false, b;
    while At(s, e) != 0
      invariant b <= e <= |s| && v < WORD && forall k :: b <= k < e ==> DigitValue(s[k]) < base
      invariant (overflow <==> Value(s, b, e, base) >= WORD) && (!overflow ==> v == Value(s, b, e, base))
      decreases |s| - e
    {
      var c := CharDigit(At(s, e));
      CharDigitValue(s[e], base);
      if c >= base {
        break;
      }
      v, overflow := Accumulate(v, overflow, base, c, Value(s, b, e, base));
      e := e + 1;
    }
    DigitsEndAt(s, b, e, base);
  }

  method SkipBlanks(s: Text, from: nat) returns (i: nat)
    requires from <= |s|
    ensures i == SkipSpaces(s, from) && !IsSpace(At(s, i))
  {
    i := from;
    while IsSpace(At(s, i))
      invariant i <= |s| && SkipSpaces(s, from) == SkipSpaces(s, i)
      decreases |s| - i
    {
      i := i + 1;
    }
  }

  /** The sign and the spaces before it. */
  method ReadSign(s: Text, from: nat) returns (neg: bool, k: nat)
    requires from <= |s|
    ensures var i := SkipSpaces(s, from);
      neg == (At(s, i) == '-' as int) && k == (if neg || At(s, i) == '+' as int then i + 1 else i) && k <= |s|
  {
    neg := false;
    k := SkipBlanks(s, from);
    if At(s, k) == '-' as int {
      neg := true;
      k := k + 1;
    } else if At(s, k) == '+' as int {
      k := k + 1;
    }
  }

  /** The choice of the base and the prefix, 0 standing for the early return. */
  method ReadBase(s: Text, k: nat, base: int) returns (b: nat, radix: nat)
    requires k <= |s|
    ensures (b, radix) == Start(s, k, base)
  {
    b := k;
    var zero := At(s, b) == '0' as int;
    if base == 16 && zero {
      radix := 16;
    } else if base != 0 {
      if base < 2 || base > 36 {
        return b, 0;
      }
      return b, base;
    } else if zero {
      radix := 8;
    } else {
      return b, 10;
    }
    if (At(s, b + 1) == 'x' as int || At(s, b + 1) == 'X' as int) && IsHexDigit(At(s, b + 2)) {
      b, radix := b + 2, 16;
    }
  }

  /** `strtoul` of the text at `from`. */
  method Strtoul(s: Text, from: nat, base: int) returns (v: nat, end: int)
    requires from <= |s|
    ensures v == Unsigned(Parse(s, from, base)) && end == End(Parse(s, from, base), from)
    ensures match Parse(s, from, base)
      case BadBase => v == 0 && end == -1
      case NoNumber => v == 0 && end == from
      case Number(negative, m, e) =>
        && (m > 0xFFFF_FFFF ==> v == 0xFFFF_FFFF)
        && (m <= 0xFFFF_FFFF ==> v == if negative && m > 0 then 0x1_0000_0000 - m else m)
        && end == e
  {
    hide SkipSpaces, DigitsEnd, Value, Start;
    var neg, orig := ReadSign(s, from);
    var nptr, radix := ReadBase(s, orig, base);
    if radix == 0 {
      return 0, -1;
    }
    var overflow;
    v, overflow, nptr := ReadDigits(s, nptr, radix);
    if nptr == orig {
      NoDigits(s, orig, base);
      nptr := from;
      v := 0;
    }
    end := nptr;
    if overflow {
      return ULONG_MAX, end;
    }
    v := if neg then (WORD - v) % WORD else v;
  }

  lemma NoDigits(s: Text, k: nat, base: int)
    requires k <= |s| && Start(s, k, base).1 != 0 && DigitsEnd(s, Start(s, k, base).0, Start(s, k, base).1) == k
    ensures Value(s, Start(s, k, base).0, k, Start(s, k, base).1) == 0
  {
  }

  // ---- strtol ----

  /** What `strtol` leaves to `strtoul`: the sign is taken off if a letter or digit follows it, and
      otherwise no number follows it. */
  lemma SignTaken(s: Text, from: nat, base: int)
    requires from <= |s|
    ensures var i := SkipSpaces(s, from);
      var p := Parse(s, from, base);
      if At(s, i) == '-' as int && IsAlnum(At(s, i + 1)) then
        i < |s| && Parse(s, i + 1, base) == (if p.Number? then p.(negative := false) else p) && (p.Number? ==> p.negative && p.end > i + 1)
      else Parse(s, i, base) == p && (p.Number? ==> !p.negative && p.end > i)
  {
    hide Value;
    var i := SkipSpaces(s, from);
    SpacesSkipped(s, from);
    if At(s, i) == '-' as int {
      if IsAlnum(At(s, i + 1)) {
        assert SkipSpaces(s, i + 1) == i + 1;
        assert At(s, i + 1) != '-' as int && At(s, i + 1) != '+' as int;
      } else {
        var (b, radix) := Start(s, i + 1, base);
        assert b == i + 1 && (b < |s| ==> DigitValue(s[b]) == 36);
      }
    }
  }

  lemma {:induction false} SpacesSkipped(s: Text, i: nat)
    requires i <= |s|
    ensures SkipSpaces(s, SkipSpaces(s, i)) == SkipSpaces(s, i)
    decreases |s| - i
  {
    if i < |s| && IsSpace(s[i]) {
      SpacesSkipped(s, i + 1);
    }
  }

  method Strtol(s: Text, from: nat, base: int) returns (r: int, end: int)
    requires from <= |s|
    ensures r == Signed(Parse(s, from, base)) && end == End(Parse(s, from, base), from)
    ensures match Parse(s, from, base)
      case BadBase => r == 0 && end == -1
      case NoNumber => r == 0 && end == from
      case Number(negative, m, e) =>
        && (negative ==> -r == if m > 0x8000_0000 then 0x8000_0000 else m)
        && (!negative ==> r == if m > 0x7FFF_FFFF then 0x7FFF_FFFF else m)
        && end == e
  {
    hide Parse;
    SignTaken(s, from, base);
    var neg := false;
    var nptr := SkipBlanks(s, from);
    if At(s, nptr) == '-' as int && IsAlnum(At(s, nptr + 1)) {
      neg := true;
      nptr := nptr + 1;
    }
    var v;
    v, end := Strtoul(s, nptr, base);
    if end == nptr {
      end := from;
    }
    if v >= ABS_LONG_MIN {
      if v == ABS_LONG_MIN && neg {
        return LONG_MIN, end;
      }
      return if neg then LONG_MIN else LONG_MAX, end;
    }
    r := if neg then -v else v;
  }

  // ---- the integer conversion of vrprintf ----

  const SCRATCH := 20

  function DigitChar(d: nat): Byte
    requires d < 36
  {
    if d < 10 then d + '0' as int else d - 10 + 'A' as int
  }

  function Quot(u: nat, base: nat): (q: nat)
    requires base >= 2
    ensures (u >= base ==> 0 < q < u) && (u < base ==> q == 0)
  {
    Smaller(u, base);
    u / base
  }

  function Rem(u: nat, base: nat): (r: nat)
    requires base >= 2
    ensures r < base && (u < base ==> r == u) && Quot(u, base) * base + r == u
  {
    u % base
  }

  lemma Smaller(u: nat, base: nat)
    requires base >= 2
    ensures (u >= base ==> 0 < u / base < u) && (u < base ==> u / base == 0)
  {
    var q := u / base;
    assert u == q * base + u % base;
    if q >= u && u >= base {
      Product(u, 2, q, base);
      assert false;
    }
  }

  /** The digits of `u`, most significant first, without leading zeros. */
  function Numeral(u: nat, base: nat): (t: Text)
    requires 2 <= base <= 36
    ensures |t| >= 1
    decreases u
  {
    if u < base then [DigitChar(u)] else Numeral(Quot(u, base), base) + [DigitChar(Rem(u, base))]
  }

  /** Some numerals: letters are upper-case, and zero has a digit. */
  lemma NumeralTexts()
    ensures Numeral(0x2BF, 16) == ['2' as int, 'B' as int, 'F' as int]
    ensures Numeral(70, 10) == ['7' as int, '0' as int]
    ensures Numeral(0, 10) == ['0' as int]
  {
    assert Quot(0x2BF, 16) == 0x2B && Rem(0x2BF, 16) == 15;
    assert Quot(0x2B, 16) == 2 && Rem(0x2B, 16) == 11;
    assert Numeral(2, 16) == [50];
    assert Numeral(0x2B, 16) == [50, 66];
    assert Quot(70, 10) == 7 && Rem(70, 10) == 0;
    assert Numeral(7, 10) == [55];
  }

  /** The character is computed as in the conversion loop: past '9', on to the upper-case letters. */
  lemma CharOf(d: nat)
    requires d < 36
    ensures DigitValue(DigitChar(d)) == d
    ensures DigitChar(d) == if d + '0' as int > '9' as int then d + '0' as int + ('a' as int - '9' as int - 1) - 0x20 else d + '0' as int
  {
  }

  /** 32-bit values have at most ten digits in either base. */
  lemma {:induction false} NumeralLength(u: nat, base: nat, n: nat)
    requires (base == 10 || base == 16) && n >= 1 && u < Power(10, n)
    ensures |Numeral(u, base)| <= n
  {
    if u >= base && n > 1 {
      NumeralLength(Quot(u, base), base, n - 1);
    }
  }

  function Power(b: nat, n: nat): nat {
    if n == 0 then 1 else b * Power(b, n - 1)
  }

  lemma WordLength(u: nat, base: nat)
    requires (base == 10 || base == 16) && u < WORD
    ensures |Numeral(u, base)| <= 10
  {
    assert Power(10, 5) == 10_0000;
    assert Power(10, 10) == 10 * (10 * (10 * (10 * (10 * Power(10, 5)))));
    NumeralLength(u, base, 10);
  }

  /** The conversion loop fills the buffer from its end, and what lies from `ptr` to the final zero is
      the numeral. */
  method Convert(scratch: array<Byte>, u0: nat, base: nat) returns (ptr: nat)
    requires scratch.Length == SCRATCH && u0 < WORD && (base == 10 || base == 16)
    modifies scratch
    ensures ptr < SCRATCH && scratch[ptr..SCRATCH - 1] == Numeral(u0, base) && scratch[SCRATCH - 1] == 0
  {
    hide Quot, Rem, DigitChar;
    WordLength(u0, base);
    ptr := SCRATCH - 1;
    scratch[ptr] := 0;
    var u := u0;
    while ptr == SCRATCH - 1 || u != 0
      invariant ptr < SCRATCH && scratch[SCRATCH - 1] == 0
      invariant Numeral(u0, base) == (if u == 0 && ptr < SCRATCH - 1 then [] else Numeral(u, base)) + scratch[ptr..SCRATCH - 1]
      decreases ptr
    {
      CharOf(Rem(u, base));
      var ch := Rem(u, base) + '0' as int;
      if ch > '9' as int {
        ch := ch + ('a' as int - '9' as int - 1);
        ch := ch - 0x20;
      }
      ghost var done := scratch[ptr..SCRATCH - 1];
      ptr := ptr - 1;
      scratch[ptr] := ch;
      assert scratch[ptr..SCRATCH - 1] == [DigitChar(Rem(u, base))] + done;
      u := Quot(u, base);
    }
  }

  lemma {:induction false} NumeralDigits(u: nat, base: nat, i: nat)
    requires 2 <= base <= 36 && i < |Numeral(u, base)|
    ensures exists d: nat :: d < base && Numeral(u, base)[i] == DigitChar(d)
    decreases u
  {
    hide Quot, Rem;
    if u >= base && i < |Numeral(u, base)| - 1 {
      NumeralDigits(Quot(u, base), base, i);
    } else {
      assert Numeral(u, base)[i] == DigitChar(Rem(u, base));
    }
  }

  /** The output loop: characters up to the final zero. */
  method Emit(scratch: array<Byte>, from: nat, ghost u: nat, ghost base: nat) returns (out: Text)
    requires scratch.Length == SCRATCH && from < SCRATCH && 2 <= base <= 36
    requires scratch[from..SCRATCH - 1] == Numeral(u, base) && scratch[SCRATCH - 1] == 0
    ensures out == Numeral(u, base)
  {
    out := [];
    var ptr := from;
    while scratch[ptr] != 0
      invariant from <= ptr < SCRATCH && out == scratch[from..ptr]
      decreases SCRATCH - ptr
    {
      out := out + [scratch[ptr]];
      ptr := ptr + 1;
    }
    if ptr < SCRATCH - 1 {
      NumeralDigits(u, base, ptr - from);
      assert false;
    }
  }

  /** `%u` and, with base 16, `%x` without padding. */
  method PrintUnsigned(u: nat, base: nat) returns (out: Text)
    requires u < WORD && (base == 10 || base == 16)
    ensures out == Numeral(u, base)
  {
    var scratch := new Byte[SCRATCH];
    var ptr := Convert(scratch, u, base);
    out := Emit(scratch, ptr, u, base);
  }

  /** `%d` without padding. */
  method PrintSigned(n: int) returns (out: Text)
    requires LONG_MIN <= n <= LONG_MAX
    ensures out == Decimal(n)
  {
    var s, sign := n, [];
    if s < 0 {
      s := -s;
      sign := ['-' as int];
    }
    var digits := PrintUnsigned(s, 10);
    out := sign + digits;
  }

  function Decimal(n: int): Text {
    if n < 0 then ['-' as int] + Numeral(-n, 10) else Numeral(n, 10)
  }

  // ---- printing and parsing again ----

  lemma {:induction false} ValueWithin(pre: Text, t: Text, post: Text, n: nat, base: nat)
    requires n <= |t|
    ensures Value(pre + t + post, |pre|, |pre| + n, base) == Value(t, 0, n, base)
  {
    if n > 0 {
      ValueWithin(pre, t, post, n - 1, base);
      assert (pre + t + post)[|pre| + n - 1] == t[n - 1];
    }
  }

  lemma {:induction false} NumeralValue(u: nat, base: nat)
    requires 2 <= base <= 36
    ensures Value(Numeral(u, base), 0, |Numeral(u, base)|, base) == u
    decreases u
  {
    var t := Numeral(u, base);
    hide Quot, Rem;
    CharOf(Rem(u, base));
    if u < base {
      assert Value(t, 0, 1, base) == Value(t, 0, 0, base) * base + DigitValue(t[0]);
    } else {
      var rest := Numeral(Quot(u, base), base);
      NumeralValue(Quot(u, base), base);
      ValueWithin([], rest, [DigitChar(Rem(u, base))], |rest|, base);
      assert [] + rest + [DigitChar(Rem(u, base))] == t;
      ValueLast(t, base);
    }
  }

  lemma ValueLast(t: Text, base: nat)
    requires t != []
    ensures Value(t, 0, |t|, base) == Value(t, 0, |t| - 1, base) * base + DigitValue(t[|t| - 1])
  {
  }

  /** A numeral behind `pre` is read back as its number, to its end. */
  lemma DigitsOfNumeral(pre: Text, negative: bool, u: nat, base: nat)
    requires base == 10 || base == 16
    ensures Digits(pre + Numeral(u, base), negative, |pre|, base) == Number(negative, u, |pre| + |Numeral(u, base)|)
  {
    hide Numeral, Value;
    var t := Numeral(u, base);
    var s := pre + t;
    forall i | |pre| <= i < |s| ensures DigitValue(s[i]) < base && s[i] != 'x' as int && s[i] != 'X' as int {
      NumeralDigits(u, base, i - |pre|);
      var d: nat :| d < base && t[i - |pre|] == DigitChar(d);
      CharOf(d);
    }
    DigitsEndAt(s, |pre|, |s|, base);
    NumeralValue(u, base);
    ValueWithin(pre, t, [], |t|, base);
    assert pre + t + [] == s;
  }

  /** What `%u` prints is read back in base 10, what `%x` prints in base 16, each to its end. */
  lemma UnsignedRoundTrip(u: nat, base: nat)
    requires u < WORD && (base == 10 || base == 16)
    ensures Unsigned(Parse(Numeral(u, base), 0, base)) == u && End(Parse(Numeral(u, base), 0, base), 0) == |Numeral(u, base)|
  {
    hide Numeral;
    var t := Numeral(u, base);
    NumeralDigits(u, base, 0);
    DigitsOfNumeral([], false, u, base);
    assert [] + t == t;
  }

  /** What `%d` prints is read back by `strtol`, -2^31 included. */
  lemma SignedRoundTrip(n: int)
    requires LONG_MIN <= n <= LONG_MAX
    ensures Signed(Parse(Decimal(n), 0, 10)) == n && End(Parse(Decimal(n), 0, 10), 0) == |Decimal(n)|
  {
    hide Numeral;
    if n < 0 {
      DigitsOfNumeral(['-' as int], true, -n, 10);
    } else {
      NumeralDigits(n, 10, 0);
      DigitsOfNumeral([], false, n, 10);
      assert [] + Numeral(n, 10) == Numeral(n, 10);
    }
  }

  method RereadSigned(n: int) returns (r: int)
    requires LONG_MIN <= n <= LONG_MAX
    ensures r == n
  {
    var text := PrintSigned(n);
    var end;
    r, end := Strtol(text, 0, 10);
    SignedRoundTrip(n);
  }

  method RereadUnsigned(u: nat, base: nat) returns (r: nat)
    requires u < WORD && (base == 10 || base == 16)
    ensures r == u
  {
    var text := PrintUnsigned(u, base);
    var end;
    r, end := Strtoul(text, 0, base);
    UnsignedRoundTrip(u, base);
  }
}
