/** Unsigned machine words as numbers, bit operations on them, and byte strings
    read as little-endian numbers.

    A word of `w` bits is a number below `Pow2(w)`.  The bitwise operators are
    defined bit by bit; what the code relies on, that `|` of disjoint bits is a
    sum and that `&` with a mask keeps the low bits, is proved from that. */
module Bits {

  type byte = b: int | 0 <= b < 256

  function Pow2(n: nat): nat
    ensures Pow2(n) > 0
  {
    if n == 0 then 1 else 2 * Pow2(n - 1)
  }

  /** `x` shifted up, shifted down, and cut off above its low `n` bits. */
  function Shl(x: nat, n: nat): nat { x * Pow2(n) }

  function Shr(x: nat, n: nat): nat { DivNonneg(x, Pow2(n)); x / Pow2(n) }

  function Low(x: nat, n: nat): nat { x % Pow2(n) }

  lemma {:induction false} Pow2Add(a: nat, b: nat)
    ensures Pow2(a + b) == Pow2(a) * Pow2(b)
  {
    if a > 0 {
      Pow2Add(a - 1, b);
    }
  }

  lemma {:induction false} Pow2Mono(a: nat, b: nat)
    requires a <= b
    ensures Pow2(a) <= Pow2(b)
  {
    if a < b {
      Pow2Mono(a, b - 1);
    }
  }

  lemma Pow2Eight()
    ensures Pow2(8) == 256
  {
    assert Pow2(4) == 16;
    Pow2Add(4, 4);
  }

  // ----- arithmetic behind the shifts -----

  lemma MulMono(a: int, b: int, d: int)
    requires a <= b && 0 <= d
    ensures a * d <= b * d
  {
  }

  lemma Distribute(a: int, b: int, d: int)
    ensures (a + b) * d == a * d + b * d
  {
  }

  lemma Reassociate(x: int, y: int, z: int)
    ensures x * y * z == x * (y * z)
  {
  }

  lemma DivModUnique(x: int, d: int, q: int, r: int)
    requires 0 < d && 0 <= r < d && x == q * d + r
    ensures x / d == q && x % d == r
  {
    var e := x / d - q;
    Distribute(e, q, d);
    assert e * d == r - x % d;
    if e >= 1 { MulMono(1, e, d); }
    if e <= -1 { MulMono(e, -1, d); }
  }

  lemma DivNonneg(x: nat, d: nat)
    requires d > 0
    ensures x / d >= 0
  {
    if x / d <= -1 { MulMono(x / d, -1, d); }
  }

  lemma NestedDivMod(x: nat, p: nat, q: nat)
    requires p > 0 && q > 0
    ensures p * q > 0 && x / p / q == x / (p * q)
    ensures x % (p * q) == x % p + x / p % q * p
  {
    var y, r := x / p, x % p;
    var z, s := y / q, y % q;
    Distribute(z * q, s, p);
    MulMono(s, q - 1, p);
    Distribute(q, -1, p);
    assert z * q * p == z * (p * q);
    MulMono(1, q, p);
    assert x == z * (p * q) + (s * p + r);
    DivModUnique(x, p * q, z, s * p + r);
  }

  // ----- laws of the shifts -----

  lemma SplitAt(x: nat, n: nat)
    ensures x == Low(x, n) + Shl(Shr(x, n), n) && Low(x, n) < Pow2(n)
  {
  }

  lemma Join(low: nat, high: nat, n: nat)
    requires low < Pow2(n)
    ensures Shr(low + Shl(high, n), n) == high && Low(low + Shl(high, n), n) == low
  {
    DivModUnique(low + Shl(high, n), Pow2(n), high, low);
  }

  lemma ShrShr(x: nat, a: nat, b: nat)
    ensures Shr(Shr(x, a), b) == Shr(x, a + b)
  {
    Pow2Add(a, b);
    NestedDivMod(x, Pow2(a), Pow2(b));
  }

  lemma ShlShl(x: nat, a: nat, b: nat)
    ensures Shl(Shl(x, a), b) == Shl(x, a + b)
  {
    Pow2Add(a, b);
    Reassociate(x, Pow2(a), Pow2(b));
  }

  lemma ShlSum(x: nat, y: nat, n: nat)
    ensures Shl(x + y, n) == Shl(x, n) + Shl(y, n)
  {
    Distribute(x, y, Pow2(n));
  }

  lemma ShlZero(x: nat)
    ensures Shl(x, 0) == x && Shr(x, 0) == x && Low(x, 0) == 0
  {
  }

  lemma OfZero(n: nat)
    ensures Shl(0, n) == 0 && Shr(0, n) == 0 && Low(0, n) == 0
  {
    DivModUnique(0, Pow2(n), 0, 0);
  }

  /** The low `a + b` bits are the low `a` bits and the `b` bits above them. */
  lemma LowSplit(x: nat, a: nat, b: nat)
    ensures Low(x, a + b) == Low(x, a) + Shl(Low(Shr(x, a), b), a)
  {
    Pow2Add(a, b);
    NestedDivMod(x, Pow2(a), Pow2(b));
  }

  lemma LowSmall(x: nat, n: nat)
    requires x < Pow2(n)
    ensures Low(x, n) == x && Shr(x, n) == 0
  {
    DivModUnique(x, Pow2(n), 0, x);
  }

  lemma LowLow(x: nat, a: nat, b: nat)
    requires a <= b
    ensures Low(Low(x, b), a) == Low(x, a)
  {
    hide Low, Shl, Shr, Pow2;
    LowSplit(x, a, b - a);
    SplitAt(x, a);
    Join(Low(x, a), Low(Shr(x, a), b - a), a);
  }

  /** Bits between `a` and `a + b` of what is left after a cut at or above
      `a + b`. */
  lemma LowShr(x: nat, a: nat, b: nat, c: nat)
    requires a + b <= c
    ensures Low(Shr(Low(x, c), a), b) == Low(Shr(x, a), b)
  {
    hide Low, Shl, Shr, Pow2;
    LowSplit(x, a, c - a);
    SplitAt(x, a);
    Join(Low(x, a), Low(Shr(x, a), c - a), a);
    LowLow(Shr(x, a), b, c - a);
  }

  lemma ShlLow(x: nat, n: nat, m: nat)
    ensures Low(Shl(x, n), n + m) == Shl(Low(x, m), n)
  {
    hide Low, Shl, Shr;
    OfZero(n);
    Join(0, x, n);
    LowSplit(Shl(x, n), n, m);
  }

  lemma ShrBound(x: nat, a: nat, b: nat)
    ensures Shr(x, a) < Pow2(b) <==> x < Pow2(a + b)
  {
    Pow2Add(a, b);
    QuotBound(x, Pow2(a), Pow2(b));
  }

  lemma QuotBound(x: nat, p: nat, q: nat)
    requires p > 0
    ensures x / p < q <==> x < p * q
  {
    if x / p < q {
      MulMono(x / p, q - 1, p);
      Distribute(q, -1, p);
    } else {
      MulMono(q, x / p, p);
    }
  }

  lemma JoinBound(low: nat, high: nat, n: nat, m: nat)
    requires low < Pow2(n)
    ensures low + Shl(high, n) < Pow2(n + m) <==> high < Pow2(m)
  {
    hide Shl, Shr, Low, Pow2;
    Join(low, high, n);
    ShrBound(low + Shl(high, n), n, m);
  }

  lemma Bytewise(x: nat)
    ensures Low(x, 8) == x % 256 && Shr(x, 8) == x / 256 && Shl(x, 8) == x * 256
  {
    Pow2Eight();
  }

  /** `(uint8_t)x` */
  function ToByte(x: nat): (b: byte)
    ensures b == Low(x, 8)
  {
    Bytewise(x);
    x % 256
  }

  // ----- bitwise operators -----

  function BitOr(a: nat, b: nat): nat
    decreases a + b
  {
    if a == 0 && b == 0 then 0
    else (if a % 2 == 1 || b % 2 == 1 then 1 else 0) + 2 * BitOr(a / 2, b / 2)
  }

  function BitAnd(a: nat, b: nat): nat
    decreases a + b
  {
    if a == 0 || b == 0 then 0
    else (if a % 2 == 1 && b % 2 == 1 then 1 else 0) + 2 * BitAnd(a / 2, b / 2)
  }

  /** Bit `i` of either result is that operation on bits `i`. */
  lemma {:induction false} BitByBit(a: nat, b: nat, i: nat)
    ensures BitOr(a, b) / Pow2(i) % 2 == 1 <==> a / Pow2(i) % 2 == 1 || b / Pow2(i) % 2 == 1
    ensures BitAnd(a, b) / Pow2(i) % 2 == 1 <==> a / Pow2(i) % 2 == 1 && b / Pow2(i) % 2 == 1
  {
    if i == 0 {
      ParityOf(a, b);
    } else {
      hide Pow2, BitOr, BitAnd;
      BitByBit(a / 2, b / 2, i - 1);
      HalvesOf(a, b);
      NextBit(a, i);
      NextBit(b, i);
      NextBit(BitOr(a, b), i);
      NextBit(BitAnd(a, b), i);
    }
  }

  lemma OrUnfold(a: nat, b: nat)
    ensures BitOr(a, b) == (if a % 2 == 1 || b % 2 == 1 then 1 else 0) + 2 * BitOr(a / 2, b / 2)
  {
  }

  lemma AndUnfold(a: nat, b: nat)
    ensures BitAnd(a, b) == (if a % 2 == 1 && b % 2 == 1 then 1 else 0) + 2 * BitAnd(a / 2, b / 2)
  {
  }

  lemma ParityOf(a: nat, b: nat)
    ensures Pow2(0) == 1
    ensures BitOr(a, b) % 2 == 1 <==> a % 2 == 1 || b % 2 == 1
    ensures BitAnd(a, b) % 2 == 1 <==> a % 2 == 1 && b % 2 == 1
  {
    hide BitOr, BitAnd;
    OrUnfold(a, b);
    AndUnfold(a, b);
  }

  lemma HalvesOf(a: nat, b: nat)
    ensures BitOr(a, b) / 2 == BitOr(a / 2, b / 2) && BitAnd(a, b) / 2 == BitAnd(a / 2, b / 2)
  {
    hide BitOr, BitAnd;
    OrUnfold(a, b);
    AndUnfold(a, b);
  }

  lemma NextBit(x: nat, i: nat)
    requires i > 0
    ensures x / Pow2(i) == x / 2 / Pow2(i - 1)
  {
    hide Pow2;
    Pow2Step(i);
    NestedDivMod(x, 2, Pow2(i - 1));
  }

  lemma {:induction false} OrZero(b: nat)
    ensures BitOr(0, b) == b
  {
    if b > 0 {
      OrZero(b / 2);
    }
  }

  /** The bits of `a` lie below bit `n`, those of `Shl(b, n)` do not. */
  lemma {:induction false} OrDisjoint(a: nat, b: nat, n: nat)
    requires a < Pow2(n)
    ensures BitOr(a, Shl(b, n)) == a + Shl(b, n)
    decreases n
  {
    if n == 0 {
      OrZero(b);
    } else {
      var c := Shl(b, n - 1);
      assert Shl(b, n) == 2 * c;
      OrDisjoint(a / 2, b, n - 1);
      assert BitOr(a / 2, c) == a / 2 + c;
      assert (2 * c) / 2 == c && (2 * c) % 2 == 0;
    }
  }

  lemma {:induction false} AndMask(x: nat, n: nat)
    ensures BitAnd(x, Pow2(n) - 1) == Low(x, n)
    decreases n
  {
    hide BitAnd, Pow2;
    Pow2Step(n);
    var p := Pow2(n);
    AndZero(x, p - 1);
    if n == 0 {
      DivModUnique(x, 1, x, 0);
    } else if x == 0 {
      DivModUnique(x, p, 0, 0);
    } else {
      var q := Pow2(n - 1);
      AndMask(x / 2, n - 1);
      AndStep(x, q, p);
    }
  }

  lemma Pow2Step(n: nat)
    ensures Pow2(n) == if n == 0 then 1 else 2 * Pow2(n - 1)
  {
  }

  lemma AndZero(a: nat, b: nat)
    ensures a == 0 || b == 0 ==> BitAnd(a, b) == 0
  {
  }

  lemma AndStep(x: nat, q: nat, p: nat)
    requires x > 0 && q > 0 && p == 2 * q
    requires BitAnd(x / 2, q - 1) == x / 2 % q
    ensures BitAnd(x, p - 1) == x % p
  {
    hide BitAnd;
    OddHalf(q);
    AndUnfold(x, p - 1);
    NestedDivMod(x, 2, q);
  }

  lemma OddHalf(q: nat)
    requires q > 0
    ensures (2 * q - 1) / 2 == q - 1 && (2 * q - 1) % 2 == 1
  {
  }

  /** `x << n` in a 64-bit word. */
  function Shl64(x: nat, n: nat): nat {
    Low(Shl(x, n), 64)
  }

  /** Or-ing bits shifted above the low `n` bits, in a 64-bit word. */
  lemma OrShl64(a: nat, x: nat, n: nat)
    requires n <= 64 && a < Pow2(n)
    ensures BitOr(a, Shl64(x, n)) == a + Shl(Low(x, 64 - n), n)
  {
    hide Shl, Low, BitOr, Pow2;
    ShlLow(x, n, 64 - n);
    OrDisjoint(a, Low(x, 64 - n), n);
  }

  /** The same, stored in a byte. */
  lemma OrShlByte(a: nat, x: nat, n: nat)
    requires n <= 8 && a < Pow2(n)
    ensures Low(BitOr(a, Shl64(x, n)), 8) == a + Shl(Low(x, 8 - n), n)
  {
    hide Shl, Shr, Low, BitOr, Pow2, Shl64;
    OrShl64(a, x, n);
    var y := Low(x, 64 - n);
    Join(a, y, n);
    LowSplit(a + Shl(y, n), n, 8 - n);
    LowLow(x, 8 - n, 64 - n);
  }

  // ----- byte strings as little-endian numbers -----

  function LE(s: seq<byte>): nat {
    if s == [] then 0 else s[0] + 256 * LE(s[1..])
  }

  lemma LEHead(s: seq<byte>)
    requires s != []
    ensures LE(s) == s[0] + Shl(LE(s[1..]), 8) && s[0] < Pow2(8)
  {
    Bytewise(LE(s[1..]));
    Pow2Eight();
  }

  lemma {:induction false} LEConcat(s: seq<byte>, t: seq<byte>)
    ensures LE(s + t) == LE(s) + Shl(LE(t), 8 * |s|)
  {
    hide Shl, LE;
    if s == [] {
      assert s + t == t;
      ShlZero(LE(t));
      LEEmpty();
    } else {
      var r := s[1..];
      LEConcat(r, t);
      assert (s + t)[1..] == r + t;
      LEHead(s);
      LEHead(s + t);
      ShlSum(LE(r), Shl(LE(t), 8 * |r|), 8);
      ShlShl(LE(t), 8 * |r|, 8);
    }
  }

  lemma LEEmpty()
    ensures LE([]) == 0
  {
  }

  lemma LESingle(b: byte)
    ensures LE([b]) == b
  {
    assert [b][1..] == [];
  }

  lemma {:induction false} LEBound(s: seq<byte>)
    ensures LE(s) < Pow2(8 * |s|)
  {
    hide Shl, LE, Pow2;
    if s == [] {
      LEEmpty();
    } else {
      LEBound(s[1..]);
      LEHead(s);
      JoinBound(s[0], LE(s[1..]), 8, 8 * |s[1..]|);
    }
  }

  /** The bytes from `j` on hold the bits from `8 * j` on. */
  lemma LEDrop(s: seq<byte>, j: nat)
    requires j <= |s|
    ensures LE(s[j..]) == Shr(LE(s), 8 * j)
    ensures LE(s[..j]) == Low(LE(s), 8 * j)
  {
    hide Shl, Shr, Low, LE, Pow2;
    assert s == s[..j] + s[j..];
    LEConcat(s[..j], s[j..]);
    LEBound(s[..j]);
    Join(LE(s[..j]), LE(s[j..]), 8 * j);
  }

  lemma LEByte(s: seq<byte>, j: nat)
    requires j < |s|
    ensures s[j] == Low(Shr(LE(s), 8 * j), 8)
  {
    hide Shl, Shr, Low, LE, Pow2;
    LEDrop(s, j);
    LEHead(s[j..]);
    Join(s[j], LE(s[j..][1..]), 8);
  }

  /** Changing one byte changes the number by as much. */
  lemma LEUpdate(s: seq<byte>, j: nat, b: byte)
    requires j < |s|
    ensures LE(s[j := b]) + Shl(s[j], 8 * j) == LE(s) + Shl(b, 8 * j)
  {
    hide Shl, Shr, Low, LE, Pow2;
    var low, high, high' := s[..j], s[j..], [b] + s[j + 1..];
    assert s == low + high && s[j := b] == low + high';
    LEConcat(low, high);
    LEConcat(low, high');
    assert high'[1..] == high[1..];
    LEHead(high);
    LEHead(high');
    var rest := Shl(LE(high[1..]), 8);
    ShlSum(s[j], rest, 8 * j);
    ShlSum(b, rest, 8 * j);
  }

  /** Byte strings of one length are told apart by their number. */
  lemma {:induction false} LEInjective(s: seq<byte>, t: seq<byte>)
    requires |s| == |t| && LE(s) == LE(t)
    ensures s == t
  {
    hide Shl, Shr, Low, LE, Pow2;
    if s != [] {
      LEHead(s);
      LEHead(t);
      Join(s[0], LE(s[1..]), 8);
      Join(t[0], LE(t[1..]), 8);
      LEInjective(s[1..], t[1..]);
      assert s == [s[0]] + s[1..] && t == [t[0]] + t[1..];
    }
  }

  lemma {:induction false} LEZeros(s: seq<byte>)
    requires forall i :: 0 <= i < |s| ==> s[i] == 0
    ensures LE(s) == 0
  {
    if s != [] {
      LEZeros(s[1..]);
    }
  }

  /** With nothing set from bit `i` on, byte `i / 8` only has its low bits set
      ... */
  lemma CleanByte(s: seq<byte>, i: nat)
    requires LE(s) < Pow2(i) && i / 8 < |s|
    ensures s[i / 8] < Pow2(i % 8)
  {
    hide Shl, Shr, Low, LE, Pow2;
    var j, n := i / 8, i % 8;
    LEByte(s, j);
    assert i == 8 * j + n;
    ShrBound(LE(s), 8 * j, n);
    Pow2Mono(n, 8);
    LowSmall(Shr(LE(s), 8 * j), 8);
  }

  /** ... and the bytes behind it are zero. */
  lemma ZeroByte(s: seq<byte>, i: nat, j: nat)
    requires LE(s) < Pow2(i) && i / 8 < j < |s|
    ensures s[j] == 0
  {
    hide Shl, Shr, Low, LE, Pow2;
    LEByte(s, j);
    Pow2Mono(i, 8 * j);
    LowSmall(LE(s), 8 * j);
    OfZero(8);
  }

  /** Or-ing `x`, shifted to bit `i`, into byte `i / 8`. */
  lemma OrIntoByte(s: seq<byte>, i: nat, x: nat, b: byte)
    requires LE(s) < Pow2(i) && i / 8 < |s|
    requires b == ToByte(BitOr(s[i / 8], Shl64(x, i % 8)))
    ensures LE(s[i / 8 := b]) == LE(s) + Shl(Low(x, 8 - i % 8), i)
  {
    hide Shl, Shr, Low, LE, Pow2, BitOr, Shl64;
    var j, n := i / 8, i % 8;
    var y := Low(x, 8 - n);
    CleanByte(s, i);
    OrShlByte(s[j], x, n);
    LEUpdate(s, j, b);
    assert i == n + 8 * j;
    ShlShl(y, n, 8 * j);
    ShlSum(s[j], Shl(y, n), 8 * j);
  }

  // ----- reading bits across bytes -----

  /** The bits left in the current byte. */
  lemma FirstBits(s: seq<byte>, i: nat)
    requires i / 8 < |s|
    ensures Shr(s[i / 8], i % 8) == Low(Shr(LE(s), i), 8 - i % 8)
  {
    hide LE, Pow2, Shl, Shr, Low;
    var j, n := i / 8, i % 8;
    var y := Shr(LE(s), 8 * j);
    LEByte(s, j);
    Pow2Eight();
    ShrBound(s[j], n, 8 - n);
    LowSmall(Shr(s[j], n), 8 - n);
    LowShr(y, n, 8 - n, 8);
    assert i == 8 * j + n;
    ShrShr(LE(s), 8 * j, n);
  }

  /** Or-ing the byte that holds bit `i + ofs` onto the `ofs` bits from bit `i` on,
      in a 64-bit word. */
  lemma NextByteBits(s: seq<byte>, i: nat, ofs: nat)
    requires (i + ofs) % 8 == 0 && (i + ofs) / 8 < |s| && ofs <= 64
    ensures BitOr(Low(Shr(LE(s), i), ofs), Shl64(s[(i + ofs) / 8], ofs))
         == Low(Shr(LE(s), i), if ofs + 8 <= 64 then ofs + 8 else 64)
  {
    hide LE, Pow2, Shl, Shr, Low, BitOr, Shl64;
    var j := (i + ofs) / 8;
    var w := Shr(LE(s), i);
    LEByte(s, j);
    assert 8 * j == i + ofs;
    ShrShr(LE(s), i, ofs);
    SplitAt(w, ofs);
    OrShl64(Low(w, ofs), s[j], ofs);
    if ofs + 8 <= 64 {
      Pow2Eight();
      Pow2Mono(8, 64 - ofs);
      LowSmall(s[j], 64 - ofs);
      LowSplit(w, ofs, 8);
    } else {
      LowLow(Shr(w, ofs), 64 - ofs, 8);
      LowSplit(w, ofs, 64 - ofs);
    }
  }

  /** Or-ing `m` bits of the byte that holds bit `i + ofs` onto the `ofs` bits
      from bit `i` on. */
  lemma NextBits(s: seq<byte>, i: nat, ofs: nat, m: nat)
    requires (i + ofs) % 8 == 0 && (i + ofs) / 8 < |s| && m <= 8 && ofs + m <= 64
    ensures var b := Low(s[(i + ofs) / 8], m);
            BitOr(Low(Shr(LE(s), i), ofs), Shl64(b, ofs)) == Low(Shr(LE(s), i), ofs + m)
  {
    hide LE, Pow2, Shl, Shr, Low, BitOr, Shl64;
    var j := (i + ofs) / 8;
    var w := Shr(LE(s), i);
    var b := Low(s[j], m);
    LEByte(s, j);
    assert 8 * j == i + ofs;
    ShrShr(LE(s), i, ofs);
    LowLow(Shr(w, ofs), m, 8);
    SplitAt(w, ofs);
    SplitAt(Shr(w, ofs), m);
    Pow2Mono(m, 64 - ofs);
    LowSmall(b, 64 - ofs);
    OrShl64(Low(w, ofs), b, ofs);
    LowSplit(w, ofs, m);
  }
}
