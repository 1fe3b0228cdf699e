/** The generic code packer and unpacker of `impl/ProductQuantizer-inl.h`. */
module ProductQuantizer {
  import opened Bits
  import opened Fields

  lemma LEAppend(s: seq<byte>, b: byte)
    ensures LE(s + [b]) == LE(s) + Shl(b, 8 * |s|)
  {
    LEConcat(s, [b]);
    LESingle(b);
  }

  /** `reg |= (uint8_t)(x << offset)` */
  lemma OrRegister(reg: nat, x: nat, n: nat)
    requires n <= 8 && reg < Pow2(n)
    ensures BitOr(reg, ToByte(Shl64(x, n))) == reg + Shl(Low(x, 8 - n), n) < 256
  {
    hide Shl, Shr, Low, BitOr, Pow2;
    var y := Low(x, 8 - n);
    LowLow(Shl(x, n), 8, 64);
    ShlLow(x, n, 8 - n);
    OrDisjoint(reg, y, n);
    SplitAt(x, 8 - n);
    JoinBound(reg, y, n, 8 - n);
    Pow2Eight();
  }

  class PQEncoderGeneric {
    const code: array<byte>
    var pos: nat     // the byte the `code` pointer is at
    var offset: nat  // bits already in `reg`
    const nbits: nat
    var reg: byte
    ghost const base: nat

    ghost predicate Valid()
      reads this
    {
      base <= pos <= code.Length && offset < 8 && nbits <= 64 && reg < Pow2(offset)
    }

    /** How many bits have been taken in, and the number they make up. */
    ghost function Count(): nat
      requires Valid()
      reads this
    {
      8 * (pos - base) + offset
    }

    ghost function Value(): nat
      requires Valid()
      reads this, code
    {
      LE(code[base..pos]) + Shl(reg, 8 * (pos - base))
    }

    /** Starts `offset` bits into byte `start`, keeping the bits below. */
    constructor (code: array<byte>, start: nat, nbits: nat, offset: nat)
      requires nbits <= 64 && offset < 8 && start <= code.Length
      requires offset > 0 ==> start < code.Length
      ensures this.code == code && this.nbits == nbits && base == pos == start && this.offset == offset
      ensures Valid() && Count() == offset
      ensures Value() == if offset > 0 then Low(code[start], offset) else 0
    {
      this.code, this.pos, this.nbits, this.offset, base := code, start, nbits, offset, start;
      reg := 0;
      new;
      if offset > 0 {
        AndMask(code[start], offset);
        SplitAt(code[start], offset);
        Pow2Mono(offset, 8);
        Pow2Eight();
        reg := BitAnd(code[start], Pow2(offset) - 1);
      }
      ShlZero(reg);
    }

    /** Takes in the `nbits` bits of `x`, on top of what was taken in before;
        writes the bytes that are complete and no others. */
    method Encode(x: nat)
      requires Valid() && x < Pow2(nbits) && pos + (offset + nbits) / 8 <= code.Length
      modifies this`pos, this`offset, this`reg, code
      ensures Valid() && Count() == old(Count()) + nbits
      ensures Value() == old(Value()) + Shl(x, old(Count()))
      ensures pos == old(pos) + (old(offset) + nbits) / 8
      ensures forall m :: 0 <= m < code.Length && !(old(pos) <= m < pos) ==> code[m] == old(code[m])
    {
      hide LE, Pow2, Shl, Shr, Low, BitOr, Shl64;
      ghost var at := 8 * (pos - base);
      OrRegister(reg, x, offset);
      ShlSum(reg, Shl(Low(x, 8 - offset), offset), at);
      ShlShl(Low(x, 8 - offset), offset, at);
      var r := BitOr(reg, ToByte(Shl64(x, offset)));
      var y := Shr(x, 8 - offset);
      if offset + nbits >= 8 {
        SplitAt(x, 8 - offset);
        ShlSum(Low(x, 8 - offset), Shl(y, 8 - offset), offset + at);
        ShlShl(y, 8 - offset, offset + at);
        ShrBound(x, 8 - offset, nbits - (8 - offset));
        WriteBytes(r, y, (nbits - (8 - offset)) / 8);
      } else {
        Pow2Mono(nbits, 8 - offset);
        LowSmall(x, 8 - offset);
        JoinBound(reg, x, offset, nbits);
        reg := r;
        offset := offset + nbits;
      }
    }

    /** The branch that completes a byte: writes it, then `n` whole bytes of what
        is left of the code; the rest goes to the register. */
    method WriteBytes(r: byte, x: nat, n: nat)
      requires Valid() && offset + nbits >= 8 && n == (nbits - (8 - offset)) / 8
      requires x < Pow2(nbits - (8 - offset)) && pos + 1 + n <= code.Length
      modifies this`pos, this`offset, this`reg, code
      ensures Valid() && offset == (old(offset) + nbits) % 8 && pos == old(pos) + 1 + n
      ensures Value() == old(LE(code[base..pos]) + Shl(r, 8 * (pos - base)) + Shl(x, 8 * (pos + 1 - base)))
      ensures forall m :: 0 <= m < code.Length && !(old(pos) <= m < pos) ==> code[m] == old(code[m])
    {
      hide LE, Pow2, Shl, Shr, Low;
      LEAppend(code[base..pos], r);
      code[pos] := r;
      pos := pos + 1;
      assert code[base..pos] == old(code[base..pos]) + [r];
      var y := WriteWholeBytes(x, n, nbits - (8 - offset));
      offset := (offset + nbits) % 8;
      Pow2Mono(offset, 8);
      LowSmall(y, 8);
      reg := ToByte(y);
    }

    /** The loop over the `n` whole bytes of `x`; returns the bits that are left. */
    method WriteWholeBytes(x: nat, n: nat, ghost bits: nat) returns (rest: nat)
      requires base <= pos && pos + n <= code.Length && 8 * n <= bits && x < Pow2(bits)
      modifies this`pos, code
      ensures pos == old(pos) + n && rest < Pow2(bits - 8 * n)
      ensures LE(code[base..pos]) + Shl(rest, 8 * (pos - base)) == old(LE(code[base..pos]) + Shl(x, 8 * (pos - base)))
      ensures forall m :: 0 <= m < code.Length && !(old(pos) <= m < pos) ==> code[m] == old(code[m])
    {
      hide LE, Pow2, Shl, Shr, Low;
      rest := x;
      for i := 0 to n
        invariant pos == old(pos) + i && rest < Pow2(bits - 8 * i)
        invariant LE(code[base..pos]) + Shl(rest, 8 * (pos - base))
               == old(LE(code[base..pos]) + Shl(x, 8 * (pos - base)))
        invariant forall m :: 0 <= m < code.Length && !(old(pos) <= m < pos) ==> code[m] == old(code[m])
      {
        ghost var s := code[base..pos];
        NextByte(s, rest);
        ShrBound(rest, 8, bits - 8 * (i + 1));
        code[pos] := ToByte(rest);
        pos := pos + 1;
        assert code[base..pos] == s + [ToByte(rest)];
        rest := Shr(rest, 8);
      }
    }

    /** What the destructor does: the bits in the register become the last
        byte. */
    method Flush()
      requires Valid() && (offset > 0 ==> pos < code.Length)
      modifies code
      ensures base + (Count() + 7) / 8 <= code.Length
      ensures LE(code[base..base + (Count() + 7) / 8]) == old(Value())
      ensures forall m :: 0 <= m < code.Length && !(offset > 0 && m == pos) ==> code[m] == old(code[m])
    {
      hide LE, Pow2, Shl;
      if offset > 0 {
        ghost var s := code[base..pos];
        LEAppend(s, reg);
        code[pos] := reg;
        assert code[base..pos + 1] == s + [reg];
      } else {
        Pow2Step(0);
        OfZero(8 * (pos - base));
      }
    }
  }

  lemma NextByte(s: seq<byte>, x: nat)
    ensures LE(s + [ToByte(x)]) + Shl(Shr(x, 8), 8 * (|s| + 1)) == LE(s) + Shl(x, 8 * |s|)
  {
    hide LE, Pow2, Shl, Shr, Low;
    LEAppend(s, ToByte(x));
    SplitAt(x, 8);
    ShlSum(Low(x, 8), Shl(Shr(x, 8), 8), 8 * |s|);
    ShlShl(Shr(x, 8), 8, 8 * |s|);
  }

  class PQDecoderGeneric {
    const code: array<byte>
    var pos: nat
    var offset: nat
    const nbits: nat
    const mask: nat
    var reg: byte
    ghost const base: nat

    ghost predicate Valid()
      reads this, code
    {
      && base <= pos <= code.Length && offset < 8
      && 1 <= nbits <= 63 && mask == Pow2(nbits) - 1
      && (offset > 0 ==> pos < code.Length && reg == code[pos])
    }

    /** How many bits have been read. */
    ghost function Count(): nat
      requires Valid()
      reads this, code
    {
      8 * (pos - base) + offset
    }

    constructor (code: array<byte>, start: nat, nbits: nat)
      requires 1 <= nbits <= 63 && start <= code.Length
      ensures this.code == code && this.nbits == nbits && base == start
      ensures Valid() && Count() == 0
    {
      this.code, this.pos, this.nbits, this.offset, base := code, start, nbits, 0, start;
      mask := Pow2(nbits) - 1;
      reg := 0;
    }

    /** Returns the next `nbits` bits; reads only bytes that hold some of them. */
    method Decode() returns (c: nat)
      requires Valid() && Count() + nbits <= 8 * (code.Length - base)
      modifies this
      ensures Valid() && Count() == old(Count()) + nbits
      ensures c == Low(Shr(LE(code[base..]), old(Count())), nbits)
    {
      hide LE, Pow2, Shl, Shr, Low, BitOr, BitAnd, Shl64;
      ghost var s, i := code[base..], Count();
      ghost var w := Shr(LE(s), i);
      assert i / 8 == pos - base && i % 8 == offset;
      if offset == 0 {
        reg := code[pos];
      }
      c := Shr(reg, offset);
      FirstBits(s, i);
      if offset + nbits >= 8 {
        c := ReadBytes(c, w);
      } else {
        LowLow(w, nbits, 8 - offset);
        offset := offset + nbits;
      }
      AndMask(c, nbits);
      c := BitAnd(c, mask);
    }

    /** The branch that leaves the current byte: adds whole bytes, then the byte
        that holds the last bits. */
    method ReadBytes(c0: nat, ghost w: nat) returns (c: nat)
      requires Valid() && offset + nbits >= 8 && Count() + nbits <= 8 * (code.Length - base)
      requires w == Shr(LE(code[base..]), Count()) && c0 == Low(w, 8 - offset)
      modifies this
      ensures Valid() && Count() == old(Count()) + nbits
      ensures Low(c, nbits) == Low(w, nbits)
    {
      hide LE, Pow2, Shl, Shr, Low, BitOr, Shl64;
      ghost var s, i := code[base..], Count();
      c := c0;
      var e: nat := 8 - offset;
      var n := (nbits - (8 - offset)) / 8;
      pos := pos + 1;
      for k := 0 to n
        invariant pos == old(pos) + 1 + k && offset == old(offset) && e == 8 - offset + 8 * k
        invariant c == Low(w, e)
      {
        NextByteBits(s, i, e);
        assert s[pos - base] == code[pos];
        c := BitOr(c, Shl64(code[pos], e));
        pos := pos + 1;
        e := e + 8;
      }
      offset := (offset + nbits) % 8;
      if offset > 0 {
        NextByteBits(s, i, e);
        assert s[pos - base] == code[pos];
        reg := code[pos];
        c := BitOr(c, Shl64(reg, e));
        LowLow(w, nbits, if e + 8 <= 64 then e + 8 else 64);
      } else {
        LowLow(w, nbits, e);
      }
    }
  }

  // ----- whole codes -----

  ghost predicate Codes(xs: seq<nat>, nbits: nat) {
    forall x :: x in xs ==> x < Pow2(nbits)
  }

  lemma UniformFits(xs: seq<nat>, nbits: nat)
    requires Codes(xs, nbits)
    ensures forall f :: f in Uniform(xs, nbits) ==> Fields.Fits(f)
  {
    forall f | f in Uniform(xs, nbits)
      ensures Fields.Fits(f)
    {
      var m :| 0 <= m < |xs| && Uniform(xs, nbits)[m] == f;
      assert xs[m] in xs;
    }
  }

  lemma UniformStep(xs: seq<nat>, nbits: nat, m: nat)
    requires m < |xs|
    ensures Total(Uniform(xs[..m], nbits)) == BitCount(m, nbits)
    ensures Packed(Uniform(xs[..m + 1], nbits)) == Packed(Uniform(xs[..m], nbits)) + Shl(xs[m], BitCount(m, nbits))
    ensures BitCount(m, nbits) + nbits == BitCount(m + 1, nbits) <= BitCount(|xs|, nbits)
  {
    hide Shl, Packed, BitCount;
    UniformTotal(xs[..m], nbits);
    PackedAppend(Uniform(xs[..m], nbits), Field(xs[m], nbits));
    assert Uniform(xs[..m + 1], nbits) == Uniform(xs[..m], nbits) + [Field(xs[m], nbits)];
    BitCountLaws(m, 1, nbits);
    BitCountLaws(m + 1, |xs| - m - 1, nbits);
  }

  /** Encodes codes from bit `offset` of byte `start` on: the bits below stay, and
      only the bytes needed are written. */
  method EncodeAll(xs: seq<nat>, nbits: nat, code: array<byte>, start: nat, offset: nat)
    requires nbits <= 64 && offset < 8 && Codes(xs, nbits)
    requires start + (offset + BitCount(|xs|, nbits) + 7) / 8 <= code.Length
    modifies code
    ensures LE(code[start..start + (offset + BitCount(|xs|, nbits) + 7) / 8])
         == (if offset > 0 then Low(old(code[start]), offset) else 0) + Shl(Packed(Uniform(xs, nbits)), offset)
    ensures forall m :: 0 <= m < code.Length && !(start <= m < start + (offset + BitCount(|xs|, nbits) + 7) / 8)
              ==> code[m] == old(code[m])
  {
    hide LE, Pow2, Shl, Low, Packed, Codes, BitCount, Uniform;
    BitCountLaws(0, 0, nbits);
    assert Uniform(xs[..0], nbits) == [];
    var encoder := new PQEncoderGeneric(code, start, nbits, offset);
    ghost var v0 := encoder.Value();
    PackedNone();
    OfZero(offset);
    for m := 0 to |xs|
      invariant encoder.code == code && encoder.nbits == nbits && encoder.base == start && encoder.Valid()
      invariant encoder.Count() == offset + BitCount(m, nbits)
      invariant encoder.Value() == v0 + Shl(Packed(Uniform(xs[..m], nbits)), offset)
      invariant forall l :: 0 <= l < code.Length && !(start <= l < encoder.pos) ==> code[l] == old(code[l])
    {
      EncodedStep(xs, nbits, m, offset);
      CodeInRange(xs, nbits, m);
      encoder.Encode(xs[m]);
    }
    assert xs[..|xs|] == xs;
    encoder.Flush();
  }

  lemma EncodedStep(xs: seq<nat>, nbits: nat, m: nat, offset: nat)
    requires m < |xs|
    ensures Shl(Packed(Uniform(xs[..m + 1], nbits)), offset)
         == Shl(Packed(Uniform(xs[..m], nbits)), offset) + Shl(xs[m], offset + BitCount(m, nbits))
    ensures BitCount(m, nbits) + nbits == BitCount(m + 1, nbits) <= BitCount(|xs|, nbits)
  {
    hide Pow2, Shl, Packed, BitCount;
    UniformStep(xs, nbits, m);
    ShlSum(Packed(Uniform(xs[..m], nbits)), Shl(xs[m], BitCount(m, nbits)), offset);
    ShlShl(xs[m], BitCount(m, nbits), offset);
  }

  lemma CodeInRange(xs: seq<nat>, nbits: nat, m: nat)
    requires Codes(xs, nbits) && m < |xs|
    ensures xs[m] < Pow2(nbits)
  {
    assert xs[m] in xs;
  }

  /** The `m`-th code in bytes that hold `v`. */
  ghost function CodeAt(v: nat, nbits: nat, m: nat): nat {
    Low(Shr(v, BitCount(m, nbits)), nbits)
  }

  lemma PackedCodeAt(xs: seq<nat>, nbits: nat, m: nat)
    requires Codes(xs, nbits) && m < |xs|
    ensures CodeAt(Packed(Uniform(xs, nbits)), nbits, m) == xs[m]
  {
    hide Low, Shr, Packed;
    UniformFits(xs, nbits);
    FieldAt(Uniform(xs, nbits), m);
    UniformTotal(xs[..m], nbits);
    assert Uniform(xs, nbits)[..m] == Uniform(xs[..m], nbits);
  }

  /** Decodes `n` codes from byte `start` on, whatever the bytes hold. */
  method DecodeAll(n: nat, nbits: nat, code: array<byte>, start: nat) returns (xs: seq<nat>)
    requires 1 <= nbits <= 63 && start <= code.Length && BitCount(n, nbits) <= 8 * (code.Length - start)
    ensures |xs| == n && forall m :: 0 <= m < n ==> xs[m] == CodeAt(LE(code[start..]), nbits, m)
  {
    hide LE, Pow2, Shr, Low, BitCount;
    BitCountLaws(0, 0, nbits);
    var decoder := new PQDecoderGeneric(code, start, nbits);
    xs := [];
    for m := 0 to n
      invariant decoder.code == code && decoder.nbits == nbits && decoder.base == start && decoder.Valid()
      invariant decoder.Count() == BitCount(m, nbits) && |xs| == m
      invariant forall l :: 0 <= l < m ==> xs[l] == CodeAt(LE(code[start..]), nbits, l)
    {
      BitCountLaws(m, 1, nbits);
      BitCountLaws(m + 1, n - m - 1, nbits);
      var x := decoder.Decode();
      xs := xs + [x];
    }
  }

  /** The codes are in the bytes that were written for them, whatever follows. */
  lemma CodesInBytes(xs: seq<nat>, nbits: nat, s: seq<byte>)
    requires Codes(xs, nbits) && (BitCount(|xs|, nbits) + 7) / 8 <= |s|
    requires LE(s[..(BitCount(|xs|, nbits) + 7) / 8]) == Packed(Uniform(xs, nbits))
    ensures forall m :: 0 <= m < |xs| ==> CodeAt(LE(s), nbits, m) == xs[m]
  {
    hide LE, Low, Shr, Packed, Codes, BitCount;
    var size := (BitCount(|xs|, nbits) + 7) / 8;
    LEDrop(s, size);
    forall m | 0 <= m < |xs|
      ensures CodeAt(LE(s), nbits, m) == xs[m]
    {
      PackedCodeAt(xs, nbits, m);
      BitCountLaws(m, 1, nbits);
      BitCountLaws(m + 1, |xs| - m - 1, nbits);
      LowShr(LE(s), BitCount(m, nbits), nbits, 8 * size);
    }
  }

  /** Encoding any codes that fit the width and decoding them gives them back; no
      byte outside the `ceil(BitCount(|xs|, nbits) / 8)` that are needed is written. */
  method RoundTrip(xs: seq<nat>, nbits: nat, code: array<byte>, start: nat) returns (ys: seq<nat>)
    requires 1 <= nbits <= 63 && Codes(xs, nbits)
    requires start + (BitCount(|xs|, nbits) + 7) / 8 <= code.Length
    modifies code
    ensures ys == xs
    ensures forall m :: 0 <= m < code.Length && !(start <= m < start + (BitCount(|xs|, nbits) + 7) / 8)
              ==> code[m] == old(code[m])
  {
    hide LE, Shl, Packed, Codes, CodeAt, BitCount;
    EncodeAll(xs, nbits, code, start, 0);
    ShlZero(Packed(Uniform(xs, nbits)));
    assert code[start..][..(BitCount(|xs|, nbits) + 7) / 8] == code[start..start + (BitCount(|xs|, nbits) + 7) / 8];
    CodesInBytes(xs, nbits, code[start..]);
    ys := DecodeAll(|xs|, nbits, code, start);
  }

  /** An encoder that goes on in the middle of the byte another one stopped in
      leaves what a single encoder would. */
  method EncodeInTwo(xs: seq<nat>, ys: seq<nat>, nbits: nat, code: array<byte>)
    requires nbits <= 64 && Codes(xs, nbits) && Codes(ys, nbits)
    requires (BitCount(|xs + ys|, nbits) + 7) / 8 <= code.Length
    modifies code
    ensures LE(code[..(BitCount(|xs + ys|, nbits) + 7) / 8]) == Packed(Uniform(xs + ys, nbits))
  {
    hide LE, Pow2, Shl, Low, Packed, Codes, BitCount, Uniform, Total;
    var first, second := BitCount(|xs|, nbits), BitCount(|ys|, nbits);
    BitCountLaws(|xs|, |ys|, nbits);
    var start, offset := first / 8, first % 8;
    EncodeAll(xs, nbits, code, 0, 0);
    ghost var px := Packed(Uniform(xs, nbits));
    ShlZero(px);
    ghost var s := code[..(first + 7) / 8];
    EncodeAll(ys, nbits, code, start, offset);
    ghost var t := code[start..start + (offset + second + 7) / 8];
    assert code[..(first + second + 7) / 8] == s[..start] + t;
    LEConcat(s[..start], t);
    PackedConcat(xs, ys, nbits);
    ResumedSum(s, px, first, Packed(Uniform(ys, nbits)));
  }

  lemma ResumedSum(s: seq<byte>, px: nat, first: nat, py: nat)
    requires |s| == (first + 7) / 8 && LE(s) == px < Pow2(first)
    ensures LE(s[..first / 8])
          + Shl((if first % 8 > 0 then Low(s[first / 8], first % 8) else 0) + Shl(py, first % 8), 8 * (first / 8))
         == px + Shl(py, first)
  {
    hide LE, Pow2, Shl, Shr, Low;
    var start, offset := first / 8, first % 8;
    LEDrop(s, start);
    SplitAt(px, 8 * start);
    ShlShl(py, offset, 8 * start);
    if offset > 0 {
      ShlSum(Low(s[start], offset), Shl(py, offset), 8 * start);
      CleanByte(s, first);
      LowSmall(s[start], offset);
      LEByte(s, start);
      ShrBound(px, 8 * start, offset);
      Pow2Mono(offset, 8);
      LowSmall(Shr(px, 8 * start), 8);
    } else {
      ShrBound(px, 8 * start, 0);
      Pow2Step(0);
      OfZero(8 * start);
    }
  }

  lemma PackedConcat(xs: seq<nat>, ys: seq<nat>, nbits: nat)
    requires Codes(xs, nbits)
    ensures Packed(Uniform(xs + ys, nbits))
         == Packed(Uniform(xs, nbits)) + Shl(Packed(Uniform(ys, nbits)), BitCount(|xs|, nbits))
    ensures Packed(Uniform(xs, nbits)) < Pow2(BitCount(|xs|, nbits))
  {
    hide Shl, Pow2;
    UniformFits(xs, nbits);
    PackedBound(Uniform(xs, nbits));
    UniformTotal(xs, nbits);
    PackedSplit(Uniform(xs, nbits), Uniform(ys, nbits));
    assert Uniform(xs + ys, nbits) == Uniform(xs, nbits) + Uniform(ys, nbits);
  }
}
