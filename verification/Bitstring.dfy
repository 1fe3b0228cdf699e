/** Writing and reading fields of any width in a byte buffer: `BitstringWriter`
    and `BitstringReader` of `utils/hamming-inl.h`. */
module Bitstring {
  import opened Bits
  import opened Fields

  /** What ends up in the buffer for `x` at bit `i`: a field that fits in the
      current byte is cut off at the end of that byte, any other is not cut off
      at all. */
  function Stored(x: nat, nbit: nat, i: nat): nat {
    if nbit <= 8 - i % 8 then Low(x, 8 - i % 8) else x
  }

  class BitstringWriter {
    const code: array<byte>
    var i: nat  // current bit offset

    constructor (code: array<byte>)
      modifies code
      ensures this.code == code && i == 0 && LE(code[..]) == 0
    {
      this.code, i := code, 0;
      new;
      forall j | 0 <= j < code.Length {
        code[j] := 0;
      }
      LEZeros(code[..]);
    }

    /** Adds `x` as the next `nbit` bits.  The buffer as a number grows by what is
        stored of `x`, shifted to the current bit: no lower bit is disturbed. */
    method Write(x: nat, nbit: nat)
      requires 1 <= nbit <= 64 && x < Pow2(64) && i + nbit <= 8 * code.Length
      requires nbit <= 8 - i % 8 || x < Pow2(8 * code.Length - i)
      requires LE(code[..]) < Pow2(i)
      modifies this, code
      ensures i == old(i) + nbit
      ensures LE(code[..]) == old(LE(code[..])) + Shl(Stored(x, nbit, old(i)), old(i))
    {
      hide LE, Pow2, Shl, Shr, Low, BitOr, Shl64;
      var na := 8 - i % 8;
      var j := i / 8;
      ghost var s := code[..];
      code[j] := ToByte(BitOr(code[j], Shl64(x, i % 8)));
      assert code[..] == s[j := code[j]];
      OrIntoByte(s, i, x, code[j]);
      if nbit > na {
        forall m | j < m < code.Length
          ensures code[m] == 0
        {
          ZeroByte(s, i, m);
        }
        ShrBound(x, na, 8 * (code.Length - j - 1));
        WriteRest(j + 1, Shr(x, na));
        assert 8 * (j + 1) == na + i;
        ShlShl(Shr(x, na), na, i);
        SplitAt(x, na);
        ShlSum(Low(x, na), Shl(Shr(x, na), na), i);
      }
      i := i + nbit;
    }

    /** The loop that ors the remaining bytes of a field into bytes that are still
        zero. */
    method WriteRest(start: nat, rest: nat)
      requires start <= code.Length && rest < Pow2(8 * (code.Length - start))
      requires forall m :: start <= m < code.Length ==> code[m] == 0
      modifies code
      ensures LE(code[..]) == old(LE(code[..])) + Shl(rest, 8 * start)
    {
      hide LE, Pow2, Shl, Shr, Low, BitOr;
      var j: nat, x: nat := start, rest;
      while x != 0
        invariant start <= j <= code.Length && x < Pow2(8 * (code.Length - j))
        invariant forall m :: j <= m < code.Length ==> code[m] == 0
        invariant LE(code[..]) + Shl(x, 8 * j) == old(LE(code[..])) + Shl(rest, 8 * start)
        decreases code.Length - j
      {
        assert j < code.Length by {
          if j == code.Length { Pow2Step(8 * (code.Length - j)); }
        }
        ghost var s := code[..];
        code[j] := ToByte(BitOr(code[j], x));
        assert code[..] == s[j := code[j]];
        OrZero(x);
        ZeroByteGrows(s, j, x);
        ShrBound(x, 8, 8 * (code.Length - j - 1));
        x := Shr(x, 8);
        j := j + 1;
      }
      OfZero(8 * j);
    }
  }

  lemma ZeroByteGrows(s: seq<byte>, j: nat, x: nat)
    requires j < |s| && s[j] == 0
    ensures LE(s[j := ToByte(x)]) + Shl(Shr(x, 8), 8 * (j + 1)) == LE(s) + Shl(x, 8 * j)
  {
    hide LE, Pow2, Shl, Shr, Low;
    LEUpdate(s, j, ToByte(x));
    OfZero(8 * j);
    SplitAt(x, 8);
    ShlShl(Shr(x, 8), 8, 8 * j);
    ShlSum(Low(x, 8), Shl(Shr(x, 8), 8), 8 * j);
  }

  class BitstringReader {
    const code: array<byte>
    var i: nat

    constructor (code: array<byte>)
      ensures this.code == code && i == 0
    {
      this.code, i := code, 0;
    }

    /** Returns the next `nbit` bits. */
    method Read(nbit: nat) returns (res: nat)
      requires 1 <= nbit <= 64 && i + nbit <= 8 * code.Length
      modifies this
      ensures i == old(i) + nbit
      ensures res == Low(Shr(LE(code[..]), old(i)), nbit)
    {
      hide LE, Pow2, Shl, Shr, Low, BitAnd, BitOr, Shl64;
      var na := 8 - i % 8;
      ghost var v := LE(code[..]);
      res := Shr(code[i / 8], i % 8);
      FirstBits(code[..], i);
      assert code[..][i / 8] == code[i / 8];
      if nbit <= na {
        AndMask(res, nbit);
        LowLow(Shr(v, i), nbit, na);
        res := BitAnd(res, Pow2(nbit) - 1);
        i := i + nbit;
      } else {
        var ofs: nat := na;
        var left: nat := nbit - na;
        var j: nat := i / 8 + 1;
        while left > 8
          invariant i == old(i) && ofs + left == nbit && left >= 1 && 8 * j == i + ofs
          invariant res == Low(Shr(v, i), ofs)
        {
          NextByteBits(code[..], i, ofs);
          assert code[..][j] == code[j];
          res := BitOr(res, Shl64(code[j], ofs));
          j := j + 1;
          ofs := ofs + 8;
          left := left - 8;
        }
        AndMask(code[j], left);
        NextBits(code[..], i, ofs, left);
        assert code[..][j] == code[j];
        var lastByte := BitAnd(code[j], Pow2(left) - 1);
        res := BitOr(res, Shl64(lastByte, ofs));
        i := i + nbit;
      }
    }
  }

  /** `write` is documented to write the low `nbit` bits of `x`.  Those bits always
      arrive, but what is added to the buffer is no more than them only if `x`
      has no other bit set that the current byte, or for a longer field the
      buffer, has room for. */
  lemma StoredIsLowBits(x: nat, nbit: nat, i: nat)
    requires nbit >= 1
    ensures Low(Stored(x, nbit, i), nbit) == Low(x, nbit)
    ensures Stored(x, nbit, i) == Low(x, nbit)
      <==> (if nbit <= 8 - i % 8 then Low(x, 8 - i % 8) else x) < Pow2(nbit)
  {
    hide Low, Pow2;
    if nbit <= 8 - i % 8 {
      LowLow(x, nbit, 8 - i % 8);
    }
    SplitAt(x, nbit);
    if Stored(x, nbit, i) < Pow2(nbit) {
      LowSmall(Stored(x, nbit, i), nbit);
    }
  }

  /** Writing 2 as a one-bit field sets the bit of the next field. */
  lemma WriteDoesNotMask()
    ensures Stored(2, 1, 0) == 2 && Low(2, 1) == 0
    ensures Low(Shr(Shl(Stored(2, 1, 0), 0), 1), 1) == 1
  {
    assert Pow2(1) == 2 && Pow2(2) == 4;
    Pow2Eight();
  }

  // ----- whole buffers -----

  ghost predicate Writable(fs: seq<Field>) {
    forall f :: f in fs ==> 1 <= f.n <= 64 && Fits(f)
  }

  /** Writes fields of any widths into a fresh buffer. */
  method WriteAll(fs: seq<Field>, code: array<byte>)
    requires Writable(fs) && Total(fs) <= 8 * code.Length
    modifies code
    ensures LE(code[..]) == Packed(fs)
  {
    hide LE, Pow2, Shl, Low, Packed, Total;
    var writer := new BitstringWriter(code);
    PackedNone();
    for m := 0 to |fs|
      invariant writer.code == code
      invariant writer.i == Total(fs[..m]) && LE(code[..]) == Packed(fs[..m])
    {
      var f := fs[m];
      assert f in fs;
      TotalPrefix(fs, m);
      PackedBound(fs[..m]);
      PackedAppend(fs[..m], f);
      assert fs[..m + 1] == fs[..m] + [f];
      Pow2Mono(f.n, 64);
      Pow2Mono(f.n, 8 * code.Length - writer.i);
      FittingIsStored(f, writer.i);
      writer.Write(f.x, f.n);
    }
    assert fs[..|fs|] == fs;
  }

  lemma FittingIsStored(f: Field, i: nat)
    requires Fits(f)
    ensures Stored(f.x, f.n, i) == f.x
  {
    if f.n <= 8 - i % 8 {
      Pow2Mono(f.n, 8 - i % 8);
      LowSmall(f.x, 8 - i % 8);
    }
  }

  /** Fields of the given widths, whatever they hold. */
  function OfWidths(widths: seq<nat>): (fs: seq<Field>)
    ensures |fs| == |widths| && forall m :: 0 <= m < |widths| ==> fs[m] == Field(0, widths[m])
  {
    seq(|widths|, m requires 0 <= m < |widths| => Field(0, widths[m]))
  }

  /** Reads fields of the given widths from a buffer, whatever it holds. */
  method ReadAll(widths: seq<nat>, code: array<byte>) returns (xs: seq<nat>)
    requires forall n :: n in widths ==> 1 <= n <= 64
    requires Total(OfWidths(widths)) <= 8 * code.Length
    ensures |xs| == |widths|
    ensures forall m :: 0 <= m < |widths| ==>
              xs[m] == Low(Shr(LE(code[..]), Total(OfWidths(widths[..m]))), widths[m])
  {
    hide LE, Pow2, Shr, Low, Total;
    var reader := new BitstringReader(code);
    xs := [];
    PackedNone();
    for m := 0 to |widths|
      invariant reader.code == code && reader.i == Total(OfWidths(widths[..m])) && |xs| == m
      invariant forall l :: 0 <= l < m ==> xs[l] == Low(Shr(LE(code[..]), Total(OfWidths(widths[..l]))), widths[l])
    {
      assert widths[m] in widths;
      TotalPrefix(OfWidths(widths), m);
      assert OfWidths(widths)[..m] == OfWidths(widths[..m]);
      assert OfWidths(widths)[..m + 1] == OfWidths(widths[..m + 1]);
      var x := reader.Read(widths[m]);
      xs := xs + [x];
    }
  }

  function Widths(fs: seq<Field>): (ns: seq<nat>)
    ensures |ns| == |fs| && forall m :: 0 <= m < |fs| ==> ns[m] == fs[m].n
  {
    seq(|fs|, m requires 0 <= m < |fs| => fs[m].n)
  }

  lemma {:induction false} WidthsTotal(fs: seq<Field>)
    ensures Total(OfWidths(Widths(fs))) == Total(fs)
  {
    if fs != [] {
      WidthsTotal(fs[1..]);
      assert OfWidths(Widths(fs))[1..] == OfWidths(Widths(fs[1..]));
    }
  }

  /** Fields of any widths, written and read back. */
  method RoundTrip(fs: seq<Field>, code: array<byte>) returns (xs: seq<nat>)
    requires Writable(fs) && Total(fs) <= 8 * code.Length
    modifies code
    ensures |xs| == |fs| && forall m :: 0 <= m < |fs| ==> xs[m] == fs[m].x
  {
    hide LE, Pow2, Shr, Low, Packed, Total;
    WriteAll(fs, code);
    WidthsTotal(fs);
    xs := ReadAll(Widths(fs), code);
    forall m | 0 <= m < |fs|
      ensures xs[m] == fs[m].x
    {
      FieldAt(fs, m);
      WidthsTotal(fs[..m]);
      assert Widths(fs)[..m] == Widths(fs[..m]);
    }
  }
}
