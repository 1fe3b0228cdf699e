/** The two packers write the same bytes for codes of one width. */
module PackersAgree {
  import opened Bits
  import opened Fields
  import opened Bitstring
  import opened ProductQuantizer

  method PackBoth(xs: seq<nat>, nbits: nat, a: array<byte>, b: array<byte>)
    requires 1 <= nbits <= 64 && Codes(xs, nbits) && a != b
    requires a.Length == b.Length == (BitCount(|xs|, nbits) + 7) / 8
    modifies a, b
    ensures a[..] == b[..]
    ensures LE(a[..]) == Packed(Uniform(xs, nbits))
  {
    hide LE, Shl, Low, Packed, Codes, BitCount;
    EncodeAll(xs, nbits, a, 0, 0);
    ShlZero(Packed(Uniform(xs, nbits)));
    assert a[0..a.Length] == a[..];
    UniformFits(xs, nbits);
    UniformTotal(xs, nbits);
    WriteAll(Uniform(xs, nbits), b);
    LEInjective(a[..], b[..]);
  }
}
