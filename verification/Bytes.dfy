/** Byte strings, little-endian 32-bit numbers in them, and files. */
module Bytes {
  import opened Bits

  const TWO_32: nat := 0x1_0000_0000

  /** A key or a value.  Lengths are stored in 32 bits; longer strings are not
      part of this model. */
  type Str = s: seq<byte> | |s| < TWO_32

  /** `binary.LittleEndian.PutUint32(buf, uint32(v))` */
  function PutU32(v: nat): (s: seq<byte>)
    ensures |s| == 4
  {
    [v % 256, v / 256 % 256, v / 0x1_0000 % 256, v / 0x100_0000 % 256]
  }

  function GetU32(s: seq<byte>): (v: nat)
    requires |s| >= 4
    ensures v < TWO_32
  {
    var b0: int, b1: int, b2: int, b3: int := s[0], s[1], s[2], s[3];
    b0 + 256 * b1 + 0x1_0000 * b2 + 0x100_0000 * b3
  }

  /** What comes back is the low 32 bits. */
  lemma U32RoundTrip(v: nat, rest: seq<byte>)
    ensures GetU32(PutU32(v) + rest) == v % TWO_32
    ensures (PutU32(v) + rest)[4..] == rest
  {
    LowDigits(v);
  }

  lemma LowDigits(v: nat)
    ensures v % 256 + 256 * (v / 256 % 256) + 0x1_0000 * (v / 0x1_0000 % 256) + 0x100_0000 * (v / 0x100_0000 % 256)
         == v % TWO_32
  {
    var a, b, c := v / 256, v / 0x1_0000, v / 0x100_0000;
    assert b == a / 256 && c == b / 256;
    assert v % TWO_32 == v - c / 256 * TWO_32;
  }

  /** And any four bytes are those of the number they hold. */
  lemma U32Bytes(s: seq<byte>)
    requires |s| >= 4
    ensures PutU32(GetU32(s)) == s[..4]
  {
    var b0: int, b1: int, b2: int, b3: int := s[0], s[1], s[2], s[3];
    FourDigits(b0, b1, b2, b3);
    assert PutU32(GetU32(s)) == [b0, b1, b2, b3];
  }

  lemma FourDigits(b0: int, b1: int, b2: int, b3: int)
    requires 0 <= b0 < 256 && 0 <= b1 < 256 && 0 <= b2 < 256 && 0 <= b3 < 256
    ensures var v := b0 + 256 * b1 + 0x1_0000 * b2 + 0x100_0000 * b3;
            && v % 256 == b0 && v / 256 % 256 == b1
            && v / 0x1_0000 % 256 == b2 && v / 0x100_0000 % 256 == b3
  {
    var v := b0 + 256 * b1 + 0x1_0000 * b2 + 0x100_0000 * b3;
    assert v / 256 == b1 + 256 * b2 + 0x1_0000 * b3;
    assert v / 0x1_0000 == b2 + 256 * b3;
    assert v / 0x100_0000 == b3;
  }

  function Zeros(n: nat): (s: seq<byte>)
    ensures |s| == n && forall i :: 0 <= i < n ==> s[i] == 0
  {
    seq(n, _ => 0)
  }

  /** A file after writing `data` at `pos`: what lies between the old end and
      `pos` reads as zeros, what lies behind the data stays. */
  function FileWrite(file: seq<byte>, pos: nat, data: seq<byte>): (f: seq<byte>)
    ensures |f| == if pos + |data| > |file| then pos + |data| else |file|
    ensures f[pos..pos + |data|] == data
    ensures forall i :: 0 <= i < |f| && !(pos <= i < pos + |data|) ==> f[i] == if i < |file| then file[i] else 0
  {
    (if pos <= |file| then file[..pos] else file + Zeros(pos - |file|))
    + data
    + (if pos + |data| < |file| then file[pos + |data|..] else [])
  }

  lemma AppendWrite(file: seq<byte>, data: seq<byte>)
    ensures FileWrite(file, |file|, data) == file + data
  {
  }

  /** Writing two pieces one after the other is writing both at once. */
  lemma WriteTwice(file: seq<byte>, pos: nat, a: seq<byte>, b: seq<byte>)
    ensures FileWrite(FileWrite(file, pos, a), pos + |a|, b) == FileWrite(file, pos, a + b)
  {
    var f := FileWrite(file, pos, a);
    assert f[..pos + |a|] == (if pos <= |file| then file[..pos] else file + Zeros(pos - |file|)) + a;
  }
}
