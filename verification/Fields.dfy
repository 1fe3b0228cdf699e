/** What both bit packers write: the fields one after the other, from the low end
    of one big little-endian number. */
module Fields {
  import opened Bits

  datatype Field = Field(x: nat, n: nat)

  /** `x` has `n` bits. */
  predicate Fits(f: Field) {
    f.x < Pow2(f.n)
  }

  function Total(fs: seq<Field>): nat {
    if fs == [] then 0 else fs[0].n + Total(fs[1..])
  }

  function Packed(fs: seq<Field>): nat {
    if fs == [] then 0 else fs[0].x + Shl(Packed(fs[1..]), fs[0].n)
  }

  lemma PackedNone()
    ensures Packed([]) == 0 && Total([]) == 0
  {
  }

  lemma {:induction false} PackedBound(fs: seq<Field>)
    requires forall f :: f in fs ==> Fits(f)
    ensures Packed(fs) < Pow2(Total(fs))
  {
    hide Shl;
    if fs != [] {
      PackedBound(fs[1..]);
      assert Fits(fs[0]);
      JoinBound(fs[0].x, Packed(fs[1..]), fs[0].n, Total(fs[1..]));
    }
  }

  /** A further field goes on top of the others. */
  lemma {:induction false} PackedAppend(fs: seq<Field>, f: Field)
    ensures Total(fs + [f]) == Total(fs) + f.n
    ensures Packed(fs + [f]) == Packed(fs) + Shl(f.x, Total(fs))
  {
    hide Shl;
    if fs == [] {
      OfZero(f.n);
      ShlZero(f.x);
    } else {
      var rest := fs[1..];
      PackedAppend(rest, f);
      assert (fs + [f])[1..] == rest + [f];
      ShlSum(Packed(rest), Shl(f.x, Total(rest)), fs[0].n);
      ShlShl(f.x, Total(rest), fs[0].n);
    }
  }

  lemma {:induction false} PackedSplit(fs: seq<Field>, gs: seq<Field>)
    ensures Packed(fs + gs) == Packed(fs) + Shl(Packed(gs), Total(fs))
  {
    hide Shl;
    if fs == [] {
      ShlZero(Packed(gs));
      assert fs + gs == gs;
    } else {
      var rest := fs[1..];
      PackedSplit(rest, gs);
      assert (fs + gs)[1..] == rest + gs;
      ShlSum(Packed(rest), Shl(Packed(gs), Total(rest)), fs[0].n);
      ShlShl(Packed(gs), Total(rest), fs[0].n);
    }
  }

  /** Every field can be cut out again. */
  lemma {:induction false} FieldAt(fs: seq<Field>, m: nat)
    requires m < |fs| && forall f :: f in fs ==> Fits(f)
    ensures Low(Shr(Packed(fs), Total(fs[..m])), fs[m].n) == fs[m].x
  {
    hide Shl, Shr, Low, Pow2;
    var f, rest := fs[0], Packed(fs[1..]);
    assert Fits(f);
    Join(f.x, rest, f.n);
    if m == 0 {
      ShlZero(Packed(fs));
    } else {
      FieldAt(fs[1..], m - 1);
      assert fs[..m][1..] == fs[1..][..m - 1];
      ShrShr(Packed(fs), f.n, Total(fs[1..][..m - 1]));
    }
  }

  lemma {:induction false} TotalPrefix(fs: seq<Field>, m: nat)
    requires m < |fs|
    ensures Total(fs[..m + 1]) == Total(fs[..m]) + fs[m].n
    ensures Total(fs[..m + 1]) <= Total(fs)
  {
    if m == 0 {
      assert fs[..1][1..] == [];
    } else {
      TotalPrefix(fs[1..], m - 1);
      assert fs[..m][1..] == fs[1..][..m - 1];
      assert fs[..m + 1][1..] == fs[1..][..m];
    }
  }

  /** The fields of one code: `n` bits each. */
  function Uniform(xs: seq<nat>, n: nat): (fs: seq<Field>)
    ensures |fs| == |xs| && forall m :: 0 <= m < |xs| ==> fs[m] == Field(xs[m], n)
  {
    seq(|xs|, m requires 0 <= m < |xs| => Field(xs[m], n))
  }

  /** The size of `m` codes of `n` bits each. */
  function BitCount(m: nat, n: nat): nat {
    m * n
  }

  lemma BitCountLaws(a: nat, b: nat, n: nat)
    ensures BitCount(0, n) == 0 && BitCount(1, n) == n
    ensures BitCount(a + b, n) == BitCount(a, n) + BitCount(b, n)
  {
    Distribute(a, b, n);
  }

  lemma {:induction false} UniformTotal(xs: seq<nat>, n: nat)
    ensures Total(Uniform(xs, n)) == BitCount(|xs|, n)
  {
    BitCountLaws(0, 0, n);
    if xs != [] {
      UniformTotal(xs[1..], n);
      BitCountLaws(1, |xs| - 1, n);
      assert Uniform(xs, n)[1..] == Uniform(xs[1..], n);
    }
  }
}
