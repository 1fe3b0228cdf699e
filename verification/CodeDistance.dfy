/** Distances to packed codes by table lookup, of
    `impl/code_distance/code_distance-generic.h`.  Sums are over the reals. */
module CodeDistance {
  import opened Bits
  import opened Fields
  import opened ProductQuantizer

  /** The `n` codes in bytes that hold `v`. */
  ghost function Codebook(v: nat, nbits: nat, n: nat): (xs: seq<nat>)
    ensures |xs| == n
  {
    seq(n, m requires 0 <= m < n => CodeAt(v, nbits, m))
  }

  lemma CodebookStep(v: nat, nbits: nat, n: nat)
    ensures Codebook(v, nbits, n + 1) == Codebook(v, nbits, n) + [CodeAt(v, nbits, n)]
    ensures CodeAt(v, nbits, n) < Pow2(nbits)
  {
    SplitAt(Shr(v, BitCount(n, nbits)), nbits);
  }

  /** The sum, over the codes in order, of entry `x` in row `m` of the table. */
  ghost function LookupSum(table: seq<real>, ksub: nat, xs: seq<nat>): real
    requires |xs| * ksub <= |table| && forall x :: x in xs ==> x < ksub
  {
    if xs == [] then 0.0
    else
      var m := |xs| - 1;
      RowFits(m, |xs|, ksub);
      assert xs[m] in xs && |xs[..m]| == m;
      assert forall x :: x in xs[..m] ==> x in xs;
      LookupSum(table, ksub, xs[..m]) + table[m * ksub + xs[m]]
  }

  /** The sum reads one entry of each row: changing entry `x` of row `m` changes it by as much
      if the code there is `x`, and not at all otherwise. */
  lemma {:induction false} EntryCounts(table: seq<real>, ksub: nat, xs: seq<nat>, m: nat, x: nat, v: real)
    requires |xs| * ksub <= |table| && forall y :: y in xs ==> y < ksub
    requires x < ksub && m * ksub + x < |table|
    ensures LookupSum(table[m * ksub + x := v], ksub, xs)
         == LookupSum(table, ksub, xs) + if m < |xs| && xs[m] == x then v - table[m * ksub + x] else 0.0
  {
    if xs == [] {
    } else {
      hide LookupSum;
      var n := |xs| - 1;
      LastEntry(table, ksub, xs);
      LastEntry(table[m * ksub + x := v], ksub, xs);
      EntryCounts(table, ksub, xs[..n], m, x, v);
      SameEntry(n, xs[n], m, x, ksub);
    }
  }

  lemma SameEntry(n: nat, y: nat, m: nat, x: nat, ksub: nat)
    requires x < ksub && y < ksub
    ensures n * ksub + y == m * ksub + x <==> n == m && y == x
  {
    DivModUnique(m * ksub + x, ksub, m, x);
    DivModUnique(n * ksub + y, ksub, n, y);
  }

  lemma LastEntry(table: seq<real>, ksub: nat, xs: seq<nat>)
    requires |xs| * ksub <= |table| && (forall x :: x in xs ==> x < ksub) && xs != []
    ensures var m := |xs| - 1;
            && |xs[..m]| * ksub <= |table| && m * ksub + xs[m] < |table| && xs[m] < ksub
            && (forall x :: x in xs[..m] ==> x < ksub)
            && LookupSum(table, ksub, xs) == LookupSum(table, ksub, xs[..m]) + table[m * ksub + xs[m]]
  {
    var m := |xs| - 1;
    RowFits(m, |xs|, ksub);
    assert xs[m] in xs && |xs[..m]| == m;
    assert forall x :: x in xs[..m] ==> x in xs;
  }

  /** And a table of zeros gives zero. */
  lemma {:induction false} NothingCounts(table: seq<real>, ksub: nat, xs: seq<nat>)
    requires |xs| * ksub <= |table| && forall x :: x in xs ==> x < ksub
    requires forall j :: 0 <= j < |table| ==> table[j] == 0.0
    ensures LookupSum(table, ksub, xs) == 0.0
  {
    if xs != [] {
      LastEntry(table, ksub, xs);
      NothingCounts(table, ksub, xs[..|xs| - 1]);
    }
  }

  lemma RowFits(m: nat, n: nat, ksub: nat)
    requires m < n
    ensures m * ksub + ksub == (m + 1) * ksub <= n * ksub
  {
    Distribute(m, 1, ksub);
    MulMono(m + 1, n, ksub);
  }

  lemma CodebookInRange(v: nat, nbits: nat, n: nat)
    ensures forall x :: x in Codebook(v, nbits, n) ==> x < Pow2(nbits)
  {
    forall x | x in Codebook(v, nbits, n)
      ensures x < Pow2(nbits)
    {
      var m :| 0 <= m < n && Codebook(v, nbits, n)[m] == x;
      CodebookStep(v, nbits, m);
    }
  }

  /** The distance the tables give to the `n` codes in bytes that hold `v`. */
  ghost function Distance(table: seq<real>, nbits: nat, v: nat, n: nat): real
    requires n * Pow2(nbits) <= |table|
  {
    CodebookInRange(v, nbits, n);
    LookupSum(table, Pow2(nbits), Codebook(v, nbits, n))
  }

  lemma DistanceStep(table: seq<real>, nbits: nat, v: nat, n: nat)
    requires (n + 1) * Pow2(nbits) <= |table|
    ensures n * Pow2(nbits) <= |table|
    ensures n * Pow2(nbits) + CodeAt(v, nbits, n) < |table|
    ensures Distance(table, nbits, v, n + 1)
         == Distance(table, nbits, v, n) + table[n * Pow2(nbits) + CodeAt(v, nbits, n)]
  {
    RowFits(n, n + 1, Pow2(nbits));
    CodebookStep(v, nbits, n);
    CodebookInRange(v, nbits, n + 1);
    var xs := Codebook(v, nbits, n + 1);
    assert xs[..n] == Codebook(v, nbits, n);
  }

  /** `1 << nbits` is an `int` in the code: 30 bits are the most it can hold. */
  method DistanceSingleCode(M: nat, nbits: nat, simTable: array<real>, code: array<byte>, start: nat)
    returns (result: real)
    requires 1 <= nbits <= 30 && M * Pow2(nbits) <= simTable.Length
    requires start <= code.Length && BitCount(M, nbits) <= 8 * (code.Length - start)
    ensures result == Distance(simTable[..], nbits, LE(code[start..]), M)
  {
    hide LE, Pow2, BitCount, Distance, CodeAt;
    ghost var v := LE(code[start..]);
    var decoder := new PQDecoderGeneric(code, start, nbits);
    var ksub := Pow2(nbits);
    var tab := 0;
    result := 0.0;
    NoDistance(simTable[..], nbits, v);
    for m := 0 to M
      invariant decoder.code == code && decoder.nbits == nbits && decoder.base == start && decoder.Valid()
      invariant decoder.Count() == BitCount(m, nbits) && tab == m * ksub && tab <= simTable.Length
      invariant result == Distance(simTable[..], nbits, v, m)
    {
      Advance(m, M, nbits);
      DistanceStep(simTable[..], nbits, v, m);
      CodeAtIs(v, nbits, m);
      var x := decoder.Decode();
      result := result + simTable[tab + x];
      tab := tab + ksub;
    }
  }

  lemma NoDistance(table: seq<real>, nbits: nat, v: nat)
    ensures BitCount(0, nbits) == 0 && Distance(table, nbits, v, 0) == 0.0
  {
  }

  lemma CodeAtIs(v: nat, nbits: nat, m: nat)
    ensures CodeAt(v, nbits, m) == Low(Shr(v, BitCount(m, nbits)), nbits)
  {
  }

  lemma Advance(m: nat, M: nat, nbits: nat)
    requires m < M
    ensures BitCount(m + 1, nbits) == BitCount(m, nbits) + nbits <= BitCount(M, nbits)
    ensures m * Pow2(nbits) + Pow2(nbits) == (m + 1) * Pow2(nbits) <= M * Pow2(nbits)
  {
    BitCountLaws(m, 1, nbits);
    BitCountLaws(m + 1, M - m - 1, nbits);
    RowFits(m, M, Pow2(nbits));
  }

  /** Four codes at once, each with the distance `DistanceSingleCode` gives it. */
  method DistanceFourCodes(M: nat, nbits: nat, simTable: array<real>,
                           code0: array<byte>, code1: array<byte>, code2: array<byte>, code3: array<byte>)
    returns (result0: real, result1: real, result2: real, result3: real)
    requires 1 <= nbits <= 30 && M * Pow2(nbits) <= simTable.Length
    requires BitCount(M, nbits) <= 8 * code0.Length && BitCount(M, nbits) <= 8 * code1.Length
    requires BitCount(M, nbits) <= 8 * code2.Length && BitCount(M, nbits) <= 8 * code3.Length
    ensures result0 == Distance(simTable[..], nbits, LE(code0[..]), M)
    ensures result1 == Distance(simTable[..], nbits, LE(code1[..]), M)
    ensures result2 == Distance(simTable[..], nbits, LE(code2[..]), M)
    ensures result3 == Distance(simTable[..], nbits, LE(code3[..]), M)
  {
    hide LE, Pow2, BitCount, Ready;
    var decoder0 := NewDecoder(code0, nbits, simTable);
    var decoder1 := NewDecoder(code1, nbits, simTable);
    var decoder2 := NewDecoder(code2, nbits, simTable);
    var decoder3 := NewDecoder(code3, nbits, simTable);
    result0, result1, result2, result3 := 0.0, 0.0, 0.0, 0.0;
    var ksub := Pow2(nbits);
    var tab := 0;
    for m := 0 to M
      invariant decoder0 != decoder1 && decoder0 != decoder2 && decoder0 != decoder3
      invariant decoder1 != decoder2 && decoder1 != decoder3 && decoder2 != decoder3
      invariant tab == m * ksub
      invariant Ready(decoder0, code0, nbits, simTable, m, result0)
      invariant Ready(decoder1, code1, nbits, simTable, m, result1)
      invariant Ready(decoder2, code2, nbits, simTable, m, result2)
      invariant Ready(decoder3, code3, nbits, simTable, m, result3)
    {
      Advance(m, M, nbits);
      result0, result1 := AddTwo(decoder0, code0, decoder1, code1, nbits, simTable, tab, m, result0, result1);
      result2, result3 := AddTwo(decoder2, code2, decoder3, code3, nbits, simTable, tab, m, result2, result3);
      tab := tab + ksub;
    }
    FinalSums(decoder0, code0, decoder1, code1, nbits, simTable, M, result0, result1);
    FinalSums(decoder2, code2, decoder3, code3, nbits, simTable, M, result2, result3);
  }

  method NewDecoder(code: array<byte>, nbits: nat, simTable: array<real>) returns (decoder: PQDecoderGeneric)
    requires 1 <= nbits <= 30
    ensures fresh(decoder) && Ready(decoder, code, nbits, simTable, 0, 0.0)
  {
    hide LE, Pow2;
    decoder := new PQDecoderGeneric(code, 0, nbits);
    NoDistance(simTable[..], nbits, LE(code[..]));
  }

  /** The decoder has read `m` codes, and `result` is their part of the sum. */
  ghost predicate Ready(decoder: PQDecoderGeneric, code: array<byte>, nbits: nat, simTable: array<real>, m: nat,
                        result: real)
    reads decoder, decoder.code, code, simTable
  {
    && decoder.code == code && decoder.nbits == nbits && decoder.base == 0
    && decoder.Valid() && decoder.Count() == BitCount(m, nbits)
    && m * Pow2(nbits) <= simTable.Length
    && result == Distance(simTable[..], nbits, LE(code[..]), m)
  }

  lemma FinalSums(decoder: PQDecoderGeneric, code: array<byte>, decoder': PQDecoderGeneric, code': array<byte>,
                  nbits: nat, simTable: array<real>, m: nat, result: real, result': real)
    requires m * Pow2(nbits) <= simTable.Length
    requires Ready(decoder, code, nbits, simTable, m, result) && Ready(decoder', code', nbits, simTable, m, result')
    ensures result == Distance(simTable[..], nbits, LE(code[..]), m)
    ensures result' == Distance(simTable[..], nbits, LE(code'[..]), m)
  {
  }

  /** Two of the four sums. */
  method AddTwo(decoder: PQDecoderGeneric, code: array<byte>, decoder': PQDecoderGeneric, code': array<byte>,
                nbits: nat, simTable: array<real>, tab: nat, m: nat, sum: real, sum': real)
    returns (result: real, result': real)
    requires decoder != decoder'
    requires Ready(decoder, code, nbits, simTable, m, sum) && Ready(decoder', code', nbits, simTable, m, sum')
    requires BitCount(m + 1, nbits) <= 8 * code.Length && BitCount(m + 1, nbits) <= 8 * code'.Length
    requires tab == m * Pow2(nbits) && (m + 1) * Pow2(nbits) <= simTable.Length
    modifies decoder, decoder'
    ensures Ready(decoder, code, nbits, simTable, m + 1, result)
    ensures Ready(decoder', code', nbits, simTable, m + 1, result')
  {
    hide LE, Pow2, BitCount, Ready;
    result := AddLookup(decoder, code, nbits, simTable, tab, m, sum);
    result' := AddLookup(decoder', code', nbits, simTable, tab, m, sum');
  }

  /** `result += tab[decoder.decode()]` */
  method AddLookup(decoder: PQDecoderGeneric, code: array<byte>, nbits: nat, simTable: array<real>, tab: nat, m: nat,
                   sum: real)
    returns (result: real)
    requires Ready(decoder, code, nbits, simTable, m, sum)
    requires BitCount(m + 1, nbits) <= 8 * code.Length
    requires tab == m * Pow2(nbits) && (m + 1) * Pow2(nbits) <= simTable.Length
    modifies decoder
    ensures Ready(decoder, code, nbits, simTable, m + 1, result)
  {
    hide LE, Pow2, BitCount, Distance, CodeAt;
    ghost var v := LE(code[..]);
    assert code[0..] == code[..];
    BitCountLaws(m, 1, nbits);
    DistanceStep(simTable[..], nbits, v, m);
    CodeAtIs(v, nbits, m);
    var x := decoder.Decode();
    result := sum + simTable[tab + x];
  }

  /** For bytes that hold encoded codes, the distance is the sum of the table
      entries of those very codes. */
  lemma DistanceOfEncoded(table: seq<real>, xs: seq<nat>, nbits: nat, s: seq<byte>)
    requires Codes(xs, nbits) && |xs| * Pow2(nbits) <= |table|
    requires (BitCount(|xs|, nbits) + 7) / 8 <= |s|
    requires LE(s[..(BitCount(|xs|, nbits) + 7) / 8]) == Packed(Uniform(xs, nbits))
    ensures Distance(table, nbits, LE(s), |xs|) == LookupSum(table, Pow2(nbits), xs)
  {
    CodesInBytes(xs, nbits, s);
    assert Codebook(LE(s), nbits, |xs|) == xs;
  }
}
