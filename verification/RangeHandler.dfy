/** Range search results of a block of queries: collected as triplets in any order
    of queries, then reported query by query by the counting sort of
    `impl/simd_result_handlers.h`. */
module RangeHandler {
  import opened Wrappers

  datatype Triplet = Triplet(q: nat, b: int, dis: int)

  /** The triplets of query `q`, in order of arrival. */
  ghost function OfQuery(ts: seq<Triplet>, q: nat): seq<Triplet> {
    if ts == [] then []
    else
      var last := ts[|ts| - 1];
      OfQuery(ts[..|ts| - 1], q) + if last.q == q then [last] else []
  }

  lemma OfQueryStep(ts: seq<Triplet>, i: nat, q: nat)
    requires i < |ts|
    ensures OfQuery(ts[..i + 1], q) == OfQuery(ts[..i], q) + if ts[i].q == q then [ts[i]] else []
  {
    assert ts[..i + 1][..i] == ts[..i];
  }

  lemma {:induction false} OfQueryPrefix(ts: seq<Triplet>, i: nat, q: nat)
    requires i <= |ts|
    ensures OfQuery(ts[..i], q) <= OfQuery(ts, q)
    decreases |ts| - i
  {
    if i == |ts| {
      assert ts[..i] == ts;
    } else {
      OfQueryStep(ts, i, q);
      OfQueryPrefix(ts, i + 1, q);
    }
  }

  /** How many triplets belong to the first `n` of the queries from `q0` on. */
  ghost function Start(ts: seq<Triplet>, q0: nat, n: nat): nat {
    if n == 0 then 0 else Start(ts, q0, n - 1) + |OfQuery(ts, q0 + n - 1)|
  }

  lemma {:induction false} StartGrows(ts: seq<Triplet>, q0: nat, m: nat, n: nat)
    requires m <= n
    ensures Start(ts, q0, m) <= Start(ts, q0, n)
  {
    if m < n {
      StartGrows(ts, q0, m, n - 1);
    }
  }

  lemma {:induction false} StartAppend(ts: seq<Triplet>, t: Triplet, q0: nat, n: nat)
    requires q0 <= t.q
    ensures Start(ts + [t], q0, n) == Start(ts, q0, n) + if t.q < q0 + n then 1 else 0
  {
    if n > 0 {
      StartAppend(ts, t, q0, n - 1);
      assert (ts + [t])[..|ts|] == ts;
    }
  }

  ghost predicate InBlock(ts: seq<Triplet>, q0: nat, nq: nat) {
    forall t :: t in ts ==> q0 <= t.q < q0 + nq
  }

  lemma {:induction false} StartNone(q0: nat, n: nat)
    ensures Start([], q0, n) == 0
  {
    if n > 0 {
      StartNone(q0, n - 1);
    }
  }

  lemma {:induction false} StartIsAll(ts: seq<Triplet>, q0: nat, nq: nat)
    requires InBlock(ts, q0, nq)
    ensures Start(ts, q0, nq) == |ts|
  {
    if ts == [] {
      StartNone(q0, nq);
    } else {
      var rest, last := ts[..|ts| - 1], ts[|ts| - 1];
      StartIsAll(rest, q0, nq);
      StartAppend(rest, last, q0, nq);
      assert ts == rest + [last];
    }
  }

  /** Reporting by query loses no triplet, repeats none and mixes up no
      queries. */
  lemma {:induction false} OfQueryCount(ts: seq<Triplet>, q: nat, t: Triplet)
    ensures multiset(OfQuery(ts, q))[t] == if t.q == q then multiset(ts)[t] else 0
  {
    if ts != [] {
      var rest, last := ts[..|ts| - 1], ts[|ts| - 1];
      OfQueryCount(rest, q, t);
      assert ts == rest + [last];
    }
  }

  /** And it keeps the order of arrival: `js` are the places of the triplets of the query,
      each once and in order. */
  lemma {:induction false} OfQueryOrder(ts: seq<Triplet>, q: nat) returns (js: seq<nat>)
    ensures |js| == |OfQuery(ts, q)|
    ensures forall i :: 0 <= i < |js| ==> js[i] < |ts| && OfQuery(ts, q)[i] == ts[js[i]]
    ensures forall i, j :: 0 <= i < j < |js| ==> js[i] < js[j]
    ensures forall n :: 0 <= n < |ts| ==> (ts[n].q == q <==> n in js)
  {
    js := [];
    if ts != [] {
      var m := |ts| - 1;
      js := OfQueryOrder(ts[..m], q);
      assert forall i :: 0 <= i < |js| ==> js[i] < m && ts[..m][js[i]] == ts[js[i]];
      if ts[m].q == q {
        js := js + [m];
      }
    }
  }

  // ----- the sort -----

  /** The first `i` triplets are in place: each query has its part of `sorted`,
      and `n[q]` is where its next triplet goes. */
  ghost predicate Placed(sorted: seq<Triplet>, n: seq<nat>, ts: seq<Triplet>, i: nat, q0: nat, nq: nat) {
    && i <= |ts| == |sorted| && nq < |n|
    && forall q :: 0 <= q < nq ==> PlacedFor(sorted, n, ts, i, q0, q)
  }

  ghost predicate PlacedFor(sorted: seq<Triplet>, n: seq<nat>, ts: seq<Triplet>, i: nat, q0: nat, q: nat)
    requires q < |n| && i <= |ts|
  {
    && n[q] == Start(ts, q0, q) + |OfQuery(ts[..i], q0 + q)| <= |sorted|
    && sorted[Start(ts, q0, q)..n[q]] == OfQuery(ts[..i], q0 + q)
  }

  lemma PlaceStep(sorted: seq<Triplet>, n: seq<nat>, ts: seq<Triplet>, i: nat, q0: nat, nq: nat)
    requires Placed(sorted, n, ts, i, q0, nq) && i < |ts| && InBlock(ts, q0, nq)
    ensures q0 <= ts[i].q < q0 + nq && n[ts[i].q - q0] < |sorted|
    ensures var q := ts[i].q - q0;
            Placed(sorted[n[q] := ts[i]], n[q := n[q] + 1], ts, i + 1, q0, nq)
  {
    hide OfQuery, Start;
    assert ts[i] in ts;
    var q := ts[i].q - q0;
    assert PlacedFor(sorted, n, ts, i, q0, q);
    RoomLeft(ts, i, q0, nq, q);
    var at := n[q];
    var sorted', n' := sorted[at := ts[i]], n[q := at + 1];
    OfQueryStep(ts, i, q0 + q);
    var s := Start(ts, q0, q);
    assert sorted'[s..at + 1] == sorted[s..at] + [ts[i]];
    var done := i + 1;
    forall p | 0 <= p < nq
      ensures PlacedFor(sorted', n', ts, done, q0, p)
    {
      if p != q {
        assert PlacedFor(sorted, n, ts, i, q0, p);
        OfQueryStep(ts, i, q0 + p);
        PartsApart(ts, i, q0, p, q);
        assert sorted'[Start(ts, q0, p)..n[p]] == sorted[Start(ts, q0, p)..n[p]];
      }
    }
  }

  /** The part of a query ends before that of the next one begins. */
  lemma RoomLeft(ts: seq<Triplet>, i: nat, q0: nat, nq: nat, q: nat)
    requires i < |ts| && InBlock(ts, q0, nq) && q < nq && ts[i].q == q0 + q
    ensures Start(ts, q0, q) + |OfQuery(ts[..i], q0 + q)| < Start(ts, q0, q + 1) <= |ts|
  {
    hide OfQuery, Start;
    OfQueryStep(ts, i, q0 + q);
    PartFits(ts, i + 1, q0, q);
    StartGrows(ts, q0, q + 1, nq);
    StartIsAll(ts, q0, nq);
  }

  lemma PartFits(ts: seq<Triplet>, i: nat, q0: nat, q: nat)
    requires i <= |ts|
    ensures Start(ts, q0, q) + |OfQuery(ts[..i], q0 + q)| <= Start(ts, q0, q + 1)
  {
    hide OfQuery;
    OfQueryPrefix(ts, i, q0 + q);
  }

  lemma PartsApart(ts: seq<Triplet>, i: nat, q0: nat, p: nat, q: nat)
    requires i < |ts| && p != q && ts[i].q == q0 + q
    ensures p < q ==> Start(ts, q0, p) + |OfQuery(ts[..i], q0 + p)| <= Start(ts, q0, q)
    ensures q < p ==> Start(ts, q0, q) + |OfQuery(ts[..i], q0 + q)| < Start(ts, q0, p)
  {
    hide OfQuery, Start;
    if p < q {
      PartFits(ts, i, q0, p);
      StartGrows(ts, q0, p + 1, q);
    } else {
      OfQueryStep(ts, i, q0 + q);
      PartFits(ts, i + 1, q0, q);
      StartGrows(ts, q0, q + 1, p);
    }
  }

  /** In the end the parts are complete, and each ends where the next begins. */
  ghost predicate Part(sorted: seq<Triplet>, lims: seq<nat>, ts: seq<Triplet>, q0: nat, q: nat)
    requires q + 1 < |lims|
  {
    && lims[q] <= lims[q + 1] <= |sorted|
    && sorted[lims[q]..lims[q + 1]] == OfQuery(ts, q0 + q)
  }

  lemma PartsComplete(sorted: seq<Triplet>, n: seq<nat>, ts: seq<Triplet>, q0: nat, nq: nat, q: nat, lims: seq<nat>)
    requires Placed(sorted, n, ts, |ts|, q0, nq) && q < nq
    requires |lims| > nq && lims[0] == 0 && forall p :: 1 <= p <= nq ==> lims[p] == n[p - 1]
    ensures Part(sorted, lims, ts, q0, q)
  {
    assert ts[..|ts|] == ts;
    assert PlacedFor(sorted, n, ts, |ts|, q0, q);
    if q > 0 {
      assert PlacedFor(sorted, n, ts, |ts|, q0, q - 1);
    }
  }

  lemma PartIs(sorted: seq<Triplet>, lims: seq<nat>, ts: seq<Triplet>, q0: nat, q: nat)
    requires q + 1 < |lims| && Part(sorted, lims, ts, q0, q)
    ensures lims[q] <= lims[q + 1] <= |sorted| && sorted[lims[q]..lims[q + 1]] == OfQuery(ts, q0 + q)
  {
  }

  /** What one query reports. */
  ghost predicate Reports(qres: seq<(real, int)>, part: seq<Triplet>, normalizers: seq<real>, q: nat) {
    && |qres| == |part| && 2 * q + 1 < |normalizers| && normalizers[2 * q] != 0.0
    && forall i :: 0 <= i < |part| ==>
         && qres[i].0 == part[i].dis as real / normalizers[2 * q] + normalizers[2 * q + 1]
         && qres[i].1 == part[i].b
  }

  lemma ReportsIs(qres: seq<(real, int)>, part: seq<Triplet>, normalizers: seq<real>, q: nat)
    requires Reports(qres, part, normalizers, q)
    ensures |qres| == |part| && 2 * q + 1 < |normalizers| && normalizers[2 * q] != 0.0
    ensures forall i :: 0 <= i < |part| ==>
              && qres[i].0 == part[i].dis as real / normalizers[2 * q] + normalizers[2 * q + 1]
              && qres[i].1 == part[i].b
  {
  }

  lemma ScaleBack(x: real, a: real)
    requires a != 0.0
    ensures x * (1.0 / a) == x / a
  {
  }

  ghost predicate Normalized(normalizers: seq<real>, nq: nat) {
    |normalizers| == 2 * nq && forall i :: 0 <= i < 2 * nq && i % 2 == 0 ==> normalizers[i] != 0.0
  }

  class PartialRangeHandler {
    const q0: nat
    const nq: nat
    const nPerQuery: array<nat>
    const normalizers: seq<real>
    var triplets: seq<Triplet>

    ghost predicate Valid()
      reads this, nPerQuery
    {
      && nPerQuery.Length > nq && Normalized(normalizers, nq)
      && InBlock(triplets, q0, nq)
      && forall q :: 0 <= q < nq ==> nPerQuery[q] == |OfQuery(triplets, q0 + q)|
    }

    constructor (q0: nat, nq: nat, normalizers: seq<real>)
      requires Normalized(normalizers, nq)
      ensures Valid() && triplets == [] && fresh(nPerQuery)
      ensures this.q0 == q0 && this.nq == nq && this.normalizers == normalizers
    {
      this.q0, this.nq, this.normalizers := q0, nq, normalizers;
      nPerQuery := new nat[nq + 1](_ => 0);
      triplets := [];
    }

    /** Collects the lanes of one block that are within the radius of query `q`
        and, with a selector, selected: one triplet for each of them (`js`), lowest lane
        first. */
    method Handle(q: nat, within: seq<bool>, ids: seq<int>, dis: seq<int>, sel: Option<set<int>>)
      returns (ghost js: seq<nat>)
      requires Valid() && q < nq && |within| == |ids| == |dis| == 32
      modifies this`triplets, nPerQuery
      ensures Valid() && |triplets| == |old(triplets)| + |js| && old(triplets) <= triplets
      ensures forall j :: 0 <= j < 32 ==> (j in js <==> within[j] && (sel.Some? ==> ids[j] in sel.value))
      ensures forall i, j :: 0 <= i < j < |js| ==> js[i] < js[j]
      ensures forall i :: 0 <= i < |js| ==>
                js[i] < 32 && triplets[|old(triplets)| + i] == Triplet(q0 + q, ids[js[i]], dis[js[i]])
    {
      js := [];
      for n := 0 to 32
        invariant Valid() && |triplets| == |old(triplets)| + |js| && old(triplets) <= triplets
        invariant forall j :: 0 <= j < n ==> (j in js <==> within[j] && (sel.Some? ==> ids[j] in sel.value))
        invariant forall i, j :: 0 <= i < j < |js| ==> js[i] < js[j]
        invariant forall i :: 0 <= i < |js| ==>
                    js[i] < n && triplets[|old(triplets)| + i] == Triplet(q0 + q, ids[js[i]], dis[js[i]])
      {
        if within[n] && (sel.None? || ids[n] in sel.value) {
          Collect(q, ids[n], dis[n]);
          js := js + [n];
        }
      }
    }

    method Collect(q: nat, b: int, dis: int)
      requires Valid() && q < nq
      modifies this`triplets, nPerQuery
      ensures Valid() && triplets == old(triplets) + [Triplet(q0 + q, b, dis)]
    {
      nPerQuery[q] := nPerQuery[q] + 1;
      triplets := triplets + [Triplet(q0 + q, b, dis)];
      assert triplets[..|triplets| - 1] == old(triplets);
    }

    /** `shift_n_per_query`: moves every count up by one query. */
    method Shift()
      requires nPerQuery.Length > nq
      modifies nPerQuery
      ensures nPerQuery[0] == 0
      ensures forall q :: 1 <= q <= nq ==> nPerQuery[q] == old(nPerQuery[q - 1])
    {
      forall q | 1 <= q <= nq {
        nPerQuery[q] := nPerQuery[q - 1];
      }
      nPerQuery[0] := 0;
    }

    /** Reports, for every query of the block, its triplets in order of arrival, with their
        distances scaled back and their labels. */
    method End() returns (results: seq<seq<(real, int)>>)
      requires Valid()
      modifies nPerQuery
      ensures |results| == nq
      ensures forall q :: 0 <= q < nq ==> |results[q]| == |OfQuery(triplets, q0 + q)|
      ensures forall q, i :: 0 <= q < nq && 0 <= i < |results[q]| ==>
                var part := OfQuery(triplets, q0 + q);
                && results[q][i].0 == part[i].dis as real / normalizers[2 * q] + normalizers[2 * q + 1]
                && results[q][i].1 == part[i].b
    {
      hide OfQuery, InBlock, Part, Reports;
      var sorted := SortTriplets();
      results := [];
      for q := 0 to nq
        invariant |results| == q
        invariant forall p :: 0 <= p < nq ==> Part(sorted[..], nPerQuery[..], triplets, q0, p)
        invariant forall p :: 0 <= p < q ==> Reports(results[p], OfQuery(triplets, q0 + p), normalizers, p)
      {
        PartIs(sorted[..], nPerQuery[..], triplets, q0, q);
        var qres := ReportQuery(q, sorted, OfQuery(triplets, q0 + q));
        results := results + [qres];
      }
      forall q | 0 <= q < nq
        ensures |results[q]| == |OfQuery(triplets, q0 + q)|
        ensures forall i :: 0 <= i < |results[q]| ==>
                  var part := OfQuery(triplets, q0 + q);
                  && results[q][i].0 == part[i].dis as real / normalizers[2 * q] + normalizers[2 * q + 1]
                  && results[q][i].1 == part[i].b
      {
        ReportsIs(results[q], OfQuery(triplets, q0 + q), normalizers, q);
      }
    }

    method ReportQuery(q: nat, sorted: array<Triplet>, ghost part: seq<Triplet>) returns (qres: seq<(real, int)>)
      requires q < nq && nPerQuery.Length > nq && Normalized(normalizers, nq)
      requires nPerQuery[q] <= nPerQuery[q + 1] <= sorted.Length
      requires sorted[nPerQuery[q]..nPerQuery[q + 1]] == part
      ensures Reports(qres, part, normalizers, q)
    {
      var oneA, b := 1.0 / normalizers[2 * q], normalizers[2 * q + 1];
      qres := [];
      for i := nPerQuery[q] to nPerQuery[q + 1]
        invariant |qres| == i - nPerQuery[q]
        invariant forall m :: 0 <= m < |qres| ==>
                    && qres[m].0 == part[m].dis as real / normalizers[2 * q] + normalizers[2 * q + 1]
                    && qres[m].1 == part[m].b
      {
        assert sorted[i] == part[|qres|];
        ScaleBack(sorted[i].dis as real, normalizers[2 * q]);
        qres := qres + [(sorted[i].dis as real * oneA + b, sorted[i].b)];
      }
    }

    /** The counting sort proper. */
    method SortTriplets() returns (sorted: array<Triplet>)
      requires Valid()
      modifies nPerQuery
      ensures fresh(sorted) && sorted.Length == |triplets|
      ensures forall q :: 0 <= q < nq ==> Part(sorted[..], nPerQuery[..], triplets, q0, q)
    {
      hide OfQuery, Start;
      sorted := new Triplet[|triplets|](_ => Triplet(0, 0, 0));
      SumUp();
      forall q | 0 <= q < nq
        ensures PlacedFor(sorted[..], nPerQuery[..], triplets, 0, q0, q)
      {
        NothingPlaced(sorted[..], nPerQuery[..], triplets, q0, nq, q);
      }
      for i := 0 to |triplets|
        invariant Placed(sorted[..], nPerQuery[..], triplets, i, q0, nq)
      {
        PlaceStep(sorted[..], nPerQuery[..], triplets, i, q0, nq);
        ghost var s, n := sorted[..], nPerQuery[..];
        var q := triplets[i].q - q0;
        sorted[nPerQuery[q]] := triplets[i];
        nPerQuery[q] := nPerQuery[q] + 1;
        assert sorted[..] == s[n[q] := triplets[i]];
        assert nPerQuery[..] == n[q := n[q] + 1];
      }
      ghost var n := nPerQuery[..];
      Shift();
      forall q | 0 <= q < nq
        ensures Part(sorted[..], nPerQuery[..], triplets, q0, q)
      {
        PartsComplete(sorted[..], n, triplets, q0, nq, q, nPerQuery[..]);
      }
    }

    /** The running sums, shifted: every query gets the offset it starts at. */
    method SumUp()
      requires Valid()
      modifies nPerQuery
      ensures forall q :: 0 <= q < nq ==> nPerQuery[q] == Start(triplets, q0, q)
    {
      hide OfQuery;
      for q := 0 to nq
        invariant forall p :: 0 <= p < q ==> nPerQuery[p] == Start(triplets, q0, p + 1)
        invariant q < nq ==> nPerQuery[q] == Start(triplets, q0, q + 1)
        invariant forall p :: q < p < nq ==> nPerQuery[p] == |OfQuery(triplets, q0 + p)|
      {
        nPerQuery[q + 1] := nPerQuery[q + 1] + nPerQuery[q];
      }
      Shift();
    }
  }

  lemma NothingPlaced(sorted: seq<Triplet>, n: seq<nat>, ts: seq<Triplet>, q0: nat, nq: nat, q: nat)
    requires InBlock(ts, q0, nq) && |sorted| == |ts| && q < nq < |n| && n[q] == Start(ts, q0, q)
    ensures PlacedFor(sorted, n, ts, 0, q0, q)
  {
    StartGrows(ts, q0, q, nq);
    StartIsAll(ts, q0, nq);
  }
}
