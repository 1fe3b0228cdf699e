/** The counting top-k of `utils/hamming-inl.h`: one list of labels per possible
    Hamming distance, and a threshold above which nothing is kept. */
module HammingCounter {
  import opened Bits

  datatype Hit = Hit(dis: nat, id: int)

  /** The labels seen at distance `b`, in order of arrival. */
  ghost function IdsAt(seen: seq<Hit>, b: nat): seq<int> {
    if seen == [] then []
    else
      var last := seen[|seen| - 1];
      IdsAt(seen[..|seen| - 1], b) + if last.dis == b then [last.id] else []
  }

  /** All labels seen at distances below `n`, nearest first, in order of arrival
      at each distance. */
  ghost function Nearest(seen: seq<Hit>, n: nat): seq<int> {
    if n == 0 then [] else Nearest(seen, n - 1) + IdsAt(seen, n - 1)
  }

  ghost function SumTo(counters: seq<int>, n: nat): int
    requires n <= |counters|
  {
    if n == 0 then 0 else SumTo(counters, n - 1) + counters[n - 1]
  }

  lemma {:induction false} SumUpdate(counters: seq<int>, n: nat, b: nat, v: int)
    requires n <= |counters| && b < |counters|
    ensures SumTo(counters[b := v], n) == SumTo(counters, n) + if b < n then v - counters[b] else 0
  {
    if n > 0 {
      SumUpdate(counters, n - 1, b, v);
    }
  }

  lemma {:induction false} SumNonneg(counters: seq<int>, n: nat)
    requires n <= |counters| && forall b :: 0 <= b < n ==> counters[b] >= 0
    ensures SumTo(counters, n) >= 0
    ensures forall b :: 0 <= b < n ==> counters[b] <= SumTo(counters, n)
  {
    if n > 0 {
      SumNonneg(counters, n - 1);
    }
  }

  lemma AppendHit(seen: seq<Hit>, hit: Hit, b: nat)
    ensures IdsAt(seen + [hit], b) == IdsAt(seen, b) + if hit.dis == b then [hit.id] else []
  {
    assert (seen + [hit])[..|seen|] == seen;
  }

  /** Where the list of distance `b` starts. */
  function Slot(b: nat, k: nat): nat {
    b * k
  }

  lemma SlotsApart(b: nat, c: nat, k: nat)
    requires b < c
    ensures Slot(b, k) + k <= Slot(c, k)
  {
    Distribute(b, c - b, k);
    MulMono(1, c - b, k);
  }

  /** The list of distance `b` holds the first `n` labels seen there. */
  ghost predicate Listed(counters: seq<int>, ids: seq<int>, k: nat, seen: seq<Hit>, b: nat, n: int) {
    && b < |counters| && counters[b] == n && 0 <= n <= k && n <= |IdsAt(seen, b)|
    && Slot(b, k) + n <= |ids|
    && ids[Slot(b, k)..Slot(b, k) + n] == IdsAt(seen, b)[..n]
  }

  /** A label that is stored in another list, or nowhere, leaves a list alone. */
  lemma ListedKept(counters: seq<int>, ids: seq<int>, k: nat, seen: seq<Hit>, b: nat, n: int,
                   hit: Hit, counters': seq<int>, ids': seq<int>, at: nat)
    requires Listed(counters, ids, k, seen, b, n)
    requires |counters'| == |counters| && counters'[b] == counters[b]
    requires ids' == ids
      || (hit.dis != b && Slot(hit.dis, k) <= at < Slot(hit.dis, k) + k && at < |ids| && ids' == ids[at := hit.id])
    ensures Listed(counters', ids', k, seen + [hit], b, n)
    ensures hit.dis != b ==> IdsAt(seen + [hit], b) == IdsAt(seen, b)
  {
    hide Slot;
    AppendHit(seen, hit, b);
    if hit.dis < b { SlotsApart(hit.dis, b, k); }
    if b < hit.dis { SlotsApart(b, hit.dis, k); }
  }

  /** A label stored at the end of its list. */
  lemma ListedGrows(counters: seq<int>, ids: seq<int>, k: nat, seen: seq<Hit>, n: int, hit: Hit)
    requires Listed(counters, ids, k, seen, hit.dis, n) && n == |IdsAt(seen, hit.dis)| < k
    requires Slot(hit.dis, k) + n < |ids|
    ensures Listed(counters[hit.dis := n + 1], ids[Slot(hit.dis, k) + n := hit.id], k, seen + [hit], hit.dis, n + 1)
    ensures |IdsAt(seen + [hit], hit.dis)| == n + 1
  {
    hide Slot;
    AppendHit(seen, hit, hit.dis);
    var s := Slot(hit.dis, k);
    assert ids[s + n := hit.id][s..s + n + 1] == ids[s..s + n] + [hit.id];
  }

  /** The state between an arrival and the end of the update: everything `Valid`
      says, except that there may be `k` labels below the threshold. */
  ghost predicate Consistent(counters: seq<int>, ids: seq<int>, d: nat, k: nat, seen: seq<Hit>,
                             thres: nat, countLt: int, countEq: int) {
    && k >= 1 && |counters| == d + 1 && |ids| == Slot(d + 1, k) && thres <= d + 1
    && (forall h :: h in seen ==> h.dis <= d)
    // below the threshold every label is listed
    && (forall b :: 0 <= b < thres ==> Listed(counters, ids, k, seen, b, |IdsAt(seen, b)|))
    && countLt == SumTo(counters, thres) <= k
    // at the threshold as many as there is room for, and that makes k or more
    && (thres <= d ==>
          && countEq == (if |IdsAt(seen, thres)| < k then |IdsAt(seen, thres)| else k)
          && Listed(counters, ids, k, seen, thres, countEq)
          && countLt + countEq >= k)
  }

  lemma StoredBelow(counters: seq<int>, ids: seq<int>, d: nat, k: nat, seen: seq<Hit>,
                    thres: nat, countLt: int, countEq: int, hit: Hit)
    requires Consistent(counters, ids, d, k, seen, thres, countLt, countEq) && countLt < k && hit.dis < thres
    ensures 0 <= counters[hit.dis] < k && Slot(hit.dis, k) + counters[hit.dis] < |ids|
    ensures Consistent(counters[hit.dis := counters[hit.dis] + 1],
                       ids[Slot(hit.dis, k) + counters[hit.dis] := hit.id],
                       d, k, seen + [hit], thres, countLt + 1, countEq)
  {
    hide Slot, Listed;
    var n := |IdsAt(seen, hit.dis)|;
    BelowIsListed(counters, ids, d, k, seen, thres, countLt, countEq, hit.dis);
    SlotsApart(hit.dis, d + 1, k);
    var at := Slot(hit.dis, k) + n;
    var counters', ids' := counters[hit.dis := n + 1], ids[at := hit.id];
    ListedGrows(counters, ids, k, seen, n, hit);
    SumUpdate(counters, thres, hit.dis, n + 1);
    forall b | 0 <= b < thres
      ensures Listed(counters', ids', k, seen + [hit], b, |IdsAt(seen + [hit], b)|)
    {
      if b != hit.dis {
        ListedKept(counters, ids, k, seen, b, |IdsAt(seen, b)|, hit, counters', ids', at);
      }
    }
    if thres <= d {
      ListedKept(counters, ids, k, seen, thres, countEq, hit, counters', ids', at);
    }
  }

  /** A list below the threshold is not longer than all of them together. */
  lemma BelowIsListed(counters: seq<int>, ids: seq<int>, d: nat, k: nat, seen: seq<Hit>,
                      thres: nat, countLt: int, countEq: int, b: nat)
    requires Consistent(counters, ids, d, k, seen, thres, countLt, countEq) && b < thres
    ensures counters[b] == |IdsAt(seen, b)| && counters[b] <= countLt
  {
    forall c | 0 <= c < thres
      ensures counters[c] == |IdsAt(seen, c)|
    {
      assert Listed(counters, ids, k, seen, c, |IdsAt(seen, c)|);
    }
    SumNonneg(counters, thres);
  }

  class HCounterState {
    const counters: array<int>
    const idsPerDis: array<int>
    const d: nat
    const k: nat
    var thres: nat
    var countLt: int
    var countEq: int
    ghost var seen: seq<Hit>

    ghost predicate Valid()
      reads this, counters, idsPerDis
    {
      && counters != idsPerDis && counters.Length == d + 1 && thres <= d + 1 && countLt < k
      && Consistent(counters[..], idsPerDis[..], d, k, seen, thres, countLt, countEq)
    }

    constructor (counters: array<int>, idsPerDis: array<int>, d: nat, k: nat)
      requires k >= 1 && counters != idsPerDis
      requires counters.Length == d + 1 && idsPerDis.Length == (d + 1) * k
      requires forall b :: 0 <= b <= d ==> counters[b] == 0
      ensures this.counters == counters && this.idsPerDis == idsPerDis && this.d == d && this.k == k
      ensures Valid() && seen == []
    {
      this.counters, this.idsPerDis, this.d, this.k := counters, idsPerDis, d, k;
      thres, countLt, countEq := d + 1, 0, 0;
      seen := [];
      new;
      SumZero(counters[..], d + 1);
      forall b | 0 <= b < thres
        ensures Listed(counters[..], idsPerDis[..], k, [], b, 0)
      {
        SlotsApart(b, d + 1, k);
      }
    }

    /** Takes in label `j` at distance `dis`. */
    method UpdateCounter(dis: nat, j: int)
      requires Valid() && dis <= d
      modifies this`thres, this`countLt, this`countEq, this`seen, counters, idsPerDis
      ensures Valid() && seen == old(seen) + [Hit(dis, j)]
    {
      hide Slot, Consistent;
      ghost var hit := Hit(dis, j);
      ghost var cs, xs := counters[..], idsPerDis[..];
      if dis <= thres {
        if dis < thres {
          StoredBelow(cs, xs, d, k, seen, thres, countLt, countEq, hit);
          idsPerDis[Slot(dis, k) + counters[dis]] := j;
          counters[dis] := counters[dis] + 1;
          countLt := countLt + 1;
          seen := seen + [hit];
          assert counters[..] == cs[dis := cs[dis] + 1];
          assert idsPerDis[..] == xs[Slot(dis, k) + cs[dis] := j];
          while countLt == k && thres > 0
            invariant thres <= d + 1 && seen == old(seen) + [hit]
            invariant Consistent(counters[..], idsPerDis[..], d, k, seen, thres, countLt, countEq)
          {
            LowerStep(counters[..], idsPerDis[..], d, k, seen, thres, countLt, countEq);
            thres := thres - 1;
            countEq := counters[thres];
            countLt := countLt - countEq;
          }
          EndOfLowering(counters[..], idsPerDis[..], d, k, seen, thres, countLt, countEq);
        } else if countEq < k {
          StoredAt(cs, xs, d, k, seen, thres, countLt, countEq, hit);
          idsPerDis[Slot(dis, k) + countEq] := j;
          countEq := countEq + 1;
          counters[dis] := countEq;
          seen := seen + [hit];
          assert counters[..] == cs[dis := countEq];
          assert idsPerDis[..] == xs[Slot(dis, k) + countEq - 1 := j];
        } else {
          NotStored(cs, xs, d, k, seen, thres, countLt, countEq, hit);
          seen := seen + [hit];
        }
      } else {
        NotStored(cs, xs, d, k, seen, thres, countLt, countEq, hit);
        seen := seen + [hit];
      }
    }
  }

  /** A label at the threshold, while there is room. */
  lemma StoredAt(counters: seq<int>, ids: seq<int>, d: nat, k: nat, seen: seq<Hit>,
                 thres: nat, countLt: int, countEq: int, hit: Hit)
    requires Consistent(counters, ids, d, k, seen, thres, countLt, countEq)
    requires hit.dis == thres <= d && countEq < k
    ensures 0 <= countEq && Slot(thres, k) + countEq < |ids|
    ensures Consistent(counters[thres := countEq + 1], ids[Slot(thres, k) + countEq := hit.id],
                       d, k, seen + [hit], thres, countLt, countEq + 1)
  {
    hide Slot, Listed;
    ListedIsListAt(counters, ids, k, seen, thres, countEq);
    SlotsApart(thres, d + 1, k);
    var counters' := counters[thres := countEq + 1];
    var at := Slot(thres, k) + countEq;
    ListedGrows(counters, ids, k, seen, countEq, hit);
    SumUpdate(counters, thres, thres, countEq + 1);
    forall b | 0 <= b < thres
      ensures Listed(counters', ids[at := hit.id], k, seen + [hit], b, |IdsAt(seen + [hit], b)|)
    {
      ListedKept(counters, ids, k, seen, b, |IdsAt(seen, b)|, hit, counters', ids[at := hit.id], at);
    }
  }

  /** A label beyond the threshold, or at it without room, is not kept. */
  lemma NotStored(counters: seq<int>, ids: seq<int>, d: nat, k: nat, seen: seq<Hit>,
                  thres: nat, countLt: int, countEq: int, hit: Hit)
    requires Consistent(counters, ids, d, k, seen, thres, countLt, countEq)
    requires hit.dis <= d && (hit.dis > thres || (hit.dis == thres && countEq >= k))
    ensures Consistent(counters, ids, d, k, seen + [hit], thres, countLt, countEq)
  {
    hide Slot, Listed;
    AppendHit(seen, hit, thres);
    forall b | 0 <= b < thres
      ensures Listed(counters, ids, k, seen + [hit], b, |IdsAt(seen + [hit], b)|)
    {
      ListedKept(counters, ids, k, seen, b, |IdsAt(seen, b)|, hit, counters, ids, 0);
    }
    ListedKept(counters, ids, k, seen, thres, countEq, hit, counters, ids, 0);
  }

  /** One round of the loop that lowers the threshold. */
  lemma LowerStep(counters: seq<int>, ids: seq<int>, d: nat, k: nat, seen: seq<Hit>,
                  thres: nat, countLt: int, countEq: int)
    requires Consistent(counters, ids, d, k, seen, thres, countLt, countEq)
    requires countLt == k && thres > 0
    ensures Consistent(counters, ids, d, k, seen, thres - 1, countLt - counters[thres - 1], counters[thres - 1])
  {
    forall b | 0 <= b < thres - 1
      ensures counters[b] >= 0
    {
      assert Listed(counters, ids, k, seen, b, |IdsAt(seen, b)|);
    }
    assert Listed(counters, ids, k, seen, thres - 1, |IdsAt(seen, thres - 1)|);
    SumNonneg(counters, thres - 1);
  }

  lemma EndOfLowering(counters: seq<int>, ids: seq<int>, d: nat, k: nat, seen: seq<Hit>,
                      thres: nat, countLt: int, countEq: int)
    requires Consistent(counters, ids, d, k, seen, thres, countLt, countEq)
    requires countLt != k || thres == 0
    ensures countLt < k
  {
  }

  lemma {:induction false} SumZero(counters: seq<int>, n: nat)
    requires n <= |counters| && forall b :: 0 <= b < n ==> counters[b] == 0
    ensures SumTo(counters, n) == 0
  {
    if n > 0 {
      SumZero(counters, n - 1);
    }
  }

  // ----- what is kept -----

  ghost function ListAt(counters: seq<int>, ids: seq<int>, k: nat, b: nat): seq<int> {
    if b < |counters| && 0 <= counters[b] && Slot(b, k) + counters[b] <= |ids|
    then ids[Slot(b, k)..Slot(b, k) + counters[b]] else []
  }

  lemma ListedIsListAt(counters: seq<int>, ids: seq<int>, k: nat, seen: seq<Hit>, b: nat, n: int)
    requires Listed(counters, ids, k, seen, b, n)
    ensures 0 <= n <= |IdsAt(seen, b)| && counters[b] == n && ListAt(counters, ids, k, b) == IdsAt(seen, b)[..n]
  {
    hide Slot, IdsAt;
  }

  /** The lists of all distances below `n`, one after the other. */
  ghost function Kept(counters: seq<int>, ids: seq<int>, k: nat, n: nat): seq<int> {
    if n == 0 then [] else Kept(counters, ids, k, n - 1) + ListAt(counters, ids, k, n - 1)
  }

  lemma {:induction false} KeptBelow(counters: seq<int>, ids: seq<int>, d: nat, k: nat, seen: seq<Hit>,
                                     thres: nat, countLt: int, countEq: int, n: nat)
    requires Consistent(counters, ids, d, k, seen, thres, countLt, countEq) && n <= thres
    ensures Kept(counters, ids, k, n) == Nearest(seen, n)
    ensures |Nearest(seen, n)| == SumTo(counters, n)
  {
    hide Slot, IdsAt, Listed, ListAt;
    if n > 0 {
      KeptBelow(counters, ids, d, k, seen, thres, countLt, countEq, n - 1);
      ListedIsListAt(counters, ids, k, seen, n - 1, |IdsAt(seen, n - 1)|);
    }
  }

  lemma {:induction false} NearestGrows(seen: seq<Hit>, n: nat, m: nat)
    requires n <= m
    ensures Nearest(seen, n) <= Nearest(seen, m)
  {
    if n < m {
      NearestGrows(seen, n, m - 1);
    }
  }

  lemma {:induction false} NearestNone(n: nat)
    ensures Nearest([], n) == []
  {
    if n > 0 {
      NearestNone(n - 1);
    }
  }

  lemma {:induction false} NearestOneMore(seen: seq<Hit>, hit: Hit, n: nat)
    ensures |Nearest(seen + [hit], n)| == |Nearest(seen, n)| + if hit.dis < n then 1 else 0
  {
    if n > 0 {
      NearestOneMore(seen, hit, n - 1);
      AppendHit(seen, hit, n - 1);
    }
  }

  lemma {:induction false} NearestIsAll(seen: seq<Hit>, d: nat)
    requires forall h :: h in seen ==> h.dis <= d
    ensures |Nearest(seen, d + 1)| == |seen|
  {
    hide Nearest, IdsAt;
    if seen == [] {
      NearestNone(d + 1);
    } else {
      var rest, last := seen[..|seen| - 1], seen[|seen| - 1];
      NearestIsAll(rest, d);
      NearestOneMore(rest, last, d + 1);
      assert seen == rest + [last];
    }
  }

  /** The lists up to the threshold start with the `k` nearest labels of all that
      were seen, in order of distance and then of arrival. */
  lemma ExactTopK(counters: seq<int>, ids: seq<int>, d: nat, k: nat, seen: seq<Hit>,
                  thres: nat, countLt: int, countEq: int)
    requires Consistent(counters, ids, d, k, seen, thres, countLt, countEq) && countLt < k
    ensures var m := if |seen| < k then |seen| else k;
            var kept := Kept(counters, ids, k, if thres <= d then thres + 1 else d + 1);
            |Nearest(seen, d + 1)| == |seen| && m <= |kept| && kept[..m] == Nearest(seen, d + 1)[..m]
  {
    hide Slot, IdsAt, Listed, ListAt, SumTo, Consistent, Kept, Nearest;
    AtThreshold(counters, ids, d, k, seen, thres, countLt, countEq);
    NearestIsAll(seen, d);
    KeptBelow(counters, ids, d, k, seen, thres, countLt, countEq, thres);
    NearestGrows(seen, thres, d + 1);
    if thres <= d {
      NearestGrows(seen, thres + 1, d + 1);
      ListedIsListAt(counters, ids, k, seen, thres, countEq);
      OneMoreList(counters, ids, k, seen, thres);
      SameFront(Nearest(seen, thres), IdsAt(seen, thres), countEq, k);
    }
  }

  lemma AtThreshold(counters: seq<int>, ids: seq<int>, d: nat, k: nat, seen: seq<Hit>,
                    thres: nat, countLt: int, countEq: int)
    requires Consistent(counters, ids, d, k, seen, thres, countLt, countEq)
    ensures |counters| == d + 1 && thres <= d + 1 && countLt == SumTo(counters, thres)
    ensures forall h :: h in seen ==> h.dis <= d
    ensures thres <= d ==>
              && countEq == (if |IdsAt(seen, thres)| < k then |IdsAt(seen, thres)| else k)
              && Listed(counters, ids, k, seen, thres, countEq) && countLt + countEq >= k
  {
  }

  lemma OneMoreList(counters: seq<int>, ids: seq<int>, k: nat, seen: seq<Hit>, n: nat)
    ensures Kept(counters, ids, k, n + 1) == Kept(counters, ids, k, n) + ListAt(counters, ids, k, n)
    ensures Nearest(seen, n + 1) == Nearest(seen, n) + IdsAt(seen, n)
  {
  }

  lemma SameFront(below: seq<int>, at: seq<int>, n: nat, k: nat)
    requires n == (if |at| < k then |at| else k) && |below| + n >= k
    ensures (below + at[..n])[..k] == (below + at)[..k]
  {
  }

  // ----- the same, read off the arrays -----

  /** The labels listed at a distance are those that were seen there: `js` are their places,
      each once and in order. */
  lemma {:induction false} IdsAtOrder(seen: seq<Hit>, b: nat) returns (js: seq<nat>)
    ensures |js| == |IdsAt(seen, b)|
    ensures forall i :: 0 <= i < |js| ==> js[i] < |seen| && IdsAt(seen, b)[i] == seen[js[i]].id
    ensures forall i, j :: 0 <= i < j < |js| ==> js[i] < js[j]
    ensures forall n :: 0 <= n < |seen| ==> (seen[n].dis == b <==> n in js)
  {
    js := [];
    if seen != [] {
      var m := |seen| - 1;
      js := IdsAtOrder(seen[..m], b);
      assert forall i :: 0 <= i < |js| ==> js[i] < m && seen[..m][js[i]] == seen[js[i]];
      if seen[m].dis == b {
        js := js + [m];
      }
    }
  }

  lemma {:induction false} IdsAtCount(seen: seq<Hit>, hit: Hit)
    ensures multiset(seen)[hit] == multiset(IdsAt(seen, hit.dis))[hit.id]
  {
    if seen != [] {
      var rest, last := seen[..|seen| - 1], seen[|seen| - 1];
      IdsAtCount(rest, hit);
      assert seen == rest + [last];
    }
  }

  lemma {:induction false} IdsAtConcat(a: seq<Hit>, b: seq<Hit>, dis: nat)
    ensures IdsAt(a + b, dis) == IdsAt(a, dis) + IdsAt(b, dis)
    decreases |b|
  {
    if b == [] {
      assert a + b == a;
    } else {
      IdsAtConcat(a, b[..|b| - 1], dis);
      assert (a + b)[..|a + b| - 1] == a + b[..|b| - 1];
    }
  }

  /** The `i`-th hit is the label with as many before it as there are earlier hits at its
      distance. */
  lemma PlaceOf(seen: seq<Hit>, i: nat)
    requires i < |seen|
    ensures var b := seen[i].dis;
            |IdsAt(seen[..i], b)| < |IdsAt(seen, b)| && IdsAt(seen, b)[|IdsAt(seen[..i], b)|] == seen[i].id
  {
    hide IdsAt;
    var b := seen[i].dis;
    AppendHit(seen[..i], seen[i], b);
    IdsAtConcat(seen[..i] + [seen[i]], seen[i + 1..], b);
    assert seen == seen[..i] + [seen[i]] + seen[i + 1..];
  }

  ghost function Labelled(ids: seq<int>, b: nat): (hs: seq<Hit>)
    ensures |hs| == |ids| && forall i :: 0 <= i < |ids| ==> hs[i] == Hit(b, ids[i])
  {
    seq(|ids|, i requires 0 <= i < |ids| => Hit(b, ids[i]))
  }

  lemma {:induction false} LabelledAt(ids: seq<int>, b: nat, dis: nat)
    ensures IdsAt(Labelled(ids, b), dis) == if dis == b then ids else []
    decreases |ids|
  {
    if ids != [] {
      var front := ids[..|ids| - 1];
      LabelledAt(front, b, dis);
      assert Labelled(ids, b)[..|ids| - 1] == Labelled(front, b);
    }
  }

  lemma {:induction false} NoneAt(seen: seq<Hit>, b: nat)
    requires forall h :: h in seen ==> h.dis != b
    ensures IdsAt(seen, b) == []
  {
    if seen != [] {
      NoneAt(seen[..|seen| - 1], b);
    }
  }

  /** All hits at distances below `n`, by distance and then by arrival. */
  ghost function Ranked(seen: seq<Hit>, n: nat): seq<Hit> {
    if n == 0 then [] else Ranked(seen, n - 1) + Labelled(IdsAt(seen, n - 1), n - 1)
  }

  lemma {:induction false} RankedIs(seen: seq<Hit>, n: nat)
    ensures |Ranked(seen, n)| == |Nearest(seen, n)|
    ensures forall h :: h in Ranked(seen, n) ==> h.dis < n
    ensures forall i, j :: 0 <= i < j < |Ranked(seen, n)| ==> Ranked(seen, n)[i].dis <= Ranked(seen, n)[j].dis
  {
    hide IdsAt;
    if n > 0 {
      RankedIs(seen, n - 1);
    }
  }

  lemma {:induction false} RankedAt(seen: seq<Hit>, n: nat, b: nat)
    ensures IdsAt(Ranked(seen, n), b) == if b < n then IdsAt(seen, b) else []
  {
    hide IdsAt;
    NoneAt([], b);
    if n > 0 {
      RankedAt(seen, n - 1, b);
      LabelledAt(IdsAt(seen, n - 1), n - 1, b);
      IdsAtConcat(Ranked(seen, n - 1), Labelled(IdsAt(seen, n - 1), n - 1), b);
    }
  }

  lemma {:induction false} RankedGrows(seen: seq<Hit>, n: nat, m: nat)
    requires n <= m
    ensures Ranked(seen, n) <= Ranked(seen, m)
  {
    if n < m {
      RankedGrows(seen, n, m - 1);
    }
  }

  lemma RankedIsAll(seen: seq<Hit>, d: nat)
    requires forall h :: h in seen ==> h.dis <= d
    ensures multiset(Ranked(seen, d + 1)) == multiset(seen)
  {
    hide IdsAt, Ranked;
    forall h: Hit
      ensures multiset(Ranked(seen, d + 1))[h] == multiset(seen)[h]
    {
      IdsAtCount(seen, h);
      IdsAtCount(Ranked(seen, d + 1), h);
      RankedAt(seen, d + 1, h.dis);
      RankedIs(seen, d + 1);
      assert h.dis > d ==> h !in seen && h !in Ranked(seen, d + 1);
    }
  }

  /** What the arrays of a counter hold: below the threshold all labels seen at a distance,
      at it the first `k`, from slot `b * k` on. */
  lemma ListsInArrays(state: HCounterState, b: nat)
    requires state.Valid() && b <= state.thres && b <= state.d
    ensures var all := IdsAt(state.seen, b);
            && state.counters[b] == (if b == state.thres && |all| > state.k then state.k else |all|)
            && forall i :: 0 <= i < state.counters[b] ==>
                 b * state.k + i < state.idsPerDis.Length && state.idsPerDis[b * state.k + i] == all[i]
  {
    hide IdsAt;
    var ids, k, n := state.idsPerDis[..], state.k, state.counters[b];
    if b < state.thres {
      assert Listed(state.counters[..], ids, k, state.seen, b, |IdsAt(state.seen, b)|);
    } else {
      assert Listed(state.counters[..], ids, k, state.seen, b, state.countEq);
    }
    forall i | 0 <= i < n
      ensures b * k + i < |ids| && ids[b * k + i] == IdsAt(state.seen, b)[i]
    {
      assert ids[b * k..b * k + n][i] == ids[b * k + i];
    }
  }

  /** Hit `i` stands in the list of its distance, behind the earlier ones there. */
  ghost predicate Stands(hs: seq<Hit>, i: nat, counters: seq<int>, ids: seq<int>, k: nat)
    requires i < |hs|
  {
    var b, n := hs[i].dis, |IdsAt(hs[..i], hs[i].dis)|;
    b < |counters| && n < counters[b] && b * k + n < |ids| && ids[b * k + n] == hs[i].id
  }

  /** Walking the lists by distance gives the `k` nearest labels of all that were seen: `hs`
      are all hits by distance and, at one distance, in order of arrival, and each of the
      first `k` stands in the list of its distance, behind those before it. */
  lemma TopKInArrays(state: HCounterState) returns (hs: seq<Hit>)
    requires state.Valid()
    ensures multiset(hs) == multiset(state.seen)
    ensures forall i, j :: 0 <= i < j < |hs| ==> hs[i].dis <= hs[j].dis
    ensures forall b :: IdsAt(hs, b) == IdsAt(state.seen, b)
    ensures forall i :: 0 <= i < |hs| && i < state.k ==>
              Stands(hs, i, state.counters[..], state.idsPerDis[..], state.k)
  {
    hide IdsAt, Ranked, Nearest;
    var seen, d, k, thres := state.seen, state.d, state.k, state.thres;
    hs := Ranked(seen, d + 1);
    RankedIs(seen, d + 1);
    RankedIsAll(seen, d);
    forall b: nat
      ensures IdsAt(hs, b) == IdsAt(seen, b)
    {
      RankedAt(seen, d + 1, b);
      if b > d {
        NoneAt(seen, b);
      }
    }
    EnoughRanked(state);
    forall i | 0 <= i < |hs| && i < k
      ensures Stands(hs, i, state.counters[..], state.idsPerDis[..], k)
    {
      PlaceOf(hs, i);
      ListsInArrays(state, hs[i].dis);
      NotMoreThan(hs[..i], hs[i].dis);
    }
  }

  lemma NotMoreThan(seen: seq<Hit>, b: nat)
    ensures |IdsAt(seen, b)| <= |seen|
  {
    if seen != [] {
      NotMoreThan(seen[..|seen| - 1], b);
    }
  }

  /** The first `k` of all hits are within the threshold. */
  lemma EnoughRanked(state: HCounterState)
    requires state.Valid()
    ensures var hs := Ranked(state.seen, state.d + 1);
            forall i :: 0 <= i < |hs| && i < state.k ==> hs[i].dis <= state.thres
  {
    hide IdsAt, Listed, Slot, Ranked, Nearest, Consistent, SumTo;
    var seen, d, k, thres := state.seen, state.d, state.k, state.thres;
    var counters, ids := state.counters[..], state.idsPerDis[..];
    RankedIs(seen, d + 1);
    if thres <= d {
      RankedIs(seen, thres + 1);
      RankedGrows(seen, thres + 1, d + 1);
      KeptBelow(counters, ids, d, k, seen, thres, state.countLt, state.countEq, thres);
      AtThreshold(counters, ids, d, k, seen, thres, state.countLt, state.countEq);
      OneMoreList(counters, ids, k, seen, thres);
      assert |Ranked(seen, thres + 1)| >= k;
    }
  }
}
