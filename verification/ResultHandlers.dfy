/** The three single-query result handlers of `impl/ResultHandler.h` and the
    dispatcher that picks one by `k`. */
module ResultHandlers {
  import opened Wrappers
  import opened OrderedKeyValue
  import opened KBest
  import opened HeapOrder
  import opened Heap
  import opened ResultCollection

  // ----- single best -----

  class Top1Handler {
    const c: C
    const disTab: array<int>
    const idsTab: array<int>
    var currentIdx: nat
    var threshold: int
    var minIdx: int
    ghost var added: seq<Pair>

    ghost predicate Valid()
      reads this
    {
      Fits(disTab, idsTab, currentIdx, 1) &&
      Tracks(c, [Pair(threshold, minIdx)], Repeat(c.Pad(), 1) + added)
    }

    constructor (c: C, disTab: array<int>, idsTab: array<int>)
      ensures this.c == c && this.disTab == disTab && this.idsTab == idsTab
    {
      this.c, this.disTab, this.idsTab := c, disTab, idsTab;
    }

    method Begin(i: nat)
      requires Fits(disTab, idsTab, i, 1)
      modifies this
      ensures Valid() && added == [] && currentIdx == i
    {
      currentIdx := i;
      threshold := c.Neutral();
      minIdx := -1;
      added := [];
      assert Repeat(c.Pad(), 1) + added == [c.Pad()];
      TracksItself(c, [c.Pad()]);
    }

    /** Returns whether the threshold was updated. */
    method AddResult(dis: int, idx: int) returns (updated: bool)
      requires Valid()
      modifies this
      ensures Valid() && added == old(added) + [Pair(dis, idx)] && currentIdx == old(currentIdx)
      ensures updated <==> if c.CMin? then dis > old(threshold) else dis < old(threshold)
      ensures (threshold, minIdx) == if updated then (dis, idx) else old((threshold, minIdx))
    {
      hide Tracks;
      ghost var table := [Pair(threshold, minIdx)];
      ghost var seen := Repeat(c.Pad(), 1) + added;
      ghost var p := Pair(dis, idx);
      assert Repeat(c.Pad(), 1) + (added + [p]) == seen + [p];
      added := added + [p];
      if c.Cmp(threshold, dis) {
        TracksReplace(c, table, seen, p, [p]);
        threshold := dis;
        minIdx := idx;
        return true;
      }
      TracksIgnore(c, table, seen, p);
      return false;
    }

    method End()
      requires Valid()
      modifies disTab, idsTab
      ensures IsAnswer(c, 1, added, Slice(disTab, idsTab, currentIdx, 1))
      ensures OnlySlots(disTab, idsTab, currentIdx, 1)
    {
      disTab[currentIdx] := threshold;
      idsTab[currentIdx] := minIdx;
      assert Slice(disTab, idsTab, currentIdx, 1) == [Pair(threshold, minIdx)];
      SortedTableIsAnswer(c, 1, added, [Pair(threshold, minIdx)]);
    }
  }

  // ----- heap -----

  class HeapHandler {
    const c: C
    const disTab: array<int>
    const idsTab: array<int>
    const k: nat
    var lo: nat  // where the slots of the current query start
    var threshold: int
    ghost var added: seq<Pair>

    ghost predicate Valid()
      reads this, disTab, idsTab
    {
      && k >= 1 && Fits(disTab, idsTab, lo, k)
      && IsHeap(c, Slice(disTab, idsTab, lo, k))
      && Tracks(c, Slice(disTab, idsTab, lo, k), Repeat(c.Pad(), k) + added)
      && threshold == disTab[lo]
    }

    constructor (c: C, k: nat, disTab: array<int>, idsTab: array<int>)
      ensures this.c == c && this.k == k && this.disTab == disTab && this.idsTab == idsTab
    {
      this.c, this.k, this.disTab, this.idsTab := c, k, disTab, idsTab;
    }

    method Begin(i: nat)
      requires k >= 1 && Fits(disTab, idsTab, i * k, k)
      modifies this, disTab, idsTab
      ensures Valid() && added == [] && lo == i * k
      ensures OnlySlots(disTab, idsTab, i * k, k)
    {
      lo := i * k;
      HeapHeapify(c, k, disTab, idsTab, lo, [], None, 0);
      threshold := disTab[lo];
      added := [];
      ghost var table := Slice(disTab, idsTab, lo, k);
      assert table == table[0..] == Repeat(c.Pad(), k) + added;
      TracksItself(c, table);
    }

    /** Returns whether the threshold was set anew. */
    method AddResult(dis: int, idx: int) returns (updated: bool)
      requires Valid()
      modifies this, disTab, idsTab
      ensures Valid() && added == old(added) + [Pair(dis, idx)] && lo == old(lo)
      ensures !updated ==> threshold == old(threshold)
      ensures OnlySlots(disTab, idsTab, lo, k)
    {
      hide Tracks, IsHeap;
      ghost var p := Pair(dis, idx);
      assert Repeat(c.Pad(), k) + (added + [p]) == Repeat(c.Pad(), k) + added + [p];
      ghost var seen := Repeat(c.Pad(), k) + added;
      added := added + [p];
      updated := HeapOffer(c, k, disTab, idsTab, lo, dis, idx, seen);
      if updated {
        threshold := disTab[lo];
      } else {
        assert Slice(disTab, idsTab, lo, k)[0].val == disTab[lo];
      }
    }

    method End()
      requires Valid()
      modifies disTab, idsTab
      ensures AllLive(added) ==> IsAnswer(c, k, added, Slice(disTab, idsTab, lo, k))
      ensures OnlySlots(disTab, idsTab, lo, k)
    {
      ghost var s := Slice(disTab, idsTab, lo, k);
      var nel := HeapReorder(c, k, disTab, idsTab, lo);
      if AllLive(added) {
        ReorderedIsAnswer(c, k, added, s, Slice(disTab, idsTab, lo, k), nel);
      }
    }
  }

  // ----- reservoir -----

  /** The documented contract of `partition_fuzzy`, which is only declared in the
      repository: some `q` of the `n` entries stay, in slots `0 .. q` and in any
      order, and none of them is worse than the threshold; none of the others
      beats it.  Callers see this contract only; the body is one way to meet
      it. */
  method PartitionFuzzy(c: C, vals: array<int>, ids: array<int>, n: nat, qMin: nat, qMax: nat)
    returns (threshold: int, q: nat, ghost gone: seq<Pair>)
    requires Fits(vals, ids, 0, n) && 1 <= qMin <= qMax < n
    modifies vals, ids
    ensures qMin <= q <= qMax
    ensures multiset(Slice(vals, ids, 0, q) + gone) == multiset(old(Slice(vals, ids, 0, n)))
    ensures forall p :: p in Slice(vals, ids, 0, q) ==> !c.Cmp(p.val, threshold)
    ensures forall p :: p in gone ==> !c.Cmp(threshold, p.val)
    ensures OnlySlots(vals, ids, 0, n)
  {
    hide IsHeap, Tracks;
    q :| qMin <= q <= qMax;
    ghost var s := Slice(vals, ids, 0, n);
    var x, xids := vals[..n], ids[..n];
    HeapHeapify(c, q, vals, ids, 0, x, Some(xids), q);
    assert Slice(vals, ids, 0, q) == Slice(vals, ids, 0, q)[..q];
    assert Entries(x, Some(xids), q) == s[..q];
    TracksItself(c, s[..q]);
    TracksPermuted(c, s[..q], Slice(vals, ids, 0, q), s[..q], s[..q]);
    HeapAddn(c, q, vals, ids, 0, x[q..], Some(xids[q..]), n - q, s[..q]);
    assert s[..q] + Entries(x[q..], Some(xids[q..]), n - q) == s;
    threshold := vals[0];
    gone := HeapSplits(c, Slice(vals, ids, 0, q), s);
  }

  lemma HeapSplits(c: C, table: seq<Pair>, s: seq<Pair>) returns (gone: seq<Pair>)
    requires IsHeap(c, table) && Tracks(c, table, s) && table != []
    ensures multiset(table + gone) == multiset(s)
    ensures forall p :: p in table ==> !c.Cmp(p.val, table[0].val)
    ensures forall p :: p in gone ==> !c.Cmp(table[0].val, p.val)
  {
    hide IsHeap, Tracks;
    gone := SplitOff(c, table, s);
    HeapTopIsWorst(c, table);
  }

  lemma SplitOff(c: C, table: seq<Pair>, s: seq<Pair>) returns (gone: seq<Pair>)
    requires Tracks(c, table, s) && table != []
    ensures multiset(table + gone) == multiset(s)
    ensures forall p :: p in gone ==> !c.Cmp(table[0].val, p.val)
  {
    gone := SeqOf(multiset(s) - multiset(table));
    ValsMultiset(table + gone, s);
    ValsConcat(table, gone);
    forall p | p in gone
      ensures !c.Cmp(table[0].val, p.val)
    {
      var j :| 0 <= j < |gone| && gone[j] == p;
      assert Vals(gone)[j] == p.val;
      assert p.val in multiset(Vals(s)) - multiset(Vals(table));
      assert Vals(table)[0] == table[0].val;
      assert table[0].val in multiset(Vals(table));
    }
  }

  class ReservoirHandler {
    const c: C
    const disTab: array<int>
    const idsTab: array<int>
    const n: nat         // number of requested entries
    const capacity: nat  // size of the storage
    var vals: array<int>
    var ids: array<int>
    var i: nat           // number of stored entries
    var threshold: int
    var qno: nat
    ghost var added: seq<Pair>
    ghost var dropped: seq<Pair>

    ghost predicate Valid()
      reads this, vals, ids
    {
      && 1 <= n < capacity
      && vals != ids && vals.Length == capacity && ids.Length == capacity && i <= capacity
      && {vals, ids} !! {disTab, idsTab}
      && Reservoir(c, n, Slice(vals, ids, 0, i), dropped, added, threshold)
    }

    /** The capacity is `2 * k` rounded up to a multiple of 16. */
    constructor (c: C, k: nat, disTab: array<int>, idsTab: array<int>)
      requires k >= 1
      ensures this.c == c && this.n == k && this.disTab == disTab && this.idsTab == idsTab
      ensures 2 * k <= capacity < 2 * k + 16 && capacity % 16 == 0
      ensures fresh(vals) && fresh(ids)
    {
      this.c, this.n, this.disTab, this.idsTab := c, k, disTab, idsTab;
      capacity := (2 * k + 15) / 16 * 16;
      vals, ids := new int[0], new int[0];
    }

    method Begin(qno: nat)
      requires 1 <= n < capacity
      modifies this
      ensures Valid() && added == [] && this.qno == qno && fresh(vals) && fresh(ids)
    {
      vals, ids := new int[capacity], new int[capacity];
      i := 0;
      threshold := c.Neutral();
      this.qno := qno;
      added, dropped := [], [];
    }

    /** Returns whether the threshold was set anew. */
    method AddResult(val: int, id: int) returns (updated: bool)
      requires Valid()
      modifies this, vals, ids
      ensures Valid() && added == old(added) + [Pair(val, id)]
      ensures vals == old(vals) && ids == old(ids) && qno == old(qno)
      ensures !updated ==> threshold == old(threshold)
    {
      hide Reservoir;
      updated := false;
      ghost var p := Pair(val, id);
      if c.Cmp(threshold, val) {
        ReservoirThreshold(c, n, Slice(vals, ids, 0, i), dropped, added, threshold);
        if i == capacity {
          ShrinkFuzzy();
          updated := true;
        }
        Store(val, id);
      } else {
        ReservoirSkip(c, n, Slice(vals, ids, 0, i), dropped, added, threshold, p);
        dropped := dropped + [p];
        added := added + [p];
      }
    }

    method Store(val: int, id: int)
      requires Valid() && i < capacity && c.Cmp(c.Neutral(), val)
      modifies this`i, this`added, vals, ids
      ensures Valid() && added == old(added) + [Pair(val, id)]
    {
      hide Reservoir;
      ghost var stored := Slice(vals, ids, 0, i);
      ghost var p := Pair(val, id);
      vals[i] := val;
      ids[i] := id;
      i := i + 1;
      assert Slice(vals, ids, 0, i) == stored + [p];
      ReservoirStore(c, n, stored, dropped, added, threshold, p);
      added := added + [p];
    }

    /** Reduces the storage from its capacity to at least `n` and at most
        `(capacity + n) / 2` entries. */
    method ShrinkFuzzy()
      requires Valid() && i == capacity
      modifies this, vals, ids
      ensures Valid() && n <= i <= (capacity + n) / 2
      ensures vals == old(vals) && ids == old(ids) && qno == old(qno) && added == old(added)
    {
      hide Reservoir, Slice;
      ghost var stored := Slice(vals, ids, 0, i);
      var newThreshold, kept, gone := PartitionFuzzy(c, vals, ids, capacity, n, (capacity + n) / 2);
      ghost var left := Slice(vals, ids, 0, kept);
      assert |multiset(left + gone)| == |multiset(stored)|;
      ReservoirShrink(c, n, stored, dropped, added, threshold, left, gone, newThreshold);
      threshold, i := newThreshold, kept;
      dropped := gone + dropped;
    }

    method End()
      requires Valid() && Fits(disTab, idsTab, qno * n, n)
      modifies disTab, idsTab
      ensures AllLive(added) ==> IsAnswer(c, n, added, Slice(disTab, idsTab, qno * n, n))
      ensures OnlySlots(disTab, idsTab, qno * n, n)
    {
      ToResult(qno * n);
    }

    method ToResult(lo: nat)
      requires Valid() && Fits(disTab, idsTab, lo, n)
      modifies disTab, idsTab
      ensures AllLive(added) ==> IsAnswer(c, n, added, Slice(disTab, idsTab, lo, n))
      ensures OnlySlots(disTab, idsTab, lo, n)
    {
      hide Reservoir, IsHeap, IsAnswer, AllLive;
      var m := if i < n then i else n;
      PushAll(c, m, disTab, idsTab, lo, vals[..i], Some(ids[..i]));
      assert Entries(vals[..i], Some(ids[..i]), m) == Slice(vals, ids, 0, i)[..m];
      if i < n {
        FinishFew(lo);
      } else {
        FinishMany(lo);
      }
    }

    /** Sorts the entries and adds empty slots. */
    method FinishFew(lo: nat)
      requires Valid() && Fits(disTab, idsTab, lo, n) && i < n
      requires IsHeap(c, Slice(disTab, idsTab, lo, i))
      requires multiset(Slice(disTab, idsTab, lo, i)) == multiset(Slice(vals, ids, 0, i)[..i])
      modifies disTab, idsTab
      ensures AllLive(added) ==> IsAnswer(c, n, added, Slice(disTab, idsTab, lo, n))
      ensures OnlySlots(disTab, idsTab, lo, n)
    {
      hide Reservoir, IsHeap, InOrder, IsAnswer, AllLive, Live;
      ghost var stored := Slice(vals, ids, 0, i);
      assert stored[..i] == stored;
      ghost var s := Slice(disTab, idsTab, lo, i);
      var nel := HeapReorder(c, i, disTab, idsTab, lo);
      ghost var out := Slice(disTab, idsTab, lo, i);
      HeapHeapify(c, n - i, disTab, idsTab, lo + i, [], None, 0);
      ghost var all := Slice(disTab, idsTab, lo, n);
      assert Slice(disTab, idsTab, lo + i, n - i)[0..] == Slice(disTab, idsTab, lo + i, n - i);
      assert all == out + Repeat(c.Pad(), n - i);
      if AllLive(added) {
        FewStoredIsAnswer(c, n, stored, dropped, added, threshold, s, out, nel);
      }
    }

    /** Adds the remaining entries and sorts. */
    method FinishMany(lo: nat)
      requires Valid() && Fits(disTab, idsTab, lo, n) && n <= i
      requires IsHeap(c, Slice(disTab, idsTab, lo, n))
      requires multiset(Slice(disTab, idsTab, lo, n)) == multiset(Slice(vals, ids, 0, i)[..n])
      modifies disTab, idsTab
      ensures AllLive(added) ==> IsAnswer(c, n, added, Slice(disTab, idsTab, lo, n))
      ensures OnlySlots(disTab, idsTab, lo, n)
    {
      hide Reservoir, IsHeap, InOrder, IsAnswer, AllLive, Live, Tracks;
      ghost var stored := Slice(vals, ids, 0, i);
      TracksItself(c, stored[..n]);
      TracksPermuted(c, stored[..n], Slice(disTab, idsTab, lo, n), stored[..n], stored[..n]);
      HeapAddn(c, n, disTab, idsTab, lo, vals[n..i], Some(ids[n..i]), i - n, stored[..n]);
      assert stored[..n] + Entries(vals[n..i], Some(ids[n..i]), i - n) == stored;
      ghost var s := Slice(disTab, idsTab, lo, n);
      var nel := HeapReorder(c, n, disTab, idsTab, lo);
      if AllLive(added) {
        ManyStoredIsAnswer(c, n, stored, dropped, added, threshold, s, Slice(disTab, idsTab, lo, n), nel);
      }
    }
  }

  lemma ManyStoredIsAnswer(c: C, n: nat, stored: seq<Pair>, dropped: seq<Pair>, added: seq<Pair>, threshold: int,
                           s: seq<Pair>, out: seq<Pair>, nel: nat)
    requires Reservoir(c, n, stored, dropped, added, threshold) && AllLive(added)
    requires |s| == n == |out| && Tracks(c, s, stored)
    requires nel <= n && multiset(out[..nel]) == multiset(Live(s)) && InOrder(c, out[..nel])
    requires out[nel..] == Repeat(c.Pad(), n - nel)
    ensures IsAnswer(c, n, added, out)
  {
    hide IsAnswer, Tracks, InOrder;
    PadsDoNotMatter(c, n, stored, s);
    ReservoirBest(c, n, stored, dropped, added, threshold, s);
    ReorderedIsAnswer(c, n, added, s, out, nel);
  }

  /** With fewer than `n` entries stored, the reordered entries and empty slots
      behind them are the answer. */
  lemma FewStoredIsAnswer(c: C, n: nat, stored: seq<Pair>, dropped: seq<Pair>, added: seq<Pair>, threshold: int,
                          s: seq<Pair>, out: seq<Pair>, nel: nat)
    requires Reservoir(c, n, stored, dropped, added, threshold) && |stored| < n && AllLive(added)
    requires multiset(s) == multiset(stored) && |out| == |s| == |stored|
    requires nel == |Live(s)| <= |out| && multiset(out[..nel]) == multiset(Live(s)) && InOrder(c, out[..nel])
    ensures IsAnswer(c, n, added, out + Repeat(c.Pad(), n - |stored|))
  {
    hide IsAnswer, Tracks, InOrder, Live;
    StoredAreLive(c, n, stored, dropped, added, threshold, s);
    assert nel == |s| && out[..nel] == out;
    var pads := Repeat(c.Pad(), n - |stored|);
    StoredAndPads(c, n, stored);
    TracksPermuted(c, stored + pads, out + pads, Repeat(c.Pad(), n) + stored, Repeat(c.Pad(), n) + stored);
    ReservoirBest(c, n, stored, dropped, added, threshold, out + pads);
    assert (out + pads)[..nel] == out;
    PaddedIsSorted(c, n, added, out + pads, nel);
    SortedTableIsAnswer(c, n, added, out + pads);
  }

  lemma StoredAreLive(c: C, n: nat, stored: seq<Pair>, dropped: seq<Pair>, added: seq<Pair>, threshold: int,
                      s: seq<Pair>)
    requires Reservoir(c, n, stored, dropped, added, threshold) && AllLive(added)
    requires multiset(s) == multiset(stored)
    ensures Live(s) == s
  {
    forall p | p in s
      ensures p.id != -1
    {
      assert p in multiset(stored) && p in multiset(stored + dropped);
      assert p in multiset(added);
    }
    AllLiveStays(s);
  }

  lemma {:induction false} AllLiveStays(s: seq<Pair>)
    requires forall p :: p in s ==> p.id != -1
    ensures Live(s) == s
  {
    if s != [] {
      AllLiveStays(s[1..]);
    }
  }

  // ----- dispatching -----

  method RunTop1(c: C, disTab: array<int>, idsTab: array<int>, qno: nat, results: seq<Pair>)
    requires Fits(disTab, idsTab, qno, 1)
    modifies disTab, idsTab
    ensures IsAnswer(c, 1, results, Slice(disTab, idsTab, qno, 1))
    ensures OnlySlots(disTab, idsTab, qno, 1)
  {
    hide IsAnswer, Tracks;
    var handler := new Top1Handler(c, disTab, idsTab);
    handler.Begin(qno);
    for j := 0 to |results|
      invariant handler.Valid() && handler.added == results[..j] && handler.currentIdx == qno
      invariant OnlySlots(disTab, idsTab, qno, 1)
    {
      var _ := handler.AddResult(results[j].val, results[j].id);
    }
    handler.End();
    assert results[..|results|] == results;
  }

  method RunHeap(c: C, k: nat, disTab: array<int>, idsTab: array<int>, qno: nat, results: seq<Pair>)
    requires k >= 1 && Fits(disTab, idsTab, qno * k, k)
    modifies disTab, idsTab
    ensures AllLive(results) ==> IsAnswer(c, k, results, Slice(disTab, idsTab, qno * k, k))
    ensures OnlySlots(disTab, idsTab, qno * k, k)
  {
    hide IsAnswer, Tracks, IsHeap, AllLive;
    var handler := new HeapHandler(c, k, disTab, idsTab);
    handler.Begin(qno);
    for j := 0 to |results|
      invariant handler.Valid() && handler.added == results[..j] && handler.lo == qno * k
      invariant OnlySlots(disTab, idsTab, qno * k, k)
    {
      var _ := handler.AddResult(results[j].val, results[j].id);
    }
    handler.End();
    assert results[..|results|] == results;
  }

  method RunReservoir(c: C, k: nat, disTab: array<int>, idsTab: array<int>, qno: nat, results: seq<Pair>)
    requires k >= 1 && Fits(disTab, idsTab, qno * k, k)
    modifies disTab, idsTab
    ensures AllLive(results) ==> IsAnswer(c, k, results, Slice(disTab, idsTab, qno * k, k))
    ensures OnlySlots(disTab, idsTab, qno * k, k)
  {
    hide IsAnswer, Reservoir, AllLive;
    var handler := new ReservoirHandler(c, k, disTab, idsTab);
    handler.Begin(qno);
    for j := 0 to |results|
      invariant handler.Valid() && handler.added == results[..j] && handler.qno == qno
      invariant fresh(handler.vals) && fresh(handler.ids)
      invariant OnlySlots(disTab, idsTab, qno * k, k)
    {
      var _ := handler.AddResult(results[j].val, results[j].id);
    }
    handler.End();
    assert results[..|results|] == results;
  }

  /** Picks a handler by `k`. */
  method Dispatch(c: C, k: nat, minKReservoir: int, disTab: array<int>, idsTab: array<int>, qno: nat,
                  results: seq<Pair>)
    requires k >= 1 && Fits(disTab, idsTab, qno * k, k)
    modifies disTab, idsTab
    ensures AllLive(results) ==> IsAnswer(c, k, results, Slice(disTab, idsTab, qno * k, k))
    ensures OnlySlots(disTab, idsTab, qno * k, k)
  {
    hide IsAnswer, AllLive, Slice;
    if k == 1 {
      assert qno * k == qno;
      RunTop1(c, disTab, idsTab, qno, results);
    } else if k < minKReservoir {
      RunHeap(c, k, disTab, idsTab, qno, results);
    } else {
      RunReservoir(c, k, disTab, idsTab, qno, results);
    }
  }

  lemma AnswerSpelled(similarity: bool, lowest: int, highest: int, k: nat, results: seq<Pair>, out: seq<Pair>)
    requires AllLive(results) ==> IsAnswer(if similarity then CMin(lowest) else CMax(highest), k, results, out)
    requires |out| == k
    ensures (forall p :: p in results ==> p.id != -1) ==>
              var empty := Pair(if similarity then lowest else highest, -1);
              && multiset(out) <= multiset(results) + multiset(Repeat(empty, k))
              && (forall i, j :: 0 <= i < j < k ==>
                    if similarity then out[i].val >= out[j].val else out[i].val <= out[j].val)
              && (forall i :: 0 <= i < k ==> if similarity then out[i].val >= lowest else out[i].val <= highest)
              && (forall p, i :: p in multiset(results) - multiset(out) && 0 <= i < k ==>
                    if similarity then out[i].val >= p.val else out[i].val <= p.val)
    ensures (forall p :: p in results ==> p.id != -1 && if similarity then lowest < p.val else p.val < highest) ==>
              var m := if |results| < k then |results| else k;
              && multiset(out[..m]) <= multiset(results)
              && forall i :: m <= i < k ==> out[i] == Pair(if similarity then lowest else highest, -1)
  {
    hide IsAnswer;
    var c := if similarity then CMin(lowest) else CMax(highest);
    if AllLive(results) {
      AnswerParts(c, k, results, out);
      if forall p :: p in results ==> c.Cmp(c.Neutral(), p.val) {
        AnswerFront(c, k, results, out);
      }
    }
  }

  /** A query for the `k` best that adds `results` one by one to the handler the
      dispatcher picks.  Whatever it picks, the slots of query `qno` end up with an answer:
      best first, nothing left out is better, nothing is worse than an empty slot, which is
      the lowest or highest distance with label -1, and when every result is better than
      that, exactly the slots without a result are empty.  No other slot is written. */
  method Search(similarity: bool, lowest: int, highest: int, k: nat, minKReservoir: int,
                disTab: array<int>, idsTab: array<int>, qno: nat, results: seq<Pair>)
    requires k >= 1 && Fits(disTab, idsTab, qno * k, k)
    modifies disTab, idsTab
    ensures AllLive(results) ==>
              IsAnswer(if similarity then CMin(lowest) else CMax(highest), k, results,
                       Slice(disTab, idsTab, qno * k, k))
    ensures (forall p :: p in results ==> p.id != -1) ==>
              var out := Slice(disTab, idsTab, qno * k, k);
              var empty := Pair(if similarity then lowest else highest, -1);
              && multiset(out) <= multiset(results) + multiset(Repeat(empty, k))
              && (forall i, j :: 0 <= i < j < k ==>
                    if similarity then out[i].val >= out[j].val else out[i].val <= out[j].val)
              && (forall i :: 0 <= i < k ==> if similarity then out[i].val >= lowest else out[i].val <= highest)
              && (forall p, i :: p in multiset(results) - multiset(out) && 0 <= i < k ==>
                    if similarity then out[i].val >= p.val else out[i].val <= p.val)
    ensures (forall p :: p in results ==> p.id != -1 && if similarity then lowest < p.val else p.val < highest) ==>
              var out := Slice(disTab, idsTab, qno * k, k);
              var m := if |results| < k then |results| else k;
              && multiset(out[..m]) <= multiset(results)
              && forall i :: m <= i < k ==> out[i] == Pair(if similarity then lowest else highest, -1)
    ensures OnlySlots(disTab, idsTab, qno * k, k)
  {
    hide IsAnswer, AllLive, Slice, OnlySlots;
    Dispatch(if similarity then CMin(lowest) else CMax(highest), k, minKReservoir, disTab, idsTab, qno, results);
    AnswerSpelled(similarity, lowest, highest, k, results, Slice(disTab, idsTab, qno * k, k));
  }
}
