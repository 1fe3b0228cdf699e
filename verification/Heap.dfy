/** The heap algorithms of `utils/Heap.h`, on a value array and a label array.
    A C pointer into the arrays is an array and an offset `lo`; `bh_val--` turns
    node `i` into index `lo + i - 1`. */
module Heap {
  import opened OrderedKeyValue
  import opened HeapOrder
  import opened KBest
  import opened Wrappers

  /** Both arrays have `k` slots from `lo` on. */
  ghost predicate Fits(val: array<int>, ids: array<int>, lo: nat, k: nat) {
    val != ids && lo + k <= val.Length && lo + k <= ids.Length
  }

  /** The entries of slots `lo .. lo + k`. */
  ghost function Slice(val: array<int>, ids: array<int>, lo: nat, k: nat): (s: seq<Pair>)
    requires Fits(val, ids, lo, k)
    reads val, ids
    ensures |s| == k
    ensures forall j :: 0 <= j < k ==> s[j] == Pair(val[lo + j], ids[lo + j])
  {
    seq(k, j requires 0 <= j < k reads val, ids => Pair(val[lo + j], ids[lo + j]))
  }

  /** No slot outside `lo .. lo + k` was written. */
  twostate predicate OnlySlots(val: array<int>, ids: array<int>, lo: nat, k: nat)
    reads val, ids
  {
    && (forall j :: 0 <= j < val.Length && !(lo <= j < lo + k) ==> val[j] == old(val[j]))
    && (forall j :: 0 <= j < ids.Length && !(lo <= j < lo + k) ==> ids[j] == old(ids[j]))
  }

  /** `bh_val[i] = v; bh_ids[i] = id;` in the heap of `k` slots from `lo` on. */
  method Assign(val: array<int>, ids: array<int>, lo: nat, ghost k: nat, i: nat, v: int, id: int)
    requires Fits(val, ids, lo, k) && 1 <= i <= k
    modifies val, ids
    ensures Slice(val, ids, lo, k) == Put(old(Slice(val, ids, lo, k)), i, Pair(v, id))
    ensures forall j :: 0 <= j < val.Length && j != lo + i - 1 ==> val[j] == old(val[j])
    ensures forall j :: 0 <= j < ids.Length && j != lo + i - 1 ==> ids[j] == old(ids[j])
  {
    val[lo + i - 1] := v;
    ids[lo + i - 1] := id;
  }

  /** The loop `heap_pop` and `heap_replace_top` share word for word: moves the
      hole down from the root until `(v, id)` fits, and returns where it is. */
  method MoveHoleDown(c: C, k: nat, val: array<int>, ids: array<int>, lo: nat, v: int, id: int)
    returns (i: nat)
    requires k >= 1 && Fits(val, ids, lo, k)
    modifies val, ids
    ensures 1 <= i <= k
    ensures Put(Slice(val, ids, lo, k), i, Pair(v, id)) == SiftDown(c, old(Slice(val, ids, lo, k)), 1, Pair(v, id))
    ensures OnlySlots(val, ids, lo, k - 1)
  {
    hide SiftDown, WorseChild, Slice;
    ghost var p := Pair(v, id);
    i := 1;
    while true
      invariant 1 <= i <= k
      invariant OnlySlots(val, ids, lo, k - 1)
      invariant SiftDown(c, Slice(val, ids, lo, k), i, p) == SiftDown(c, old(Slice(val, ids, lo, k)), 1, p)
      decreases k - i
    {
      ghost var s := Slice(val, ids, lo, k);
      var i1 := 2 * i;
      var i2 := i1 + 1;
      if i1 > k {
        SiftDownStop(c, s, i, p);
        break;
      }
      if i2 == k + 1 || c.Cmp2(val[lo + i1 - 1], val[lo + i2 - 1], ids[lo + i1 - 1], ids[lo + i2 - 1]) {
        SiftDownStep(c, s, i, p, i1);
        if c.Cmp2(v, val[lo + i1 - 1], id, ids[lo + i1 - 1]) {
          break;
        }
        Assign(val, ids, lo, k, i, val[lo + i1 - 1], ids[lo + i1 - 1]);
        i := i1;
      } else {
        SiftDownStep(c, s, i, p, i2);
        if c.Cmp2(v, val[lo + i2 - 1], id, ids[lo + i2 - 1]) {
          break;
        }
        Assign(val, ids, lo, k, i, val[lo + i2 - 1], ids[lo + i2 - 1]);
        i := i2;
      }
    }
  }

  /** Removes the root of the heap in slots `lo .. lo + k`; the heap shrinks by
      one slot. */
  method HeapPop(c: C, k: nat, val: array<int>, ids: array<int>, lo: nat)
    requires k >= 1 && Fits(val, ids, lo, k)
    requires IsHeap(c, Slice(val, ids, lo, k))
    modifies val, ids
    ensures IsHeap(c, Slice(val, ids, lo, k - 1))
    ensures multiset(Slice(val, ids, lo, k - 1))
         == multiset(old(Slice(val, ids, lo, k))) - multiset{old(Slice(val, ids, lo, k))[0]}
    ensures OnlySlots(val, ids, lo, k)
  {
    hide IsHeap, SiftDown, Slice;
    ghost var s0 := Slice(val, ids, lo, k);
    var i := MoveHoleDown(c, k, val, ids, lo, val[lo + k - 1], ids[lo + k - 1]);
    Assign(val, ids, lo, k, i, val[lo + k - 1], ids[lo + k - 1]);
    assert Slice(val, ids, lo, k - 1) == Slice(val, ids, lo, k)[..k - 1];
    PopCorrect(c, s0, k - 1, Slice(val, ids, lo, k - 1));
  }

  /** Adds an entry to the heap in slots `lo .. lo + k - 1`, which grows by one
      slot. */
  method HeapPush(c: C, k: nat, val: array<int>, ids: array<int>, lo: nat, v: int, id: int)
    requires k >= 1 && Fits(val, ids, lo, k)
    requires IsHeap(c, Slice(val, ids, lo, k - 1))
    modifies val, ids
    ensures IsHeap(c, Slice(val, ids, lo, k))
    ensures multiset(Slice(val, ids, lo, k))
         == multiset(old(Slice(val, ids, lo, k - 1))) + multiset{Pair(v, id)}
    ensures OnlySlots(val, ids, lo, k)
  {
    hide IsHeap, SiftUp, Slice;
    ghost var s0 := Slice(val, ids, lo, k);
    assert s0[..k - 1] == Slice(val, ids, lo, k - 1);
    ghost var p := Pair(v, id);
    ghost var t := SiftUp(c, s0, k, p);
    var i := k;
    while i > 1
      invariant 1 <= i <= k
      invariant OnlySlots(val, ids, lo, k)
      invariant SiftUp(c, Slice(val, ids, lo, k), i, p) == t
    {
      SiftUpStep(c, Slice(val, ids, lo, k), i, p);
      var father := i / 2;
      if !c.Cmp2(v, val[lo + father - 1], id, ids[lo + father - 1]) {
        break;
      }
      Assign(val, ids, lo, k, i, val[lo + father - 1], ids[lo + father - 1]);
      i := father;
    }
    SiftUpStep(c, Slice(val, ids, lo, k), i, p);
    Assign(val, ids, lo, k, i, v, id);
    assert Slice(val, ids, lo, k) == t;
    PushCorrect(c, s0, p);
  }

  /** Replaces the root of the heap in slots `lo .. lo + k`. */
  method HeapReplaceTop(c: C, k: nat, val: array<int>, ids: array<int>, lo: nat, v: int, id: int)
    requires k >= 1 && Fits(val, ids, lo, k)
    requires IsHeap(c, Slice(val, ids, lo, k))
    modifies val, ids
    ensures IsHeap(c, Slice(val, ids, lo, k))
    ensures multiset(Slice(val, ids, lo, k))
         == multiset(old(Slice(val, ids, lo, k))[0 := Pair(v, id)])
    ensures OnlySlots(val, ids, lo, k)
  {
    hide IsHeap, SiftDown, Slice;
    ghost var s0 := Slice(val, ids, lo, k);
    var i := MoveHoleDown(c, k, val, ids, lo, v, id);
    Assign(val, ids, lo, k, i, v, id);
    ReplaceTopCorrect(c, s0, Pair(v, id));
  }

  /** The `i`-th input of `heap_heapify` and `heap_addn`: without a label array
      the label is the position. */
  function Entry(x: seq<int>, xids: Option<seq<int>>, i: nat): Pair
    requires i < |x| && (xids.Some? ==> i < |xids.value|)
  {
    Pair(x[i], if xids.Some? then xids.value[i] else i)
  }

  function Entries(x: seq<int>, xids: Option<seq<int>>, n: nat): (s: seq<Pair>)
    requires n <= |x| && (xids.Some? ==> n <= |xids.value|)
    ensures |s| == n
    ensures forall i :: 0 <= i < n ==> s[i] == Pair(x[i], if xids.Some? then xids.value[i] else i)
  {
    seq(n, i requires 0 <= i < n => Entry(x, xids, i))
  }

  /** The loop that makes slots `from .. k` neutral. */
  method FillNeutral(c: C, val: array<int>, ids: array<int>, lo: nat, from: nat, k: nat)
    requires from <= k && Fits(val, ids, lo, k)
    modifies val, ids
    ensures Slice(val, ids, lo, k) == old(Slice(val, ids, lo, from)) + Repeat(c.Pad(), k - from)
    ensures Slice(val, ids, lo, from) == old(Slice(val, ids, lo, from))
    ensures OnlySlots(val, ids, lo, k)
  {
    for i := from to k
      invariant forall j :: lo + from <= j < lo + i ==> val[j] == c.Neutral() && ids[j] == -1
      invariant forall j :: 0 <= j < val.Length && !(lo + from <= j < lo + i) ==> val[j] == old(val[j])
      invariant forall j :: 0 <= j < ids.Length && !(lo + from <= j < lo + i) ==> ids[j] == old(ids[j])
    {
      val[lo + i] := c.Neutral();
      ids[lo + i] := -1;
    }
  }

  lemma EntriesStep(x: seq<int>, xids: Option<seq<int>>, i: nat, seen: seq<Pair>)
    requires i < |x| && (xids.Some? ==> i < |xids.value|)
    ensures Entries(x, xids, i + 1) == Entries(x, xids, i) + [Entry(x, xids, i)]
    ensures seen + Entries(x, xids, i + 1) == seen + Entries(x, xids, i) + [Entry(x, xids, i)]
  {
  }

  /** The pushing loop, with or without labels. */
  method PushAll(c: C, k0: nat, val: array<int>, ids: array<int>, lo: nat, x: seq<int>, xids: Option<seq<int>>)
    requires Fits(val, ids, lo, k0)
    requires k0 <= |x| && (xids.Some? ==> k0 <= |xids.value|)
    modifies val, ids
    ensures IsHeap(c, Slice(val, ids, lo, k0))
    ensures multiset(Slice(val, ids, lo, k0)) == multiset(Entries(x, xids, k0))
    ensures OnlySlots(val, ids, lo, k0)
  {
    hide IsHeap, Slice;
    SmallIsHeap(c, []);
    assert Slice(val, ids, lo, 0) == [];
    for i := 0 to k0
      invariant IsHeap(c, Slice(val, ids, lo, i))
      invariant multiset(Slice(val, ids, lo, i)) == multiset(Entries(x, xids, i))
      invariant OnlySlots(val, ids, lo, k0)
    {
      var p := Entry(x, xids, i);
      HeapPush(c, i + 1, val, ids, lo, p.val, p.id);
      EntriesStep(x, xids, i, []);
    }
  }

  /** Pushes `k0` inputs and fills the other slots with neutral entries. */
  method HeapHeapify(c: C, k: nat, val: array<int>, ids: array<int>, lo: nat,
                     x: seq<int>, xids: Option<seq<int>>, k0: nat)
    requires Fits(val, ids, lo, k)
    requires k0 <= k && k0 <= |x| && (xids.Some? ==> k0 <= |xids.value|)
    modifies val, ids
    ensures IsHeap(c, Slice(val, ids, lo, k0))
    ensures multiset(Slice(val, ids, lo, k0)) == multiset(Entries(x, xids, k0))
    ensures Slice(val, ids, lo, k)[k0..] == Repeat(c.Pad(), k - k0)
    ensures IsHeap(c, Slice(val, ids, lo, k)) <==> PadsFit(c, Slice(val, ids, lo, k0), k - k0)
    ensures k0 == 0 || k0 == k ==> IsHeap(c, Slice(val, ids, lo, k))
    ensures OnlySlots(val, ids, lo, k)
  {
    hide IsHeap, PadsFit;
    PushAll(c, k0, val, ids, lo, x, xids);
    PadHeap(c, k, val, ids, lo, k0);
  }

  /** The padding loop of `heap_heapify`. */
  method PadHeap(c: C, k: nat, val: array<int>, ids: array<int>, lo: nat, k0: nat)
    requires Fits(val, ids, lo, k) && k0 <= k && IsHeap(c, Slice(val, ids, lo, k0))
    modifies val, ids
    ensures Slice(val, ids, lo, k0) == old(Slice(val, ids, lo, k0))
    ensures Slice(val, ids, lo, k)[k0..] == Repeat(c.Pad(), k - k0)
    ensures IsHeap(c, Slice(val, ids, lo, k)) <==> PadsFit(c, Slice(val, ids, lo, k0), k - k0)
    ensures k0 == 0 || k0 == k ==> IsHeap(c, Slice(val, ids, lo, k))
    ensures OnlySlots(val, ids, lo, k)
  {
    hide IsHeap, PadsFit;
    ghost var h := Slice(val, ids, lo, k0);
    PaddedHeap(c, h, k - k0);
    PadsFitWhenAlone(c, h, k - k0);
    FillNeutral(c, val, ids, lo, k0, k);
  }

  /** The inputs of `heap_heapify` when they are the slots of the heap themselves. */
  function OwnEntries(s: seq<Pair>, withIds: bool, n: nat): (t: seq<Pair>)
    requires n <= |s|
    ensures |t| == n && forall i :: 0 <= i < n ==> t[i] == Pair(s[i].val, if withIds then s[i].id else i)
  {
    seq(n, i requires 0 <= i < n => Pair(s[i].val, if withIds then s[i].id else i))
  }

  /** `heap_heapify` on its own slots, which its documentation allows: no input is
      overwritten before it is read. */
  method HeapHeapifyInPlace(c: C, k: nat, val: array<int>, ids: array<int>, lo: nat, withIds: bool, k0: nat)
    requires Fits(val, ids, lo, k) && k0 <= k
    modifies val, ids
    ensures IsHeap(c, Slice(val, ids, lo, k0))
    ensures multiset(Slice(val, ids, lo, k0)) == multiset(OwnEntries(old(Slice(val, ids, lo, k0)), withIds, k0))
    ensures Slice(val, ids, lo, k)[k0..] == Repeat(c.Pad(), k - k0)
    ensures IsHeap(c, Slice(val, ids, lo, k)) <==> PadsFit(c, Slice(val, ids, lo, k0), k - k0)
    ensures OnlySlots(val, ids, lo, k)
  {
    hide IsHeap, PadsFit, Slice;
    PushOwn(c, val, ids, lo, withIds, k0);
    PadHeap(c, k, val, ids, lo, k0);
  }

  method PushOwn(c: C, val: array<int>, ids: array<int>, lo: nat, withIds: bool, k0: nat)
    requires Fits(val, ids, lo, k0)
    modifies val, ids
    ensures IsHeap(c, Slice(val, ids, lo, k0))
    ensures multiset(Slice(val, ids, lo, k0)) == multiset(OwnEntries(old(Slice(val, ids, lo, k0)), withIds, k0))
    ensures OnlySlots(val, ids, lo, k0)
  {
    hide IsHeap, Slice;
    ghost var entries := OwnEntries(Slice(val, ids, lo, k0), withIds, k0);
    SmallIsHeap(c, []);
    assert Slice(val, ids, lo, 0) == [] == entries[..0];
    for i := 0 to k0
      invariant IsHeap(c, Slice(val, ids, lo, i))
      invariant multiset(Slice(val, ids, lo, i)) == multiset(entries[..i])
      invariant OnlySlots(val, ids, lo, i)
    {
      var v, id := val[lo + i], if withIds then ids[lo + i] else i;
      assert entries[..i + 1] == entries[..i] + [Pair(v, id)];
      HeapPush(c, i + 1, val, ids, lo, v, id);
    }
    assert entries[..k0] == entries;
  }

  /** Offers one entry to a heap that tracks `seen`: it replaces the root if the
      root is worse. */
  method HeapOffer(c: C, k: nat, val: array<int>, ids: array<int>, lo: nat, v: int, id: int, ghost seen: seq<Pair>)
    returns (taken: bool)
    requires k >= 1 && Fits(val, ids, lo, k)
    requires IsHeap(c, Slice(val, ids, lo, k)) && Tracks(c, Slice(val, ids, lo, k), seen)
    modifies val, ids
    ensures taken == c.Cmp(old(val[lo]), v)
    ensures !taken ==> Slice(val, ids, lo, k) == old(Slice(val, ids, lo, k))
    ensures IsHeap(c, Slice(val, ids, lo, k)) && Tracks(c, Slice(val, ids, lo, k), seen + [Pair(v, id)])
    ensures OnlySlots(val, ids, lo, k)
  {
    hide IsHeap, Tracks, TopIsWorst, Slice;
    ghost var s := Slice(val, ids, lo, k);
    HeapTopIsWorst(c, s);
    taken := c.Cmp(val[lo], v);
    if taken {
      HeapReplaceTop(c, k, val, ids, lo, v, id);
      TracksReplace(c, s, seen, Pair(v, id), Slice(val, ids, lo, k));
    } else {
      TracksIgnore(c, s, seen, Pair(v, id));
    }
  }

  /** Streams `n` inputs through a heap: it goes on holding a best part of
      everything `seen`. */
  method HeapAddn(c: C, k: nat, val: array<int>, ids: array<int>, lo: nat,
                  x: seq<int>, xids: Option<seq<int>>, n: nat, ghost seen: seq<Pair>)
    requires k >= 1 && Fits(val, ids, lo, k)
    requires n <= |x| && (xids.Some? ==> n <= |xids.value|)
    requires IsHeap(c, Slice(val, ids, lo, k)) && Tracks(c, Slice(val, ids, lo, k), seen)
    modifies val, ids
    ensures IsHeap(c, Slice(val, ids, lo, k))
    ensures Tracks(c, Slice(val, ids, lo, k), seen + Entries(x, xids, n))
    ensures OnlySlots(val, ids, lo, k)
  {
    hide IsHeap, Tracks, Slice;
    ghost var all := seen;
    for i := 0 to n
      invariant IsHeap(c, Slice(val, ids, lo, k)) && Tracks(c, Slice(val, ids, lo, k), all)
      invariant all == seen + Entries(x, xids, i)
      invariant OnlySlots(val, ids, lo, k)
    {
      var p := Entry(x, xids, i);
      var _ := HeapOffer(c, k, val, ids, lo, p.val, p.id, all);
      EntriesStep(x, xids, i, seen);
      all := all + [p];
    }
  }

  /** `bh_val[k - ii - 1] = val;` as `heap_reorder` does it: in front of the last `ii`
      slots, and behind the first `n`. */
  method PutBehind(val: array<int>, ids: array<int>, lo: nat, ghost n: nat, k: nat, ii: nat, v: int, id: int)
    requires Fits(val, ids, lo, k) && n + ii < k
    modifies val, ids
    ensures Slice(val, ids, lo, n) == old(Slice(val, ids, lo, n))
    ensures Slice(val, ids, lo + k - ii, ii) == old(Slice(val, ids, lo + k - ii, ii))
    ensures Slice(val, ids, lo + k - ii - 1, ii + 1) == [Pair(v, id)] + old(Slice(val, ids, lo + k - ii, ii))
    ensures OnlySlots(val, ids, lo, k)
  {
    hide Slice;
    Assign(val, ids, lo, k, k - ii, v, id);
  }

  /** One round of `heap_reorder`: the root leaves the heap of `n` slots for slot
      `k - ii - 1`, which lies behind the heap that is left. */
  method ReorderRound(c: C, k: nat, val: array<int>, ids: array<int>, lo: nat, n: nat, ii: nat, ghost s0: seq<Pair>)
    returns (ii': nat)
    requires Fits(val, ids, lo, k) && 1 <= n && n + ii <= k
    requires Reordering(c, s0, Slice(val, ids, lo, n), Slice(val, ids, lo + k - ii, ii))
    modifies val, ids
    ensures ii <= ii' <= ii + 1
    ensures Reordering(c, s0, Slice(val, ids, lo, n - 1), Slice(val, ids, lo + k - ii', ii'))
    ensures OnlySlots(val, ids, lo, k)
  {
    hide IsHeap, InOrder, NoneWorse, Live, Slice;
    ghost var heap := Slice(val, ids, lo, n);
    ghost var done := Slice(val, ids, lo + k - ii, ii);
    var v, id := val[lo], ids[lo];
    HeapPop(c, n, val, ids, lo);
    assert Slice(val, ids, lo + k - ii, ii) == done;
    ReorderStep(c, s0, heap, done, Slice(val, ids, lo, n - 1));
    PutBehind(val, ids, lo, n - 1, k, ii, v, id);
    ii' := if id != -1 then ii + 1 else ii;
  }

  /** Turns a heap into its live entries, best first (`InOrderIs` says which way ties are
      broken), followed by neutral entries; returns how many are live. */
  method HeapReorder(c: C, k: nat, val: array<int>, ids: array<int>, lo: nat) returns (nel: nat)
    requires Fits(val, ids, lo, k)
    requires IsHeap(c, Slice(val, ids, lo, k))
    modifies val, ids
    ensures nel == |Live(old(Slice(val, ids, lo, k)))| <= k
    ensures multiset(Slice(val, ids, lo, k)[..nel]) == multiset(Live(old(Slice(val, ids, lo, k))))
    ensures InOrder(c, Slice(val, ids, lo, k)[..nel])
    ensures Slice(val, ids, lo, k)[nel..] == Repeat(c.Pad(), k - nel)
    ensures OnlySlots(val, ids, lo, k)
  {
    hide IsHeap, InOrder, NoneWorse;
    ghost var s0 := Slice(val, ids, lo, k);
    nel := 0;
    ReorderStart(c, s0);
    for i := 0 to k
      invariant nel <= i
      invariant Reordering(c, s0, Slice(val, ids, lo, k - i), Slice(val, ids, lo + k - nel, nel))
      invariant OnlySlots(val, ids, lo, k)
    {
      nel := ReorderRound(c, k, val, ids, lo, k - i, nel, s0);
    }
    ghost var done := Slice(val, ids, lo + k - nel, nel);
    assert multiset(done) == multiset(Live(s0)) by {
      assert Live(Slice(val, ids, lo, 0)) == [];
    }
    assert |multiset(done)| == |multiset(Live(s0))|;
    MoveToFront(val, ids, lo, k, nel);
    FillNeutral(c, val, ids, lo, nel, k);
    assert Slice(val, ids, lo, k)[..nel] == done;
  }

  /** The two `memmove` calls: the last `n` of `k` slots become the first. */
  method MoveToFront(val: array<int>, ids: array<int>, lo: nat, k: nat, n: nat)
    requires n <= k && Fits(val, ids, lo, k)
    modifies val, ids
    ensures Slice(val, ids, lo, n) == old(Slice(val, ids, lo + k - n, n))
    ensures OnlySlots(val, ids, lo, k)
  {
    forall j | lo <= j < lo + n {
      val[j] := val[j + k - n];
    }
    forall j | lo <= j < lo + n {
      ids[j] := ids[j + k - n];
    }
  }
}
