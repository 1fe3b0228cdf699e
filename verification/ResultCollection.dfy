/** The lemmas that connect what the result handlers hold with the answer to a
    k-best query. */
module ResultCollection {
  import opened OrderedKeyValue
  import opened HeapOrder
  import opened KBest

  ghost predicate AllLive(s: seq<Pair>) {
    forall p :: p in s ==> p.id != -1
  }

  lemma {:induction false} PadCount(c: C, s: seq<Pair>)
    requires forall i :: 0 <= i < |s| ==> s[i].id != -1 || s[i] == c.Pad()
    ensures |Live(s)| <= |s| && multiset(s)[c.Pad()] == |s| - |Live(s)|
  {
    if s != [] {
      PadCount(c, s[1..]);
      assert s == [s[0]] + s[1..];
    }
  }

  lemma {:induction false} RepeatCount<T>(x: T, k: nat, y: T)
    ensures multiset(Repeat(x, k))[y] == if y == x then k else 0
  {
    if k > 0 {
      RepeatCount(x, k - 1, y);
      assert Repeat(x, k) == Repeat(x, k - 1) + [x];
    }
  }

  lemma LiveAndPads(c: C, s: seq<Pair>)
    requires forall p :: p in s ==> p.id != -1 || p == c.Pad()
    ensures |Live(s)| <= |s|
    ensures multiset(s) == multiset(Live(s)) + multiset(Repeat(c.Pad(), |s| - |Live(s)|))
  {
    PadCount(c, s);
    forall p
      ensures multiset(s)[p] == (multiset(Live(s)) + multiset(Repeat(c.Pad(), |s| - |Live(s)|)))[p]
    {
      LiveCount(s, p);
      RepeatCount(c.Pad(), |s| - |Live(s)|, p);
      if p.id == -1 && p != c.Pad() {
        assert p !in s;
      }
    }
  }

  /** Reordering loses nothing: entries that are not live are empty slots. */
  lemma ReorderedContents(c: C, k: nat, s: seq<Pair>, out: seq<Pair>, nel: nat)
    requires |s| == k == |out| && forall p :: p in s ==> p.id != -1 || p == c.Pad()
    requires nel <= k && multiset(out[..nel]) == multiset(Live(s))
    requires out[nel..] == Repeat(c.Pad(), k - nel)
    ensures multiset(out) == multiset(s)
  {
    hide Live, Repeat;
    LiveAndPads(c, s);
    assert |multiset(out[..nel])| == nel == |multiset(Live(s))|;
    assert out == out[..nel] + out[nel..];
  }

  /** A heap that tracks the empty slots and everything added, once reordered. */
  lemma ReorderedIsAnswer(c: C, k: nat, added: seq<Pair>, s: seq<Pair>, out: seq<Pair>, nel: nat)
    requires |s| == k == |out| && Tracks(c, s, Repeat(c.Pad(), k) + added) && AllLive(added)
    requires nel <= k && multiset(out[..nel]) == multiset(Live(s)) && InOrder(c, out[..nel])
    requires out[nel..] == Repeat(c.Pad(), k - nel)
    ensures IsAnswer(c, k, added, out)
  {
    var seen := Repeat(c.Pad(), k) + added;
    forall p | p in s
      ensures p.id != -1 || p == c.Pad()
    {
      assert p in multiset(s) && p in multiset(seen);
    }
    ReorderedContents(c, k, s, out, nel);
    TracksPermuted(c, s, out, seen, seen);
    forall j | nel <= j < k
      ensures out[j] == c.Pad()
    {
      assert out[j] == out[nel..][j - nel];
    }
    PaddedIsSorted(c, k, added, out, nel);
    SortedTableIsAnswer(c, k, added, out);
  }

  lemma NeutralsAtHand(c: C, k: nat, added: seq<Pair>)
    ensures multiset(Vals(Repeat(c.Pad(), k) + added))[c.Neutral()] >= k
  {
    assert Vals(Repeat(c.Pad(), k) + added) == Repeat(c.Neutral(), k) + Vals(added);
    RepeatCount(c.Neutral(), k, c.Neutral());
  }

  lemma PaddedIsSorted(c: C, k: nat, added: seq<Pair>, out: seq<Pair>, nel: nat)
    requires nel <= k == |out| && Tracks(c, out, Repeat(c.Pad(), k) + added)
    requires InOrder(c, out[..nel])
    requires forall j :: nel <= j < k ==> out[j] == c.Pad()
    ensures Sorted(c, Vals(out))
  {
    NeutralsAtHand(c, k, added);
    NoneWorseThanNeutral(c, k, multiset(Vals(out)), multiset(Vals(Repeat(c.Pad(), k) + added)));
    forall i, j | 0 <= i < j < k
      ensures !c.Cmp(Vals(out)[i], Vals(out)[j])
    {
      if j < nel {
        assert out[..nel][i] == out[i] && out[..nel][j] == out[j];
      } else {
        assert Vals(out)[i] in multiset(Vals(out));
      }
    }
  }

  // ----- what a reservoir may throw away -----

  ghost predicate CoveredBy(c: C, held: multiset<int>, n: nat, d: int, q: multiset<int>) {
    q <= held && |q| == n && forall x :: x in q ==> !c.Cmp(x, d)
  }

  /** `held` has `n` distances none of which is worse than `d`, so `d` is not
      needed among the `n` best. */
  ghost predicate Covers(c: C, held: multiset<int>, n: nat, d: int) {
    exists q :: CoveredBy(c, held, n, d, q)
  }

  lemma CoversGrows(c: C, held: multiset<int>, held': multiset<int>, n: nat, d: int)
    requires held <= held' && Covers(c, held, n, d)
    ensures Covers(c, held', n, d)
  {
    var q :| CoveredBy(c, held, n, d, q);
    assert CoveredBy(c, held', n, d, q);
  }

  lemma CoversWorse(c: C, held: multiset<int>, n: nat, d: int, d': int)
    requires !c.Cmp(d, d') && Covers(c, held, n, d)
    ensures Covers(c, held, n, d')
  {
    var q :| CoveredBy(c, held, n, d, q);
    assert CoveredBy(c, held, n, d', q);
  }

  lemma {:induction false} SubmultisetOfSize<T>(m: multiset<T>, n: nat) returns (q: multiset<T>)
    requires n <= |m|
    ensures q <= m && |q| == n
    decreases |m|
  {
    if n == |m| {
      q := m;
    } else {
      var x :| x in m;
      q := SubmultisetOfSize(m - multiset{x}, n);
    }
  }

  lemma AllNotWorseCover(c: C, held: multiset<int>, n: nat, d: int)
    requires n <= |held| && forall x :: x in held ==> !c.Cmp(x, d)
    ensures Covers(c, held, n, d)
  {
    var q := SubmultisetOfSize(held, n);
    assert CoveredBy(c, held, n, d, q);
  }

  /** Keeping a best part of at least `n` distances keeps every cover. */
  lemma CoversShrinks(c: C, held: multiset<int>, kept: multiset<int>, n: nat, d: int)
    requires IsBest(c, kept, held) && n <= |kept| && Covers(c, held, n, d)
    ensures Covers(c, kept, n, d)
  {
    var q :| CoveredBy(c, held, n, d, q);
    if q <= kept {
      assert CoveredBy(c, kept, n, d, q);
    } else {
      var x := Excess(q, kept);
      assert x in held - kept;
      AllNotWorseCover(c, kept, n, d);
    }
  }

  /** The `n` best of a set that covers `d` are not worse than `d`. */
  lemma BestNotWorseThanCovered(c: C, best: multiset<int>, held: multiset<int>, n: nat, d: int)
    requires IsBest(c, best, held) && |best| == n && Covers(c, held, n, d)
    ensures forall h :: h in best ==> !c.Cmp(h, d)
  {
    var q :| CoveredBy(c, held, n, d, q);
    forall h | h in best
      ensures !c.Cmp(h, d)
    {
      if q <= best {
        SubmultisetOfSameSize(q, best);
      } else {
        var x := Excess(q, best);
        assert x in held - best;
      }
    }
  }

  /** Adding distances that are covered does not change the best part. */
  lemma CoveredCanGo(c: C, best: multiset<int>, held: multiset<int>, n: nat, gone: multiset<int>)
    requires IsBest(c, best, held) && |best| == n
    requires forall d :: d in gone ==> Covers(c, held, n, d)
    ensures IsBest(c, best, held + gone)
  {
    forall h, r | h in best && r in held + gone - best
      ensures !c.Cmp(h, r)
    {
      if r in held - best {
      } else {
        assert r in gone;
        BestNotWorseThanCovered(c, best, held, n, r);
      }
    }
  }

  /** The state of a reservoir for the `n` best: everything added is stored or
      was dropped; what was dropped, or will be for not beating `threshold`, is
      covered by what is stored or does not even beat an empty slot. */
  ghost predicate Reservoir(c: C, n: nat, stored: seq<Pair>, dropped: seq<Pair>, added: seq<Pair>, threshold: int) {
    && multiset(stored + dropped) == multiset(added)
    && (forall p :: p in stored ==> c.Cmp(c.Neutral(), p.val))
    && !c.Cmp(threshold, c.Neutral())
    && Needless(c, n, stored, threshold)
    && forall d :: d in dropped ==> Needless(c, n, stored, d.val)
  }

  ghost predicate Needless(c: C, n: nat, stored: seq<Pair>, d: int) {
    !c.Cmp(c.Neutral(), d) || Covers(c, multiset(Vals(stored)), n, d)
  }

  lemma ReservoirThreshold(c: C, n: nat, stored: seq<Pair>, dropped: seq<Pair>, added: seq<Pair>, threshold: int)
    requires Reservoir(c, n, stored, dropped, added, threshold)
    ensures !c.Cmp(threshold, c.Neutral())
  {
  }

  lemma ReservoirStore(c: C, n: nat, stored: seq<Pair>, dropped: seq<Pair>, added: seq<Pair>, threshold: int, p: Pair)
    requires Reservoir(c, n, stored, dropped, added, threshold) && c.Cmp(c.Neutral(), p.val)
    ensures Reservoir(c, n, stored + [p], dropped, added + [p], threshold)
  {
    assert multiset(stored + [p] + dropped) == multiset(stored + dropped) + multiset{p};
    assert Vals(stored + [p]) == Vals(stored) + [p.val];
    forall d | Needless(c, n, stored, d)
      ensures Needless(c, n, stored + [p], d)
    {
      if c.Cmp(c.Neutral(), d) {
        CoversGrows(c, multiset(Vals(stored)), multiset(Vals(stored + [p])), n, d);
      }
    }
  }

  lemma ReservoirSkip(c: C, n: nat, stored: seq<Pair>, dropped: seq<Pair>, added: seq<Pair>, threshold: int, p: Pair)
    requires Reservoir(c, n, stored, dropped, added, threshold) && !c.Cmp(threshold, p.val)
    ensures Reservoir(c, n, stored, dropped + [p], added + [p], threshold)
  {
    assert stored + (dropped + [p]) == stored + dropped + [p];
    if c.Cmp(c.Neutral(), p.val) {
      CoversWorse(c, multiset(Vals(stored)), n, threshold, p.val);
    }
  }

  lemma ReservoirShrink(c: C, n: nat, stored: seq<Pair>, dropped: seq<Pair>, added: seq<Pair>, threshold: int,
                        kept: seq<Pair>, gone: seq<Pair>, threshold': int)
    requires Reservoir(c, n, stored, dropped, added, threshold)
    requires multiset(kept + gone) == multiset(stored) && n <= |kept| && gone != []
    requires forall p :: p in kept ==> !c.Cmp(p.val, threshold')
    requires forall p :: p in gone ==> !c.Cmp(threshold', p.val)
    ensures Reservoir(c, n, kept, gone + dropped, added, threshold')
  {
    var ks, gs := multiset(Vals(kept)), multiset(Vals(gone));
    assert multiset(kept + (gone + dropped)) == multiset(stored + dropped);
    ValsMultiset(kept + gone, stored);
    assert Vals(kept + gone) == Vals(kept) + Vals(gone);
    assert multiset(Vals(stored)) == ks + gs;
    forall p | p in kept + gone
      ensures p in stored
    {
      assert p in multiset(kept + gone);
    }
    assert gone[0] in kept + gone;
    KeptIsBest(c, kept, gone, threshold');
    AllNotWorseCover(c, ks, n, threshold');
    forall d | d in dropped
      ensures Needless(c, n, kept, d.val)
    {
      if c.Cmp(c.Neutral(), d.val) {
        CoversShrinks(c, ks + gs, ks, n, d.val);
      }
    }
    forall d | d in gone
      ensures Needless(c, n, kept, d.val)
    {
      CoversWorse(c, ks, n, threshold', d.val);
    }
  }

  lemma KeptIsBest(c: C, kept: seq<Pair>, gone: seq<Pair>, threshold: int)
    requires forall p :: p in kept ==> !c.Cmp(p.val, threshold)
    requires forall p :: p in gone ==> !c.Cmp(threshold, p.val)
    ensures forall x :: x in multiset(Vals(kept)) ==> !c.Cmp(x, threshold)
    ensures IsBest(c, multiset(Vals(kept)), multiset(Vals(kept)) + multiset(Vals(gone)))
  {
    forall x | x in multiset(Vals(kept))
      ensures !c.Cmp(x, threshold)
    {
      var i :| 0 <= i < |kept| && Vals(kept)[i] == x;
      assert kept[i] in kept;
    }
    forall x | x in multiset(Vals(gone))
      ensures !c.Cmp(threshold, x)
    {
      var i :| 0 <= i < |gone| && Vals(gone)[i] == x;
      assert gone[i] in gone;
    }
    assert multiset(Vals(kept)) + multiset(Vals(gone)) - multiset(Vals(kept)) == multiset(Vals(gone));
  }

  lemma ValsConcat(a: seq<Pair>, b: seq<Pair>)
    ensures Vals(a + b) == Vals(a) + Vals(b)
    ensures multiset(Vals(a + b)) == multiset(Vals(a)) + multiset(Vals(b))
  {
    assert Vals(a + b) == Vals(a) + Vals(b);
  }

  lemma ValsPads(c: C, n: nat)
    ensures Vals(Repeat(c.Pad(), n)) == Repeat(c.Neutral(), n)
    ensures forall x :: x in multiset(Vals(Repeat(c.Pad(), n))) ==> x == c.Neutral()
  {
  }

  /** What was dropped is covered by the stored entries and `n` empty slots. */
  lemma DroppedIsCovered(c: C, n: nat, stored: seq<Pair>, d: int)
    requires Needless(c, n, stored, d)
    ensures Covers(c, multiset(Vals(Repeat(c.Pad(), n) + stored)), n, d)
  {
    var pads := Repeat(c.Pad(), n);
    ValsConcat(pads, stored);
    ValsPads(c, n);
    if c.Cmp(c.Neutral(), d) {
      CoversGrows(c, multiset(Vals(stored)), multiset(Vals(pads + stored)), n, d);
    } else {
      AllNotWorseCover(c, multiset(Repeat(c.Neutral(), n)), n, d);
      CoversGrows(c, multiset(Vals(pads)), multiset(Vals(pads + stored)), n, d);
    }
  }

  /** The `n` best of the stored entries and `n` empty slots are the `n` best of
      everything added and `n` empty slots. */
  lemma ReservoirBest(c: C, n: nat, stored: seq<Pair>, dropped: seq<Pair>, added: seq<Pair>, threshold: int,
                      best: seq<Pair>)
    requires Reservoir(c, n, stored, dropped, added, threshold)
    requires |best| == n && Tracks(c, best, Repeat(c.Pad(), n) + stored)
    ensures Tracks(c, best, Repeat(c.Pad(), n) + added)
  {
    var pads := Repeat(c.Pad(), n);
    assert pads + stored + dropped == pads + (stored + dropped);
    DroppedCanGo(c, n, stored, dropped, best);
    TracksPermuted(c, best, best, pads + stored + dropped, pads + added);
  }

  lemma DroppedCanGo(c: C, n: nat, stored: seq<Pair>, dropped: seq<Pair>, best: seq<Pair>)
    requires forall d :: d in dropped ==> Needless(c, n, stored, d.val)
    requires |best| == n && Tracks(c, best, Repeat(c.Pad(), n) + stored)
    ensures Tracks(c, best, Repeat(c.Pad(), n) + stored + dropped)
  {
    var held := Repeat(c.Pad(), n) + stored;
    ValsConcat(held, dropped);
    forall d | d in multiset(Vals(dropped))
      ensures Covers(c, multiset(Vals(held)), n, d)
    {
      var i :| 0 <= i < |dropped| && Vals(dropped)[i] == d;
      assert dropped[i] in dropped;
      DroppedIsCovered(c, n, stored, d);
    }
    CoveredCanGo(c, multiset(Vals(best)), multiset(Vals(held)), n, multiset(Vals(dropped)));
  }

  lemma StoredNotWorse(c: C, stored: seq<Pair>)
    requires forall p :: p in stored ==> c.Cmp(c.Neutral(), p.val)
    ensures forall h :: h in multiset(Vals(stored)) ==> c.Cmp(c.Neutral(), h)
  {
    forall h | h in multiset(Vals(stored))
      ensures c.Cmp(c.Neutral(), h)
    {
      var i :| 0 <= i < |stored| && Vals(stored)[i] == h;
      assert stored[i] in stored;
    }
  }

  /** Everything stored beats an empty slot, so empty slots do not matter once
      `n` entries are stored ... */
  lemma PadsDoNotMatter(c: C, n: nat, stored: seq<Pair>, best: seq<Pair>)
    requires forall p :: p in stored ==> c.Cmp(c.Neutral(), p.val)
    requires Tracks(c, best, stored)
    ensures Tracks(c, best, Repeat(c.Pad(), n) + stored)
  {
    ValsConcat(Repeat(c.Pad(), n), stored);
    ValsPads(c, n);
    StoredNotWorse(c, stored);
  }

  /** ... and with fewer stored, the stored entries and the empty slots that are
      left are the best. */
  lemma StoredAndPads(c: C, n: nat, stored: seq<Pair>)
    requires |stored| <= n && forall p :: p in stored ==> c.Cmp(c.Neutral(), p.val)
    ensures Tracks(c, stored + Repeat(c.Pad(), n - |stored|), Repeat(c.Pad(), n) + stored)
  {
    var left, used := Repeat(c.Pad(), n - |stored|), Repeat(c.Pad(), |stored|);
    assert Repeat(c.Pad(), n) + stored == used + left + stored;
    assert multiset(used + left + stored) == multiset(stored + left + used);
    ValsConcat(stored, left);
    ValsConcat(stored + left, used);
    ValsPads(c, |stored|);
    ValsPads(c, n - |stored|);
    StoredNotWorse(c, stored);
    assert Tracks(c, stored + left, stored + left + used);
    TracksPermuted(c, stored + left, stored + left, stored + left + used, Repeat(c.Pad(), n) + stored);
  }

  // ----- what an answer says, without the comparison object -----

  /** An answer is in order, takes from the results what it reports, has nothing worse than an
      empty slot, and leaves out nothing better than what it has. */
  lemma AnswerParts(c: C, k: nat, added: seq<Pair>, out: seq<Pair>)
    requires IsAnswer(c, k, added, out)
    ensures |out| == k && multiset(out) <= multiset(added) + multiset(Repeat(c.Pad(), k))
    ensures forall i, j :: 0 <= i < j < k ==> !c.Cmp(out[i].val, out[j].val)
    ensures forall i :: 0 <= i < k ==> !c.Cmp(out[i].val, c.Neutral())
    ensures forall p, i :: p in multiset(added) - multiset(out) && 0 <= i < k ==> !c.Cmp(out[i].val, p.val)
  {
    hide Sorted, KBest.KBest;
    var vals, all := Vals(out), Vals(added) + Repeat(c.Neutral(), k);
    KBestIs(c, k, Vals(added), vals);
    InOrderByPlace(c, vals);
    RepeatCount(c.Neutral(), k, c.Neutral());
    assert multiset(all) == multiset(Vals(added)) + multiset(Repeat(c.Neutral(), k));
    NoneWorseThanNeutral(c, k, multiset(vals), multiset(all));
    forall i | 0 <= i < k
      ensures !c.Cmp(out[i].val, c.Neutral())
      ensures forall p :: p in multiset(added) - multiset(out) ==> !c.Cmp(out[i].val, p.val)
    {
      assert vals[i] in multiset(vals);
      forall p | p in multiset(added) - multiset(out)
        ensures !c.Cmp(out[i].val, p.val)
      {
        LeftOutValue(c, k, added, out, p);
      }
    }
  }

  lemma InOrderByPlace(c: C, vals: seq<int>)
    requires Sorted(c, vals)
    ensures forall i, j :: 0 <= i < j < |vals| ==> !c.Cmp(vals[i], vals[j])
  {
  }

  /** A result that is left out leaves its distance out. */
  lemma LeftOutValue(c: C, k: nat, added: seq<Pair>, out: seq<Pair>, p: Pair)
    requires multiset(out) <= multiset(Repeat(c.Pad(), k) + added) && p in multiset(added) - multiset(out)
    ensures p.val in multiset(Vals(added) + Repeat(c.Neutral(), k)) - multiset(Vals(out))
  {
    var seen := Repeat(c.Pad(), k) + added;
    var rest := RestOf(seen, out);
    ValsMultiset(out + rest, seen);
    ValsConcat(out, rest);
    assert multiset(seen) == multiset(Repeat(c.Pad(), k)) + multiset(added);
    assert p in multiset(rest);
    var j :| 0 <= j < |rest| && rest[j] == p;
    assert Vals(rest)[j] == p.val;
    assert Vals(seen) == Repeat(c.Neutral(), k) + Vals(added);
    assert multiset(Vals(added) + Repeat(c.Neutral(), k)) == multiset(Vals(seen));
  }

  lemma RestOf(seen: seq<Pair>, out: seq<Pair>) returns (rest: seq<Pair>)
    requires multiset(out) <= multiset(seen)
    ensures multiset(out + rest) == multiset(seen)
  {
    rest := SeqOf(multiset(seen) - multiset(out));
  }

  lemma {:induction false} SeqOf<T>(m: multiset<T>) returns (s: seq<T>)
    ensures multiset(s) == m
    decreases |m|
  {
    if |m| == 0 {
      s := [];
    } else {
      var x :| x in m;
      s := SeqOf(m - multiset{x});
      s := s + [x];
    }
  }

  /** When every result beats an empty slot, as many as there is room for come first and the
      other slots are empty. */
  lemma AnswerFront(c: C, k: nat, added: seq<Pair>, out: seq<Pair>)
    requires IsAnswer(c, k, added, out) && forall p :: p in added ==> c.Cmp(c.Neutral(), p.val)
    ensures var m := if |added| < k then |added| else k;
            && |out| == k && multiset(out[..m]) <= multiset(added)
            && forall i :: m <= i < k ==> out[i] == c.Pad()
  {
    hide IsAnswer;
    AnswerParts(c, k, added, out);
    var n := FirstPad(c, out);
    forall i | n <= i < k
      ensures out[i] == c.Pad()
    {
      assert out[i] in multiset(out);
      assert out[i] in multiset(Repeat(c.Pad(), k)) || out[i] in multiset(added);
    }
    FrontIsAdded(c, k, added, out, n);
    SubmultisetSize(multiset(out[..n]), multiset(added));
    if n < |added| && n < k {
      var q := LeftOver(c, added, out, n);
      assert false;
    }
  }

  lemma LeftOver(c: C, added: seq<Pair>, out: seq<Pair>, n: nat) returns (q: Pair)
    requires n < |added| && n <= |out| && multiset(out[..n]) <= multiset(added)
    requires c.Pad() !in added && forall i :: n <= i < |out| ==> out[i] == c.Pad()
    ensures q in multiset(added) - multiset(out) && q in added
  {
    var rest := multiset(added) - multiset(out[..n]);
    assert |rest| == |added| - n;
    q :| q in rest;
    assert out == out[..n] + out[n..];
    assert q in added;
    assert q !in multiset(out[n..]);
  }

  lemma FirstPad(c: C, out: seq<Pair>) returns (n: nat)
    ensures n <= |out| && c.Pad() !in out[..n] && (n < |out| ==> out[n] == c.Pad())
  {
    n := 0;
    while n < |out| && out[n] != c.Pad()
      invariant n <= |out| && c.Pad() !in out[..n]
    {
      n := n + 1;
    }
  }

  lemma FrontIsAdded(c: C, k: nat, added: seq<Pair>, out: seq<Pair>, n: nat)
    requires n <= |out| && multiset(out) <= multiset(added) + multiset(Repeat(c.Pad(), k)) && c.Pad() !in out[..n]
    ensures multiset(out[..n]) <= multiset(added)
  {
    assert out == out[..n] + out[n..];
    forall p | p in multiset(out[..n])
      ensures multiset(out[..n])[p] <= multiset(added)[p]
    {
      RepeatCount(c.Pad(), k, p);
      assert multiset(out)[p] <= (multiset(added) + multiset(Repeat(c.Pad(), k)))[p];
    }
  }

}
