/** What "the k best of everything added" means, independently of any of the
    structures that compute it. */
module KBest {
  import opened OrderedKeyValue

  /** `held` is a best part of `seen`: nothing left out beats anything held. */
  ghost predicate IsBest(c: C, held: multiset<int>, seen: multiset<int>) {
    held <= seen &&
    forall h, r :: h in held && r in seen - held ==> !c.Cmp(h, r)
  }

  /** There is only one best part of each size. */
  lemma IsBestUnique(c: C, a: multiset<int>, b: multiset<int>, seen: multiset<int>)
    requires IsBest(c, a, seen) && IsBest(c, b, seen) && |a| == |b|
    ensures a == b
  {
    if a != b {
      var x := Surplus(a, b, seen);
      var y := Surplus(b, a, seen);
    }
  }

  lemma Surplus<T>(a: multiset<T>, b: multiset<T>, seen: multiset<T>) returns (x: T)
    requires a != b && |a| == |b| && a <= seen
    ensures x in a && a[x] > b[x] && x in seen - b
  {
    if a <= b {
      SubmultisetOfSameSize(a, b);
    }
    x := Excess(a, b);
  }

  lemma Excess<T>(a: multiset<T>, b: multiset<T>) returns (x: T)
    requires !(a <= b)
    ensures x in a && a[x] > b[x]
  {
    if forall y :: y in a ==> a[y] <= b[y] {
      CountsGiveSubmultiset(a, b);
    }
    x :| x in a && a[x] > b[x];
  }

  lemma CountsGiveSubmultiset<T>(a: multiset<T>, b: multiset<T>)
    requires forall y :: y in a ==> a[y] <= b[y]
    ensures a <= b
  {
  }

  lemma SubmultisetOfSameSize<T>(a: multiset<T>, b: multiset<T>)
    requires a <= b && |a| == |b|
    ensures a == b
  {
    assert b == a + (b - a);
  }

  /** A newcomer that beats the worst held value takes its place. */
  lemma IsBestReplace(c: C, held: multiset<int>, seen: multiset<int>, worst: int, x: int)
    requires IsBest(c, held, seen)
    requires worst in held && forall h :: h in held ==> !c.Cmp(h, worst)
    requires c.Cmp(worst, x)
    ensures IsBest(c, held - multiset{worst} + multiset{x}, seen + multiset{x})
  {
    var held' := held - multiset{worst} + multiset{x};
    var seen' := seen + multiset{x};
    assert seen' - held' == (seen - held) + multiset{worst};
  }

  /** A newcomer that does not beat the worst held value changes nothing. */
  lemma IsBestIgnore(c: C, held: multiset<int>, seen: multiset<int>, worst: int, x: int)
    requires IsBest(c, held, seen)
    requires worst in held && forall h :: h in held ==> !c.Cmp(h, worst)
    requires !c.Cmp(worst, x)
    ensures IsBest(c, held, seen + multiset{x})
  {
    assert seen + multiset{x} - held == (seen - held) + multiset{x};
  }

  // ----- sorting, the reference definition -----

  ghost predicate Sorted(c: C, s: seq<int>) {
    forall i, j :: 0 <= i < j < |s| ==> !c.Cmp(s[i], s[j])
  }

  ghost predicate BestFirst(c: C, s: seq<Pair>) {
    Sorted(c, Vals(s))
  }

  function Insert(c: C, s: seq<Pair>, p: Pair): seq<Pair> {
    if s == [] then [p]
    else if c.Cmp(s[0].val, p.val) then [p] + s
    else [s[0]] + Insert(c, s[1..], p)
  }

  function Sort(c: C, s: seq<Pair>): seq<Pair> {
    if s == [] then [] else Insert(c, Sort(c, s[1..]), s[0])
  }

  /** An entry in front of a sorted list that it is not worse than. */
  lemma BestInFront(c: C, p: Pair, s: seq<Pair>)
    requires BestFirst(c, s) && forall q :: q in s ==> !c.Cmp(p.val, q.val)
    ensures BestFirst(c, [p] + s)
  {
    var t := [p] + s;
    forall i, j | 0 <= i < j < |t|
      ensures !c.Cmp(Vals(t)[i], Vals(t)[j])
    {
      if i == 0 {
        assert t[j] in s;
      } else {
        assert Vals(t)[i] == Vals(s)[i - 1] && Vals(t)[j] == Vals(s)[j - 1];
      }
    }
  }

  lemma HeadIsBest(c: C, s: seq<Pair>)
    requires BestFirst(c, s) && s != []
    ensures BestFirst(c, s[1..]) && forall q :: q in s ==> !c.Cmp(s[0].val, q.val)
  {
    forall i, j | 0 <= i < j < |s| - 1
      ensures !c.Cmp(Vals(s[1..])[i], Vals(s[1..])[j])
    {
      assert !c.Cmp(Vals(s)[i + 1], Vals(s)[j + 1]);
    }
    forall q | q in s
      ensures !c.Cmp(s[0].val, q.val)
    {
      var j :| 0 <= j < |s| && s[j] == q;
      assert j > 0 ==> !c.Cmp(Vals(s)[0], Vals(s)[j]);
    }
  }

  lemma {:induction false} InsertCorrect(c: C, s: seq<Pair>, p: Pair)
    requires BestFirst(c, s)
    ensures BestFirst(c, Insert(c, s, p))
    ensures multiset(Insert(c, s, p)) == multiset(s) + multiset{p}
  {
    hide BestFirst;
    if s == [] {
      BestInFront(c, p, s);
      assert [p] + s == [p];
    } else {
      HeadIsBest(c, s);
      if c.Cmp(s[0].val, p.val) {
        BestInFront(c, p, s);
      } else {
        InsertCorrect(c, s[1..], p);
        var t := Insert(c, s[1..], p);
        assert s == [s[0]] + s[1..];
        forall q | q in t
          ensures !c.Cmp(s[0].val, q.val)
        {
          assert q in multiset(t);
          if q != p { assert q in s[1..]; }
        }
        BestInFront(c, s[0], t);
      }
    }
  }

  lemma {:induction false} SortCorrect(c: C, s: seq<Pair>)
    ensures BestFirst(c, Sort(c, s))
    ensures multiset(Sort(c, s)) == multiset(s)
    ensures |Sort(c, s)| == |s|
  {
    if s == [] {
    } else {
      SortCorrect(c, s[1..]);
      InsertCorrect(c, Sort(c, s[1..]), s[0]);
      assert s == [s[0]] + s[1..];
    }
    assert |multiset(Sort(c, s))| == |multiset(s)|;
  }

  /** Sorted sequences with the same contents are the same sequence. */
  lemma {:induction false} SortedUnique(c: C, s: seq<int>, t: seq<int>)
    requires Sorted(c, s) && Sorted(c, t) && multiset(s) == multiset(t)
    ensures s == t
  {
    assert |multiset(s)| == |multiset(t)|;
    if s != [] {
      SameHead(c, s, t);
      assert Without(s, 0) == s[1..] && Without(t, 0) == t[1..];
      WithoutMultiset(s, 0);
      WithoutMultiset(t, 0);
      SortedUnique(c, s[1..], t[1..]);
    }
  }

  lemma SameHead(c: C, s: seq<int>, t: seq<int>)
    requires Sorted(c, s) && Sorted(c, t) && multiset(s) == multiset(t) && s != [] && t != []
    ensures s[0] == t[0]
  {
    assert s[0] in multiset(t) && t[0] in multiset(s);
    var i :| 0 <= i < |t| && t[i] == s[0];
    var j :| 0 <= j < |s| && s[j] == t[0];
    assert !c.Cmp(t[0], t[i]) && !c.Cmp(s[0], s[j]);
  }

  function Repeat<T>(x: T, k: nat): (s: seq<T>)
    ensures |s| == k && forall i :: 0 <= i < k ==> s[i] == x
  {
    seq(k, _ => x)
  }

  /** The k best of `vals`, best first, filled up with the neutral value. */
  function KBest(c: C, k: nat, vals: seq<int>): (best: seq<int>)
    ensures |best| == k
  {
    SortCorrect(c, Unlabelled(vals + Repeat(c.Neutral(), k)));
    Vals(Sort(c, Unlabelled(vals + Repeat(c.Neutral(), k))))[..k]
  }

  function Unlabelled(vals: seq<int>): (s: seq<Pair>)
    ensures |s| == |vals| && Vals(s) == vals
  {
    seq(|vals|, i requires 0 <= i < |vals| => Pair(vals[i], 0))
  }

  /** The first part of a sorted sequence is a best part of it. */
  lemma PrefixIsBest(c: C, best: seq<int>, rest: seq<int>)
    requires Sorted(c, best + rest)
    ensures Sorted(c, best) && IsBest(c, multiset(best), multiset(best + rest))
  {
    var all := best + rest;
    forall i, j | 0 <= i < j < |best|
      ensures !c.Cmp(best[i], best[j])
    {
      assert all[i] == best[i] && all[j] == best[j];
    }
    assert multiset(all) == multiset(best) + multiset(rest);
    assert multiset(all) - multiset(best) == multiset(rest);
    forall h, r | h in multiset(best) && r in multiset(rest)
      ensures !c.Cmp(h, r)
    {
      var i :| 0 <= i < |best| && best[i] == h;
      var j :| 0 <= j < |rest| && rest[j] == r;
      assert all[i] == h && all[|best| + j] == r;
    }
  }

  /** `KBest` is the one sorted best part of size `k` of `vals` and `k` neutral
      values. */
  lemma KBestIs(c: C, k: nat, vals: seq<int>, out: seq<int>)
    ensures out == KBest(c, k, vals)
      <==> |out| == k && Sorted(c, out)
           && IsBest(c, multiset(out), multiset(vals + Repeat(c.Neutral(), k)))
  {
    var all := vals + Repeat(c.Neutral(), k);
    var best := KBest(c, k, vals);
    var sorted := Sort(c, Unlabelled(all));
    SortCorrect(c, Unlabelled(all));
    ValsMultiset(sorted, Unlabelled(all));
    assert Vals(sorted) == best + Vals(sorted)[k..];
    PrefixIsBest(c, best, Vals(sorted)[k..]);
    if |out| == k && Sorted(c, out) && IsBest(c, multiset(out), multiset(all)) {
      IsBestUnique(c, multiset(out), multiset(best), multiset(all));
      SortedUnique(c, out, best);
    }
  }

  // ----- tables of (distance, label) pairs -----

  function Vals(s: seq<Pair>): (v: seq<int>)
    ensures |v| == |s| && forall i :: 0 <= i < |s| ==> v[i] == s[i].val
  {
    seq(|s|, i requires 0 <= i < |s| => s[i].val)
  }

  function Without<T>(s: seq<T>, i: nat): (t: seq<T>)
    requires i < |s|
    ensures |t| == |s| - 1
  {
    s[..i] + s[i + 1..]
  }

  lemma WithoutMultiset<T>(s: seq<T>, i: nat)
    requires i < |s|
    ensures multiset(s) == multiset(Without(s, i)) + multiset{s[i]}
    ensures multiset(Without(s, i)) == multiset(s) - multiset{s[i]}
  {
    assert s == s[..i] + [s[i]] + s[i + 1..];
  }

  lemma ValsWithout(s: seq<Pair>, i: nat)
    requires i < |s|
    ensures multiset(Without(s, i)) == multiset(s) - multiset{s[i]}
    ensures multiset(Vals(s)) == multiset(Vals(Without(s, i))) + multiset{s[i].val}
  {
    WithoutMultiset(s, i);
    WithoutMultiset(Vals(s), i);
    assert Vals(Without(s, i)) == Without(Vals(s), i);
  }

  lemma {:induction false} ValsMultiset(s: seq<Pair>, t: seq<Pair>)
    requires multiset(s) == multiset(t)
    ensures multiset(Vals(s)) == multiset(Vals(t))
    decreases |s|
  {
    if s == [] {
      assert |multiset(s)| == |multiset(t)|;
    } else {
      var p := s[0];
      assert p in multiset(t);
      var i :| 0 <= i < |t| && t[i] == p;
      ValsWithout(s, 0);
      ValsWithout(t, i);
      ValsMultiset(Without(s, 0), Without(t, i));
    }
  }

  /** `table` holds a best part of the distances of `seen`, and every entry of
      it was seen, label and all, at least as often as it is held. */
  ghost predicate Tracks(c: C, table: seq<Pair>, seen: seq<Pair>) {
    multiset(table) <= multiset(seen) &&
    IsBest(c, multiset(Vals(table)), multiset(Vals(seen)))
  }

  ghost predicate TopIsWorst(c: C, table: seq<Pair>) {
    table != [] && forall i :: 0 <= i < |table| ==> !c.Cmp(table[i].val, table[0].val)
  }

  lemma TracksReplace(c: C, table: seq<Pair>, seen: seq<Pair>, p: Pair, table': seq<Pair>)
    requires Tracks(c, table, seen)
    requires TopIsWorst(c, table)
    requires c.Cmp(table[0].val, p.val)
    requires multiset(table') == multiset(table[0 := p])
    ensures Tracks(c, table', seen + [p])
  {
    var held := multiset(Vals(table));
    var worst := table[0].val;
    ValsMultiset(table', table[0 := p]);
    assert Vals(table[0 := p]) == Vals(table)[0 := p.val];
    assert Vals(seen + [p]) == Vals(seen) + [p.val];
    assert worst == Vals(table)[0] && worst in held;
    forall h | h in held
      ensures !c.Cmp(h, worst)
    {
      var i :| 0 <= i < |table| && Vals(table)[i] == h;
    }
    IsBestReplace(c, held, multiset(Vals(seen)), worst, p.val);
  }

  lemma TracksIgnore(c: C, table: seq<Pair>, seen: seq<Pair>, p: Pair)
    requires Tracks(c, table, seen)
    requires TopIsWorst(c, table)
    requires !c.Cmp(table[0].val, p.val)
    ensures Tracks(c, table, seen + [p])
  {
    var held := multiset(Vals(table));
    var worst := table[0].val;
    assert Vals(seen + [p]) == Vals(seen) + [p.val];
    assert worst == Vals(table)[0] && worst in held;
    forall h | h in held
      ensures !c.Cmp(h, worst)
    {
      var i :| 0 <= i < |table| && Vals(table)[i] == h;
    }
    IsBestIgnore(c, held, multiset(Vals(seen)), worst, p.val);
  }

  lemma TracksItself(c: C, table: seq<Pair>)
    ensures Tracks(c, table, table)
  {
    assert multiset(Vals(table)) - multiset(Vals(table)) == multiset{};
  }

  // ----- the answer to a k-best query -----

  /** `out` answers a query for the `k` best of `added`: its distances are the
      `k` best, best first, and every entry was added (at least as often as it
      is reported) or is one of at most `k` empty slots. */
  ghost predicate IsAnswer(c: C, k: nat, added: seq<Pair>, out: seq<Pair>) {
    && Vals(out) == KBest(c, k, Vals(added))
    && multiset(out) <= multiset(Repeat(c.Pad(), k) + added)
  }

  /** With `k` neutral values to choose from, a best part of size at most `k`
      holds nothing worse than neutral. */
  lemma NoneWorseThanNeutral(c: C, k: nat, held: multiset<int>, seen: multiset<int>)
    requires IsBest(c, held, seen) && |held| <= k <= seen[c.Neutral()]
    ensures forall h :: h in held ==> !c.Cmp(h, c.Neutral())
  {
    var n := c.Neutral();
    forall h | h in held
      ensures !c.Cmp(h, n)
    {
      if h != n {
        assert held[n] < k by {
          assert multiset{h}[n := held[n]] <= held;
          SubmultisetSize(multiset{h}[n := held[n]], held);
        }
        assert n in seen - held;
      }
    }
  }

  lemma SubmultisetSize<T>(a: multiset<T>, b: multiset<T>)
    requires a <= b
    ensures |a| <= |b|
  {
    assert b == a + (b - a);
  }

  /** A table that tracks the empty slots and everything added becomes an answer
      once its entries are put in order. */
  lemma SortedTableIsAnswer(c: C, k: nat, added: seq<Pair>, out: seq<Pair>)
    requires |out| == k && Tracks(c, out, Repeat(c.Pad(), k) + added) && Sorted(c, Vals(out))
    ensures IsAnswer(c, k, added, out)
  {
    var n := Repeat(c.Neutral(), k);
    assert Vals(Repeat(c.Pad(), k) + added) == n + Vals(added);
    assert multiset(n + Vals(added)) == multiset(Vals(added) + n);
    KBestIs(c, k, Vals(added), Vals(out));
  }

  lemma TracksPermuted(c: C, table: seq<Pair>, table': seq<Pair>, seen: seq<Pair>, seen': seq<Pair>)
    requires multiset(table) == multiset(table') && multiset(seen) == multiset(seen')
    requires Tracks(c, table, seen)
    ensures Tracks(c, table', seen')
  {
    ValsMultiset(table, table');
    ValsMultiset(seen, seen');
  }
}
