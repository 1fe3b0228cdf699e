/** Binary heaps over sequences of pairs: the specification the array code in
    `Heap` is proved against.  Nodes are numbered from 1, as in the code. */
module HeapOrder {
  import opened OrderedKeyValue
  import opened KBest

  function Node(s: seq<Pair>, i: nat): Pair
    requires 1 <= i <= |s|
  {
    s[i - 1]
  }

  function Put(s: seq<Pair>, i: nat, p: Pair): (t: seq<Pair>)
    requires 1 <= i <= |s|
    ensures |t| == |s| && Node(t, i) == p
    ensures forall j :: 1 <= j <= |s| && j != i ==> Node(t, j) == Node(s, j)
  {
    s[i - 1 := p]
  }

  /** Node `j` is not worse than its father. */
  ghost predicate Ordered(c: C, s: seq<Pair>, j: nat)
    requires 2 <= j <= |s|
  {
    !c.Worse(Node(s, j), Node(s, j / 2))
  }

  ghost predicate IsHeap(c: C, s: seq<Pair>) {
    forall j :: 2 <= j <= |s| ==> Ordered(c, s, j)
  }

  /** The root is the worst entry, in distance as well as with ties broken. */
  lemma {:induction false} RootIsWorst(c: C, s: seq<Pair>, j: nat)
    requires IsHeap(c, s) && 1 <= j <= |s|
    ensures !c.Worse(Node(s, j), Node(s, 1)) && !c.Cmp(Node(s, j).val, Node(s, 1).val)
    ensures if c.CMin? then s[0].val <= s[j - 1].val else s[0].val >= s[j - 1].val
  {
    if j > 1 {
      assert Ordered(c, s, j);
      RootIsWorst(c, s, j / 2);
    }
  }

  lemma SmallIsHeap(c: C, s: seq<Pair>)
    requires |s| <= 1
    ensures IsHeap(c, s)
  {
  }

  lemma HeapTopIsWorst(c: C, s: seq<Pair>)
    requires IsHeap(c, s) && s != []
    ensures TopIsWorst(c, s)
  {
    forall i | 0 <= i < |s|
      ensures !c.Cmp(s[i].val, s[0].val)
    {
      RootIsWorst(c, s, i + 1);
    }
  }

  lemma PrefixIsHeap(c: C, s: seq<Pair>, n: nat)
    requires IsHeap(c, s) && n <= |s|
    ensures IsHeap(c, s[..n])
  {
    forall j | 2 <= j <= n
      ensures Ordered(c, s[..n], j)
    {
      assert Ordered(c, s, j);
    }
  }

  /** The hole at `i` can take `p` as far as the nodes above it are concerned,
      and everything around the hole is in order. */
  ghost predicate HoleBelow(c: C, s: seq<Pair>, i: nat, p: Pair)
    requires 1 <= i <= |s|
  {
    && (forall j :: 2 <= j <= |s| && j != i && j / 2 != i ==> Ordered(c, s, j))
    && (i > 1 ==> !c.Worse(p, Node(s, i / 2)))
    && (i > 1 ==> forall j :: 2 <= j <= |s| && j / 2 == i ==> !c.Worse(Node(s, j), Node(s, i / 2)))
  }

  /** The child the hole moves to: the worse one, the left one when it is alone. */
  function WorseChild(c: C, s: seq<Pair>, i: nat): (j: nat)
    requires 1 <= i && 2 * i <= |s|
    ensures i < j <= |s| && j / 2 == i
    ensures forall k :: 2 <= k <= |s| && k / 2 == i ==> !c.Worse(Node(s, k), Node(s, j))
  {
    if 2 * i + 1 == |s| + 1 || c.Worse(Node(s, 2 * i), Node(s, 2 * i + 1)) then 2 * i else 2 * i + 1
  }

  function SiftDown(c: C, s: seq<Pair>, i: nat, p: Pair): (t: seq<Pair>)
    requires 1 <= i <= |s|
    ensures |t| == |s|
    decreases |s| - i
  {
    if 2 * i > |s| then Put(s, i, p)
    else
      var j := WorseChild(c, s, i);
      if c.Worse(p, Node(s, j)) then Put(s, i, p)
      else SiftDown(c, Put(s, i, Node(s, j)), j, p)
  }

  lemma SiftDownStop(c: C, s: seq<Pair>, i: nat, p: Pair)
    requires 1 <= i <= |s| < 2 * i
    ensures SiftDown(c, s, i, p) == Put(s, i, p)
  {
  }

  lemma SiftDownStep(c: C, s: seq<Pair>, i: nat, p: Pair, j: nat)
    requires 1 <= i && 2 * i <= |s|
    requires j == if 2 * i + 1 == |s| + 1 || c.Worse(Node(s, 2 * i), Node(s, 2 * i + 1)) then 2 * i else 2 * i + 1
    ensures SiftDown(c, s, i, p)
         == if c.Worse(p, Node(s, j)) then Put(s, i, p) else SiftDown(c, Put(s, i, Node(s, j)), j, p)
  {
  }

  lemma {:induction false} SiftDownIsHeap(c: C, s: seq<Pair>, i: nat, p: Pair)
    requires 1 <= i <= |s| && HoleBelow(c, s, i, p)
    ensures IsHeap(c, SiftDown(c, s, i, p))
    decreases |s| - i
  {
    if 2 * i <= |s| && !c.Worse(p, Node(s, WorseChild(c, s, i))) {
      var j := WorseChild(c, s, i);
      var t := Put(s, i, Node(s, j));
      forall m | 2 <= m <= |s| && m != j && m / 2 != j
        ensures Ordered(c, t, m)
      {
        if m != i && m / 2 != i { assert Ordered(c, s, m); }
      }
      forall m | 2 <= m <= |s| && m / 2 == j
        ensures !c.Worse(Node(t, m), Node(t, i))
      {
        assert Ordered(c, s, m);
      }
      SiftDownIsHeap(c, t, j, p);
    } else {
      var t := Put(s, i, p);
      forall m | 2 <= m <= |s|
        ensures Ordered(c, t, m)
      {
        if m != i && m / 2 != i { assert Ordered(c, s, m); }
      }
    }
  }

  lemma {:induction false} SiftDownContents(c: C, s: seq<Pair>, i: nat, p: Pair)
    requires 1 <= i <= |s|
    ensures multiset(SiftDown(c, s, i, p)) == multiset(Put(s, i, p))
    decreases |s| - i
  {
    if 2 * i <= |s| && !c.Worse(p, Node(s, WorseChild(c, s, i))) {
      var j := WorseChild(c, s, i);
      SiftDownContents(c, Put(s, i, Node(s, j)), j, p);
    }
  }

  /** Sifting down a copy of the last entry leaves the last slot as it was. */
  lemma {:induction false} SiftDownKeepsLast(c: C, s: seq<Pair>, i: nat)
    requires 1 <= i <= |s|
    ensures Node(SiftDown(c, s, i, Node(s, |s|)), |s|) == Node(s, |s|)
    decreases |s| - i
  {
    var p := Node(s, |s|);
    if 2 * i <= |s| && !c.Worse(p, Node(s, WorseChild(c, s, i))) {
      var j := WorseChild(c, s, i);
      SiftDownKeepsLast(c, Put(s, i, Node(s, j)), j);
    }
  }

  ghost predicate HoleAbove(c: C, s: seq<Pair>, i: nat, p: Pair)
    requires 1 <= i <= |s|
  {
    && (forall j :: 2 <= j <= |s| && j != i && j / 2 != i ==> Ordered(c, s, j))
    && (forall j :: 2 <= j <= |s| && j / 2 == i ==> !c.Worse(Node(s, j), p))
    && (i > 1 ==> forall j :: 2 <= j <= |s| && j / 2 == i ==> !c.Worse(Node(s, j), Node(s, i / 2)))
  }

  function SiftUp(c: C, s: seq<Pair>, i: nat, p: Pair): (t: seq<Pair>)
    requires 1 <= i <= |s|
    ensures |t| == |s|
    decreases i
  {
    if i > 1 && c.Worse(p, Node(s, i / 2)) then SiftUp(c, Put(s, i, Node(s, i / 2)), i / 2, p)
    else Put(s, i, p)
  }

  lemma SiftUpStep(c: C, s: seq<Pair>, i: nat, p: Pair)
    requires 1 <= i <= |s|
    ensures SiftUp(c, s, i, p)
         == if i > 1 && c.Worse(p, Node(s, i / 2)) then SiftUp(c, Put(s, i, Node(s, i / 2)), i / 2, p) else Put(s, i, p)
  {
  }

  lemma {:induction false} SiftUpIsHeap(c: C, s: seq<Pair>, i: nat, p: Pair)
    requires 1 <= i <= |s| && HoleAbove(c, s, i, p)
    ensures IsHeap(c, SiftUp(c, s, i, p))
    decreases i
  {
    if i > 1 && c.Worse(p, Node(s, i / 2)) {
      var t := Put(s, i, Node(s, i / 2));
      forall m | 2 <= m <= |s| && m != i / 2 && m / 2 != i / 2
        ensures Ordered(c, t, m)
      {
        if m / 2 != i { assert Ordered(c, s, m); }
      }
      forall m | 2 <= m <= |s| && m / 2 == i / 2
        ensures !c.Worse(Node(t, m), p)
        ensures i / 2 > 1 ==> !c.Worse(Node(t, m), Node(t, i / 2 / 2))
      {
        if m != i { assert Ordered(c, s, m); }
        if i / 2 > 1 { assert Ordered(c, s, i / 2); }
      }
      SiftUpIsHeap(c, t, i / 2, p);
    } else {
      var t := Put(s, i, p);
      forall m | 2 <= m <= |s|
        ensures Ordered(c, t, m)
      {
        if m != i && m / 2 != i { assert Ordered(c, s, m); }
      }
    }
  }

  lemma {:induction false} SiftUpContents(c: C, s: seq<Pair>, i: nat, p: Pair)
    requires 1 <= i <= |s|
    ensures multiset(SiftUp(c, s, i, p)) == multiset(Put(s, i, p))
    decreases i
  {
    if i > 1 && c.Worse(p, Node(s, i / 2)) {
      SiftUpContents(c, Put(s, i, Node(s, i / 2)), i / 2, p);
    }
  }

  /** Replacing the root of a heap. */
  lemma ReplaceTopCorrect(c: C, s: seq<Pair>, p: Pair)
    requires IsHeap(c, s) && s != []
    ensures IsHeap(c, SiftDown(c, s, 1, p))
    ensures multiset(SiftDown(c, s, 1, p)) == multiset(s[0 := p])
  {
    hide SiftDown;
    SiftDownIsHeap(c, s, 1, p);
    SiftDownContents(c, s, 1, p);
  }

  lemma MultisetCancel<T>(a: multiset<T>, b: multiset<T>, x: T)
    requires a + multiset{x} == b + multiset{x}
    ensures a == b
  {
    assert a == a + multiset{x} - multiset{x};
    assert b == b + multiset{x} - multiset{x};
  }

  /** Removing the root of a heap: what is left, in all but the last slot. */
  lemma PopCorrect(c: C, s: seq<Pair>, n: nat, t: seq<Pair>)
    requires IsHeap(c, s) && |s| == n + 1
    requires SiftDown(c, s, 1, Node(s, n + 1))[..n] == t
    ensures IsHeap(c, t)
    ensures multiset(t) == multiset(s) - multiset{s[0]}
  {
    hide IsHeap, SiftDown;
    var last := Node(s, n + 1);
    var full := SiftDown(c, s, 1, last);
    ReplaceTopCorrect(c, s, last);
    SiftDownKeepsLast(c, s, 1);
    PrefixIsHeap(c, full, n);
    assert full == t + [last];
    MultisetCancel(multiset(t), multiset(s) - multiset{s[0]}, last);
  }

  /** Adding an entry in a new last slot, whatever that slot held. */
  lemma PushCorrect(c: C, s: seq<Pair>, p: Pair)
    requires s != [] && IsHeap(c, s[..|s| - 1])
    ensures IsHeap(c, SiftUp(c, s, |s|, p))
    ensures multiset(SiftUp(c, s, |s|, p)) == multiset(s[..|s| - 1]) + multiset{p}
  {
    forall j | 2 <= j <= |s| && j != |s|
      ensures Ordered(c, s, j)
    {
      assert Ordered(c, s[..|s| - 1], j);
    }
    SiftUpIsHeap(c, s, |s|, p);
    SiftUpContents(c, s, |s|, p);
    assert Put(s, |s|, p) == s[..|s| - 1] + [p];
  }

  // ----- entries that stand for a result -----

  /** The entries whose label is not -1, in order. */
  function Live(s: seq<Pair>): (t: seq<Pair>) {
    if s == [] then []
    else if s[0].id != -1 then [s[0]] + Live(s[1..])
    else Live(s[1..])
  }

  lemma {:induction false} LiveCount(s: seq<Pair>, p: Pair)
    ensures multiset(Live(s))[p] == if p.id != -1 then multiset(s)[p] else 0
  {
    if s != [] {
      LiveCount(s[1..], p);
      assert s == [s[0]] + s[1..];
    }
  }

  lemma LiveWithout(s: seq<Pair>, t: seq<Pair>, p: Pair)
    requires p in s && multiset(t) == multiset(s) - multiset{p}
    ensures multiset(Live(t))
         == if p.id != -1 then multiset(Live(s)) - multiset{p} else multiset(Live(s))
    ensures p.id != -1 ==> p in multiset(Live(s))
  {
    var want := if p.id != -1 then multiset(Live(s)) - multiset{p} else multiset(Live(s));
    LiveCount(s, p);
    assert multiset(s)[p] > 0;
    forall q
      ensures multiset(Live(t))[q] == want[q]
    {
      LiveCount(s, q);
      LiveCount(t, q);
    }
  }

  /** Best entries first. */
  ghost predicate InOrder(c: C, s: seq<Pair>) {
    forall i, j :: 0 <= i < j < |s| ==> !c.Worse(s[i], s[j])
  }

  /** With the highest or the lowest distance first, and of equal distances the highest or the
      lowest label. */
  lemma InOrderIs(c: C, s: seq<Pair>)
    ensures InOrder(c, s) <==>
              forall i, j :: 0 <= i < j < |s| ==>
                if c.CMin? then s[i].val > s[j].val || (s[i].val == s[j].val && s[i].id >= s[j].id)
                else s[i].val < s[j].val || (s[i].val == s[j].val && s[i].id <= s[j].id)
  {
    if InOrder(c, s) {
      assert forall i, j :: 0 <= i < j < |s| ==> !c.Worse(s[i], s[j]);
    }
  }

  /** The father of node `j`, if it is in `h`, does not beat a neutral entry. */
  ghost predicate PadFits(c: C, h: seq<Pair>, j: nat) {
    1 <= j / 2 <= |h| ==> !c.Worse(c.Pad(), Node(h, j / 2))
  }

  ghost predicate PadsFit(c: C, h: seq<Pair>, m: nat) {
    forall j :: |h| < j <= |h| + m ==> PadFits(c, h, j)
  }

  /** A heap filled up with `m` neutral entries is a heap just when none of the fathers
      that these get beats a neutral entry. */
  lemma PaddedHeap(c: C, h: seq<Pair>, m: nat)
    requires IsHeap(c, h)
    ensures IsHeap(c, h + Repeat(c.Pad(), m)) <==> PadsFit(c, h, m)
  {
    var s := h + Repeat(c.Pad(), m);
    if PadsFit(c, h, m) {
      forall j | 2 <= j <= |s|
        ensures Ordered(c, s, j)
      {
        if j <= |h| { assert Ordered(c, h, j); } else { assert PadFits(c, h, j); }
      }
    }
    if IsHeap(c, s) {
      forall j | |h| < j <= |h| + m
        ensures PadFits(c, h, j)
      {
        if 1 <= j / 2 <= |h| { assert Ordered(c, s, j); }
      }
    }
  }

  /** That is always so when one of the two parts is empty, and never otherwise when
      every entry beats the neutral one. */
  lemma PadsFitWhenAlone(c: C, h: seq<Pair>, m: nat)
    ensures h == [] || m == 0 ==> PadsFit(c, h, m)
    ensures (forall p :: p in h ==> c.Worse(c.Pad(), p)) && h != [] && m > 0 ==> !PadsFit(c, h, m)
  {
    if h != [] && m > 0 {
      var j := |h| + 1;
      assert Node(h, j / 2) in h;
      assert PadFits(c, h, j) ==> !c.Worse(c.Pad(), Node(h, j / 2));
    }
  }

  // ----- from a heap to a sorted list -----

  ghost predicate NoneWorse(c: C, a: seq<Pair>, b: seq<Pair>) {
    forall p, q :: p in a && q in b ==> !c.Worse(p, q)
  }

  /** `heap` is what is left of the heap `s0`; `done` are the live entries taken
      out so far, in order and none worse than anything left. */
  ghost predicate Reordering(c: C, s0: seq<Pair>, heap: seq<Pair>, done: seq<Pair>) {
    && IsHeap(c, heap)
    && InOrder(c, done)
    && multiset(done) + multiset(Live(heap)) == multiset(Live(s0))
    && NoneWorse(c, heap, done)
  }

  lemma ReorderStart(c: C, s0: seq<Pair>)
    requires IsHeap(c, s0)
    ensures Reordering(c, s0, s0, [])
  {
  }

  lemma ReorderStep(c: C, s0: seq<Pair>, heap: seq<Pair>, done: seq<Pair>, heap': seq<Pair>)
    requires heap != [] && Reordering(c, s0, heap, done)
    requires IsHeap(c, heap') && multiset(heap') == multiset(heap) - multiset{heap[0]}
    ensures Reordering(c, s0, heap', if heap[0].id != -1 then [heap[0]] + done else done)
  {
    LiveWithout(heap, heap', heap[0]);
    RestNotWorse(c, heap, heap', done);
    PrependInOrder(c, heap[0], done);
  }

  lemma PrependInOrder(c: C, top: Pair, done: seq<Pair>)
    requires InOrder(c, done) && NoneWorse(c, [top], done)
    ensures InOrder(c, [top] + done)
    ensures multiset([top] + done) == multiset{top} + multiset(done)
  {
    var t := [top] + done;
    forall i, j | 0 <= i < j < |t|
      ensures !c.Worse(t[i], t[j])
    {
      assert t[j] == done[j - 1] && top in [top];
      if i > 0 { assert t[i] == done[i - 1]; }
    }
  }

  /** What is left after taking out the root is not worse than the root. */
  lemma RestNotWorse(c: C, heap: seq<Pair>, heap': seq<Pair>, done: seq<Pair>)
    requires heap != [] && IsHeap(c, heap) && NoneWorse(c, heap, done)
    requires multiset(heap') == multiset(heap) - multiset{heap[0]}
    ensures NoneWorse(c, heap', done) && NoneWorse(c, heap', [heap[0]] + done)
    ensures NoneWorse(c, [heap[0]], done)
  {
    forall p | p in heap'
      ensures p in heap && !c.Worse(p, heap[0])
    {
      assert p in multiset(heap') && p in multiset(heap);
      var j :| 0 <= j < |heap| && heap[j] == p;
      RootIsWorst(c, heap, j + 1);
    }
  }
}
