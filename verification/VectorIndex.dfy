/** The ID-mapped FAISS index, as far as the vector engine relies on it: training,
    adding and removing succeed, and a search gives the best entries in order.
    Callers see these contracts only; the bodies are one way to meet them. */
module VectorIndex {
  import opened KBest
  import opened OrderedKeyValue
  import opened VectorRecords
  import opened Wrappers

  ghost predicate DistinctIds(rows: seq<Row>) {
    forall i, j :: 0 <= i < j < |rows| ==> rows[i].id != rows[j].id
  }

  /** The rows without those of one id. */
  function Dropped(rows: seq<Row>, id: Id): seq<Row> {
    if rows == [] then []
    else Dropped(rows[..|rows| - 1], id) + if rows[|rows| - 1].id == id then [] else [rows[|rows| - 1]]
  }

  lemma {:induction false} DroppedIds(rows: seq<Row>, id: Id)
    ensures forall r :: r in Dropped(rows, id) ==> r in rows && r.id != id
  {
    if rows != [] {
      DroppedIds(rows[..|rows| - 1], id);
    }
  }

  lemma {:induction false} DroppedCount(rows: seq<Row>, id: Id, row: Row)
    ensures multiset(Dropped(rows, id))[row] == if row.id == id then 0 else multiset(rows)[row]
  {
    if rows != [] {
      DroppedCount(rows[..|rows| - 1], id, row);
      assert rows == rows[..|rows| - 1] + [rows[|rows| - 1]];
    }
  }

  /** Removing an id keeps the other ids and their vectors. */
  lemma {:induction false} DroppedIsRemoved(rows: seq<Row>, id: Id)
    ensures Latest(Dropped(rows, id)) == Latest(rows) - {id}
  {
    if rows != [] {
      var front, last := rows[..|rows| - 1], rows[|rows| - 1];
      DroppedIsRemoved(front, id);
      if last.id == id {
        assert Dropped(rows, id) == Dropped(front, id);
        assert Latest(rows) - {id} == Latest(front) - {id};
      } else {
        LastRow(Dropped(front, id), last, 0, 0);
        assert Latest(rows) - {id} == (Latest(front) - {id})[last.id := last.vec];
      }
    }
  }

  lemma NothingDropped(id: Id)
    ensures Dropped([], id) == []
  {
  }

  lemma {:induction false} DroppedIsDistinct(rows: seq<Row>, id: Id)
    requires DistinctIds(rows)
    ensures DistinctIds(Dropped(rows, id))
  {
    if rows != [] {
      var front, last := rows[..|rows| - 1], rows[|rows| - 1];
      DroppedIsDistinct(front, id);
      DroppedIds(front, id);
      if last.id != id {
        AddedIsDistinct(Dropped(front, id), last);
      }
    }
  }

  lemma AddedIsDistinct(rows: seq<Row>, row: Row)
    requires DistinctIds(rows) && forall r :: r in rows ==> r.id != row.id
    ensures DistinctIds(rows + [row])
  {
  }

  // ----- searching -----

  /** `ranking` lists all of `hits`, best first. */
  ghost predicate Ranks(c: C, ranking: seq<Pair>, hits: seq<Pair>) {
    BestFirst(c, ranking) && multiset(ranking) == multiset(hits)
  }

  /** `found` lists the best `n` of `hits`, best first, filled up with label -1. */
  ghost predicate Finds(c: C, hits: seq<Pair>, n: nat, found: seq<Pair>) {
    exists ranking :: Ranks(c, ranking, hits) && found == (ranking + Repeat(c.Pad(), n))[..n]
  }

  class IdMapIndex {
    const removable: bool
    const c: C
    const distance: (Vector, Vector) -> int
    var trained: bool
    var rows: seq<Row>

    constructor (removable: bool, c: C, distance: (Vector, Vector) -> int, trained: bool, rows: seq<Row>)
      ensures this.removable == removable && this.c == c && this.distance == distance
      ensures this.trained == trained && this.rows == rows
    {
      this.removable, this.c, this.distance := removable, c, distance;
      this.trained, this.rows := trained, rows;
    }

    /** `nTrain` is what training needs for this type of index. */
    method Train(pool: seq<Vector>, ghost nTrain: nat)
      requires |pool| >= nTrain
      modifies this`trained
      ensures trained
    {
      trained := true;
    }

    method AddWithIDs(more: seq<Row>)
      requires trained
      modifies this`rows
      ensures rows == old(rows) + more
    {
      rows := rows + more;
    }

    /** Some index types do not support removal and keep what they have. */
    method RemoveIDs(id: Id)
      modifies this`rows
      ensures rows == if removable then Dropped(old(rows), id) else old(rows)
    {
      if removable {
        rows := Dropped(rows, id);
      }
    }

    /** Every entry with its distance from the query. */
    function Hits(query: Vector): (hits: seq<Pair>)
      reads this
      ensures |hits| == |rows|
      ensures forall i :: 0 <= i < |rows| ==> hits[i].val == distance(query, rows[i].vec) && hits[i].id == rows[i].id
    {
      seq(|rows|, i requires 0 <= i < |rows| reads this => Pair(distance(query, rows[i].vec), rows[i].id))
    }

    /** The best `n` entries in order, filled up with label -1. */
    method Search(query: Vector, n: nat) returns (found: seq<Pair>)
      ensures Finds(c, Hits(query), n, found)
    {
      var ranking := Sort(c, Hits(query));
      SortCorrect(c, Hits(query));
      assert Ranks(c, ranking, Hits(query));
      found := (ranking + Repeat(c.Pad(), n))[..n];
    }
  }

  // ----- keeping the entries that are still tracked -----

  function Tracked(s: seq<Pair>, ids: set<Id>): (live: seq<Pair>)
    ensures |live| <= |s|
    ensures forall p :: p in live ==> p.id in ids
  {
    if s == [] then []
    else Tracked(s[..|s| - 1], ids) + if s[|s| - 1].id in ids then [s[|s| - 1]] else []
  }

  lemma {:induction false} TrackedConcat(a: seq<Pair>, b: seq<Pair>, ids: set<Id>)
    ensures Tracked(a + b, ids) == Tracked(a, ids) + Tracked(b, ids)
    decreases |b|
  {
    if b == [] {
      assert a + b == a;
    } else {
      var front, last := b[..|b| - 1], b[|b| - 1];
      TrackedConcat(a, front, ids);
      assert (a + b)[..|a + b| - 1] == a + front && (a + b)[|a + b| - 1] == last;
    }
  }

  lemma {:induction false} TrackedCount(s: seq<Pair>, ids: set<Id>, p: Pair)
    ensures multiset(Tracked(s, ids))[p] == if p.id in ids then multiset(s)[p] else 0
  {
    if s != [] {
      TrackedCount(s[..|s| - 1], ids, p);
      assert s == s[..|s| - 1] + [s[|s| - 1]];
    }
  }

  lemma {:induction false} TrackedIsBestFirst(c: C, s: seq<Pair>, ids: set<Id>)
    requires BestFirst(c, s)
    ensures BestFirst(c, Tracked(s, ids))
    ensures forall p :: p in Tracked(s, ids) ==> p in s
  {
    hide BestFirst;
    if s != [] {
      var front, last := s[..|s| - 1], s[|s| - 1];
      LastIsWorst(c, s);
      TrackedIsBestFirst(c, front, ids);
      if last.id in ids {
        WorstBehind(c, Tracked(front, ids), last);
      } else {
        assert Tracked(s, ids) == Tracked(front, ids);
      }
    } else {
      assert Tracked(s, ids) == s;
    }
  }

  lemma LastIsWorst(c: C, s: seq<Pair>)
    requires BestFirst(c, s) && s != []
    ensures BestFirst(c, s[..|s| - 1]) && forall p :: p in s ==> p == s[|s| - 1] || !c.Cmp(p.val, s[|s| - 1].val)
  {
    var front, last := s[..|s| - 1], s[|s| - 1];
    forall i, j | 0 <= i < j < |front|
      ensures !c.Cmp(Vals(front)[i], Vals(front)[j])
    {
      assert !c.Cmp(Vals(s)[i], Vals(s)[j]);
    }
    forall p | p in s && p != last
      ensures !c.Cmp(p.val, last.val)
    {
      var i :| 0 <= i < |s| && s[i] == p;
      assert !c.Cmp(Vals(s)[i], Vals(s)[|s| - 1]);
    }
  }

  lemma WorstBehind(c: C, s: seq<Pair>, p: Pair)
    requires BestFirst(c, s) && forall q :: q in s ==> q == p || !c.Cmp(q.val, p.val)
    ensures BestFirst(c, s + [p])
  {
    var t := s + [p];
    forall i, j | 0 <= i < j < |t|
      ensures !c.Cmp(Vals(t)[i], Vals(t)[j])
    {
      if j == |s| {
        assert t[i] in s;
      } else {
        assert !c.Cmp(Vals(s)[i], Vals(s)[j]);
      }
    }
  }

  /** A ranking of all hits, filtered, ranks the tracked hits. */
  lemma TrackedRanks(c: C, ranking: seq<Pair>, hits: seq<Pair>, ids: set<Id>)
    requires Ranks(c, ranking, hits)
    ensures Ranks(c, Tracked(ranking, ids), Tracked(hits, ids))
    ensures |Tracked(ranking, ids)| == |Tracked(hits, ids)| && |ranking| == |hits|
  {
    hide BestFirst, Tracked;
    TrackedIsBestFirst(c, ranking, ids);
    forall p
      ensures multiset(Tracked(ranking, ids))[p] == multiset(Tracked(hits, ids))[p]
    {
      TrackedCount(ranking, ids, p);
      TrackedCount(hits, ids, p);
    }
    assert multiset(Tracked(ranking, ids)) == multiset(Tracked(hits, ids));
    assert |multiset(Tracked(ranking, ids))| == |multiset(Tracked(hits, ids))|;
    assert |multiset(ranking)| == |multiset(hits)|;
  }

  lemma {:induction false} TrackedPads(c: C, n: nat, ids: set<Id>)
    ensures Tracked(Repeat(c.Pad(), n), ids) == if -1 in ids then Repeat(c.Pad(), n) else []
    ensures |Tracked(Repeat(c.Pad(), n), ids)| == if -1 in ids then n else 0
  {
    if n > 0 {
      TrackedPads(c, n - 1, ids);
      assert Repeat(c.Pad(), n)[..n - 1] == Repeat(c.Pad(), n - 1);
    }
  }

  /** `out` holds as many of the best tracked hits as it has room for. */
  ghost predicate BestOf(c: C, hits: seq<Pair>, out: seq<Pair>) {
    exists rest :: Ranks(c, out + rest, hits)
  }

  /** What filtering the best `2k` of all hits gives: the best of the tracked hits,
      unless label -1 is tracked and the padding takes part, which it does just when
      there are fewer than `2k` hits and fewer than `k` tracked ones.  And then there
      are `k` of them, or all, whenever the hits that are not tracked leave room for as
      many among the first `2k`. */
  lemma FilteredSearch(c: C, hits: seq<Pair>, ids: set<Id>, k: nat, found: seq<Pair>, out: seq<Pair>)
    requires k >= 1 && Finds(c, hits, 2 * k, found)
    requires out == Tracked(found, ids)[..Min(k, |Tracked(found, ids)|)]
    ensures BestOf(c, Tracked(hits, ids), out) <==> -1 !in ids || |hits| >= 2 * k || |Tracked(hits, ids)| >= k
    ensures BestOf(c, Tracked(hits, ids), out)
            && |hits| - |Tracked(hits, ids)| + Min(k, |Tracked(hits, ids)|) <= 2 * k ==>
              |out| == Min(k, |Tracked(hits, ids)|)
  {
    hide Ranks, Tracked, BestOf;
    var ranking :| Ranks(c, ranking, hits) && found == (ranking + Repeat(c.Pad(), 2 * k))[..2 * k];
    FilteredRanking(c, hits, ranking, ids, k, found, out);
  }

  lemma FilteredRanking(c: C, hits: seq<Pair>, ranking: seq<Pair>, ids: set<Id>, k: nat,
                        found: seq<Pair>, out: seq<Pair>)
    requires k >= 1 && Ranks(c, ranking, hits)
    requires found == (ranking + Repeat(c.Pad(), 2 * k))[..2 * k]
    requires out == Tracked(found, ids)[..Min(k, |Tracked(found, ids)|)]
    ensures BestOf(c, Tracked(hits, ids), out) <==> -1 !in ids || |hits| >= 2 * k || |Tracked(hits, ids)| >= k
    ensures BestOf(c, Tracked(hits, ids), out)
            && |hits| - |Tracked(hits, ids)| + Min(k, |Tracked(hits, ids)|) <= 2 * k ==>
              |out| == Min(k, |Tracked(hits, ids)|)
  {
    hide Ranks, Tracked, BestOf, Repeat;
    var m := Min(2 * k, |ranking|);
    var live, front := Tracked(ranking, ids), Tracked(ranking[..m], ids);
    var pads := Tracked(Repeat(c.Pad(), 2 * k - m), ids);
    FoundInFront(c, ranking, ids, k, m, found);
    FrontOfTracked(ranking, ids, m);
    TrackedRanks(c, ranking, hits, ids);
    TrackedPads(c, 2 * k - m, ids);
    FirstOf(live, front, pads, k, out);
    if pads == [] || |front| >= k {
      PrefixIsBestOf(c, Tracked(hits, ids), live, out);
    } else if BestOf(c, Tracked(hits, ids), out) {
      BestOfSize(c, Tracked(hits, ids), out);
    }
  }

  lemma FrontOfTracked(ranking: seq<Pair>, ids: set<Id>, m: nat)
    requires m <= |ranking|
    ensures Tracked(ranking[..m], ids) <= Tracked(ranking, ids)
    ensures |Tracked(ranking, ids)| <= |Tracked(ranking[..m], ids)| + |ranking| - m
    ensures m == |ranking| ==> Tracked(ranking[..m], ids) == Tracked(ranking, ids)
  {
    hide Tracked;
    assert ranking == ranking[..m] + ranking[m..];
    TrackedConcat(ranking[..m], ranking[m..], ids);
    assert m == |ranking| ==> ranking[..m] == ranking;
  }

  lemma FirstOf(live: seq<Pair>, front: seq<Pair>, pads: seq<Pair>, k: nat, out: seq<Pair>)
    requires front <= live && out == (front + pads)[..Min(k, |front + pads|)]
    ensures pads == [] || |front| >= k ==> out <= live && |out| == Min(k, |front|)
    ensures pads != [] && |front| < k ==> |out| > |front|
  {
  }

  lemma BestOfSize(c: C, hits: seq<Pair>, out: seq<Pair>)
    requires BestOf(c, hits, out)
    ensures |out| <= |hits|
  {
    var rest :| Ranks(c, out + rest, hits);
    assert |multiset(out + rest)| == |multiset(hits)|;
  }

  lemma FoundInFront(c: C, ranking: seq<Pair>, ids: set<Id>, k: nat, m: nat, found: seq<Pair>)
    requires m == Min(2 * k, |ranking|)
    requires found == (ranking + Repeat(c.Pad(), 2 * k))[..2 * k]
    ensures Tracked(found, ids) == Tracked(ranking[..m], ids) + Tracked(Repeat(c.Pad(), 2 * k - m), ids)
  {
    hide Tracked;
    assert found == ranking[..m] + Repeat(c.Pad(), 2 * k - m);
    TrackedConcat(ranking[..m], Repeat(c.Pad(), 2 * k - m), ids);
  }

  lemma PrefixIsBestOf(c: C, hits: seq<Pair>, ranking: seq<Pair>, out: seq<Pair>)
    requires Ranks(c, ranking, hits) && out <= ranking
    ensures BestOf(c, hits, out)
  {
    assert ranking == out + ranking[|out|..];
  }

  /** That bound is sharp: when untracked hits come first and leave less room, fewer
      results are left than there should be, although they are the best ones. */
  lemma TooManyUntracked(ranking: seq<Pair>, ids: set<Id>, k: nat, n: nat)
    requires k >= 1 && n <= |ranking| && forall i :: 0 <= i < n ==> ranking[i].id !in ids
    requires n + Min(k, |Tracked(ranking, ids)|) > 2 * k && Tracked(ranking, ids) != []
    ensures |Tracked(ranking[..Min(2 * k, |ranking|)], ids)| < Min(k, |Tracked(ranking, ids)|)
  {
    hide Tracked;
    var m := Min(2 * k, |ranking|);
    var a := Min(n, m);
    assert ranking[..m] == ranking[..a] + ranking[a..m];
    TrackedConcat(ranking[..a], ranking[a..m], ids);
    NoneTracked(ranking[..a], ids);
  }

  lemma {:induction false} NoneTracked(s: seq<Pair>, ids: set<Id>)
    requires forall i :: 0 <= i < |s| ==> s[i].id !in ids
    ensures Tracked(s, ids) == []
  {
    if s != [] {
      NoneTracked(s[..|s| - 1], ids);
    }
  }

  /** With a vector stored under id -1 the padding comes back as results just then,
      behind all the tracked hits. */
  lemma PaddingIsReturned(c: C, hits: seq<Pair>, ids: set<Id>, k: nat, found: seq<Pair>, out: seq<Pair>)
    requires k >= 1 && Finds(c, hits, 2 * k, found) && -1 in ids
    requires out == Tracked(found, ids)[..Min(k, |Tracked(found, ids)|)]
    requires |hits| < 2 * k && |Tracked(hits, ids)| < k
    ensures exists live, n :: Ranks(c, live, Tracked(hits, ids)) && n > 0 && out == live + Repeat(c.Pad(), n)
  {
    hide Ranks, Tracked;
    var ranking :| Ranks(c, ranking, hits) && found == (ranking + Repeat(c.Pad(), 2 * k))[..2 * k];
    TrackedRanks(c, ranking, hits, ids);
    FoundInFront(c, ranking, ids, k, |ranking|, found);
    FrontOfTracked(ranking, ids, |ranking|);
    TrackedPads(c, 2 * k - |ranking|, ids);
    PadsBehind(Tracked(found, ids), Tracked(ranking, ids), c.Pad(), 2 * k - |ranking|, k, out);
  }

  lemma PadsBehind(found: seq<Pair>, live: seq<Pair>, pad: Pair, n: nat, k: nat, out: seq<Pair>)
    requires |live| < k && n > 0 && found == live + Repeat(pad, n) && out == found[..Min(k, |found|)]
    ensures |out| > |live| && out == live + Repeat(pad, |out| - |live|)
  {
  }

  // ----- which rows are reported -----

  /** The entries of `s` are those of `t`, each at a place of its own. */
  ghost predicate Places<T>(s: seq<T>, t: seq<T>, f: seq<nat>) {
    && |f| == |s| == |t|
    && (forall i :: 0 <= i < |f| ==> f[i] < |t| && t[f[i]] == s[i])
    && (forall i, j :: 0 <= i < j < |f| ==> f[i] != f[j])
  }

  lemma {:induction false} SamePlaces<T>(s: seq<T>, t: seq<T>) returns (f: seq<nat>)
    requires multiset(s) == multiset(t)
    ensures Places(s, t, f)
    decreases |s|
  {
    hide Places;
    if s == [] {
      f := [];
      NoPlaces(s, t);
    } else {
      var q := PlaceOfLast(s, t);
      var g := SamePlaces(s[..|s| - 1], Without(t, q));
      f := Shifted(g, q) + [q];
      OneMorePlace(s, t, q, g);
    }
  }

  lemma PlaceOfLast<T>(s: seq<T>, t: seq<T>) returns (q: nat)
    requires s != [] && multiset(s) == multiset(t)
    ensures q < |t| && t[q] == s[|s| - 1] && multiset(s[..|s| - 1]) == multiset(Without(t, q))
  {
    hide Without;
    var n := |s| - 1;
    assert s[n] in multiset(t);
    q :| 0 <= q < |t| && t[q] == s[n];
    WithoutMultiset(t, q);
    assert s == s[..n] + [s[n]];
  }

  lemma NoPlaces<T>(s: seq<T>, t: seq<T>)
    requires s == [] && multiset(s) == multiset(t)
    ensures Places(s, t, [])
  {
    assert |multiset(t)| == 0;
  }

  lemma OneMorePlace<T>(s: seq<T>, t: seq<T>, q: nat, g: seq<nat>)
    requires s != [] && q < |t| && t[q] == s[|s| - 1] && Places(s[..|s| - 1], Without(t, q), g)
    ensures Places(s, t, Shifted(g, q) + [q])
  {
    var f := Shifted(g, q) + [q];
    forall i | 0 <= i < |g|
      ensures f[i] < |t| && t[f[i]] == s[i] && f[i] != q
    {
      assert Without(t, q)[g[i]] == s[..|s| - 1][i];
    }
    forall i, j | 0 <= i < j < |f|
      ensures f[i] != f[j]
    {
      if j < |g| {
        assert g[i] != g[j];
      }
    }
  }

  /** Places in a list from which the one at `q` was taken, as places in the list. */
  function Shifted(g: seq<nat>, q: nat): (f: seq<nat>)
    ensures |f| == |g| && forall i :: 0 <= i < |g| ==> f[i] == if g[i] < q then g[i] else g[i] + 1
  {
    seq(|g|, i requires 0 <= i < |g| => if g[i] < q then g[i] else g[i] + 1)
  }

  lemma EveryPlace<T>(s: seq<T>, t: seq<T>, f: seq<nat>, q: nat) returns (i: nat)
    requires Places(s, t, f) && q < |t|
    ensures i < |f| && f[i] == q
  {
    var taken := TakenPlaces(f, |f|);
    assert f[..|f|] == f;
    if q !in taken {
      assert taken <= UpTo(|t|) - {q};
      SubsetSize(taken, UpTo(|t|) - {q});
      assert false;
    }
    i :| 0 <= i < |f| && f[i] == q;
  }

  lemma {:induction false} TakenPlaces(f: seq<nat>, n: nat) returns (taken: set<nat>)
    requires n <= |f| && forall i, j :: 0 <= i < j < |f| ==> f[i] != f[j]
    ensures |taken| == n && forall p :: p in taken <==> p in f[..n]
  {
    taken := {};
    if n > 0 {
      taken := TakenPlaces(f, n - 1);
      assert f[n - 1] !in taken;
      taken := taken + {f[n - 1]};
      assert f[..n] == f[..n - 1] + [f[n - 1]];
    }
  }

  function UpTo(n: nat): (all: set<nat>)
    ensures |all| == n && forall p :: p in all <==> 0 <= p < n
  {
    if n == 0 then {} else UpTo(n - 1) + {n - 1}
  }

  lemma SubsetSize(a: set<nat>, b: set<nat>)
    requires a <= b
    ensures |a| <= |b|
  {
    assert b == a + (b - a);
  }

  lemma {:induction false} TrackedPlaces(s: seq<Pair>, ids: set<Id>) returns (js: seq<nat>)
    ensures |js| == |Tracked(s, ids)|
    ensures forall i :: 0 <= i < |js| ==> js[i] < |s| && Tracked(s, ids)[i] == s[js[i]]
    ensures forall i, j :: 0 <= i < j < |js| ==> js[i] < js[j]
    ensures forall m :: 0 <= m < |s| ==> (s[m].id in ids <==> m in js)
  {
    hide Tracked;
    js := [];
    TrackedStep(s, ids);
    if s != [] {
      var n := |s| - 1;
      js := TrackedPlaces(s[..n], ids);
      assert forall i :: 0 <= i < |js| ==> js[i] < n && s[..n][js[i]] == s[js[i]];
      if s[n].id in ids {
        js := js + [n];
      }
    }
  }

  lemma TrackedStep(s: seq<Pair>, ids: set<Id>)
    ensures s == [] ==> Tracked(s, ids) == []
    ensures s != [] ==>
              var front, last := s[..|s| - 1], s[|s| - 1];
              Tracked(s, ids) == Tracked(front, ids) + if last.id in ids then [last] else []
  {
  }

  function PlacesOf(s: seq<Pair>, ids: set<Id>): (places: set<nat>)
    ensures forall m :: m in places <==> 0 <= m < |s| && s[m].id in ids
  {
    set m | 0 <= m < |s| && s[m].id in ids
  }

  lemma {:induction false} TrackedSize(s: seq<Pair>, ids: set<Id>)
    ensures |Tracked(s, ids)| == |PlacesOf(s, ids)|
  {
    hide Tracked, PlacesOf;
    TrackedStep(s, ids);
    if s == [] {
      assert PlacesOf(s, ids) == {};
    } else {
      var n := |s| - 1;
      TrackedSize(s[..n], ids);
      NextPlace(s, ids, n);
    }
  }

  lemma NextPlace(s: seq<Pair>, ids: set<Id>, n: nat)
    requires |s| == n + 1
    ensures |PlacesOf(s, ids)| == |PlacesOf(s[..n], ids)| + if s[n].id in ids then 1 else 0
  {
    hide PlacesOf;
    var before := PlacesOf(s[..n], ids);
    assert forall m :: m in before ==> s[..n][m] == s[m];
    assert PlacesOf(s, ids) == before + if s[n].id in ids then {n} else {};
  }

  /** A best part of the tracked hits, hit by hit: each entry is one of them, no two are the same,
      and none that is left out is nearer. */
  lemma BestPlaces(c: C, hits: seq<Pair>, ids: set<Id>, out: seq<Pair>) returns (places: seq<nat>)
    requires BestOf(c, Tracked(hits, ids), out)
    ensures |places| == |out|
    ensures forall i :: 0 <= i < |out| ==> places[i] < |hits| && hits[places[i]] == out[i] && out[i].id in ids
    ensures forall i, j :: 0 <= i < j < |out| ==> places[i] != places[j]
    ensures forall i, j :: 0 <= i < j < |out| ==> !c.Cmp(out[i].val, out[j].val)
    ensures forall m, i :: 0 <= m < |hits| && hits[m].id in ids && m !in places && 0 <= i < |out| ==>
              !c.Cmp(out[i].val, hits[m].val)
  {
    hide Tracked, Places, BestFirst;
    var tracked := Tracked(hits, ids);
    var rest :| Ranks(c, out + rest, tracked);
    InOrderByVal(c, out + rest);
    var f := SamePlaces(out + rest, tracked);
    var js := TrackedPlaces(hits, ids);
    places := Composed(out, rest, tracked, hits, f, js);
    assert forall i :: 0 <= i < |out| ==> (out + rest)[i] == out[i];
    forall m, i | 0 <= m < |hits| && hits[m].id in ids && m !in places && 0 <= i < |out|
      ensures !c.Cmp(out[i].val, hits[m].val)
    {
      var n := LeftOutPlace(out, rest, tracked, hits, f, js, places, m);
    }
  }

  lemma Composed(out: seq<Pair>, rest: seq<Pair>, tracked: seq<Pair>, hits: seq<Pair>, f: seq<nat>, js: seq<nat>)
    returns (places: seq<nat>)
    requires Places(out + rest, tracked, f) && |js| == |tracked|
    requires forall i :: 0 <= i < |js| ==> js[i] < |hits| && tracked[i] == hits[js[i]]
    requires forall i, j :: 0 <= i < j < |js| ==> js[i] < js[j]
    ensures |places| == |out| && forall i :: 0 <= i < |out| ==> f[i] < |js| && places[i] == js[f[i]]
    ensures forall i :: 0 <= i < |out| ==> places[i] < |hits| && hits[places[i]] == out[i] && out[i] in tracked
    ensures forall i, j :: 0 <= i < j < |out| ==> places[i] != places[j]
  {
    assert forall i :: 0 <= i < |out| ==> (out + rest)[i] == out[i] == tracked[f[i]];
    places := seq(|out|, i requires 0 <= i < |out| => js[f[i]]);
    forall i, j | 0 <= i < j < |out|
      ensures places[i] != places[j]
    {
      assert f[i] != f[j];
      assert js[f[i]] != js[f[j]];
    }
  }

  lemma LeftOutPlace(out: seq<Pair>, rest: seq<Pair>, tracked: seq<Pair>, hits: seq<Pair>, f: seq<nat>, js: seq<nat>,
                     places: seq<nat>, m: nat) returns (n: nat)
    requires Places(out + rest, tracked, f) && |js| == |tracked| && m in js && m !in places
    requires forall i :: 0 <= i < |js| ==> js[i] < |hits| && tracked[i] == hits[js[i]]
    requires |places| == |out| && forall i :: 0 <= i < |out| ==> f[i] < |js| && places[i] == js[f[i]]
    ensures |out| <= n < |out + rest| && m < |hits| && (out + rest)[n] == hits[m]
  {
    var q :| 0 <= q < |js| && js[q] == m;
    n := EveryPlace(out + rest, tracked, f, q);
    assert forall i :: 0 <= i < |out| ==> places[i] != m;
  }

  lemma InOrderByVal(c: C, s: seq<Pair>)
    requires BestFirst(c, s)
    ensures forall i, j :: 0 <= i < j < |s| ==> !c.Cmp(s[i].val, s[j].val)
  {
    forall i, j | 0 <= i < j < |s|
      ensures !c.Cmp(s[i].val, s[j].val)
    {
      assert !c.Cmp(Vals(s)[i], Vals(s)[j]);
    }
  }
}
