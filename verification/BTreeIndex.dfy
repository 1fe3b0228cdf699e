/** The key index of `internal/index/BTreeIndex.go`: a tree in memory and an
    append-only image of it in a memory-mapped file.  The tree is a map; that it
    is sorted only decides in which order a compaction writes the entries, and any
    order will do. */
module BTreeIndex {
  import opened Bits
  import opened Bytes
  import opened Wrappers

  datatype Item = Item(key: Str, pos: nat)

  type Tree = map<Str, nat>

  /** An entry of the image.  Of the position only 32 bits are stored. */
  function EncodeItem(e: Item): (s: seq<byte>)
    ensures |s| == 8 + |e.key|
  {
    PutU32(|e.key|) + PutU32(e.pos) + e.key
  }

  function EncodeChain(es: seq<Item>): seq<byte> {
    if es == [] then [] else EncodeChain(es[..|es| - 1]) + EncodeItem(es[|es| - 1])
  }

  /** The tree that inserting the stored entries one by one gives. */
  function Applied(es: seq<Item>, m: Tree): Tree {
    if es == [] then m
    else
      var last := es[|es| - 1];
      Applied(es[..|es| - 1], m)[last.key := last.pos % TWO_32]
  }

  // ----- loading, as a function of the bytes -----

  datatype LoadStep = Stop(consumed: nat) | Insert(key: Str, pos: nat, rest: seq<byte>)

  function NextItem(s: seq<byte>): (step: LoadStep)
    ensures step.Insert? ==> |s| == 8 + |step.key| + |step.rest|
    ensures step.Stop? ==> step.consumed <= |s|
  {
    if |s| < 8 then Stop(0)
    else
      var keySize, pos := GetU32(s), GetU32(s[4..]);
      if 8 + keySize > |s| then Stop(8)
      else Insert(s[8..8 + keySize], pos, s[8 + keySize..])
  }

  function Load(s: seq<byte>, m: Tree): Tree
    decreases |s|
  {
    match NextItem(s)
    case Stop(_) => m
    case Insert(key, pos, rest) => Load(rest, m[key := pos])
  }

  function LoadLength(s: seq<byte>): (n: nat)
    ensures n <= |s|
    decreases |s|
  {
    match NextItem(s)
    case Stop(n) => n
    case Insert(key, pos, rest) => 8 + |key| + LoadLength(rest)
  }

  lemma NextItemEncoded(e: Item, tail: seq<byte>)
    ensures NextItem(EncodeItem(e) + tail) == Insert(e.key, e.pos % TWO_32, tail)
  {
    hide PutU32, GetU32;
    var s := EncodeItem(e) + tail;
    U32RoundTrip(|e.key|, PutU32(e.pos) + e.key + tail);
    assert s == PutU32(|e.key|) + (PutU32(e.pos) + e.key + tail);
    U32RoundTrip(e.pos, e.key + tail);
    assert s[4..] == PutU32(e.pos) + (e.key + tail);
    assert s[8..8 + |e.key|] == e.key && s[8 + |e.key|..] == tail;
  }

  /** The bytes of an entry: the length of the key, 32 bits of the position, and the key. */
  lemma ItemLayout(e: Item)
    ensures var s := EncodeItem(e); GetU32(s) == |e.key| && GetU32(s[4..]) == e.pos % 0x1_0000_0000 && s[8..] == e.key
  {
    hide PutU32, GetU32;
    U32RoundTrip(|e.key|, PutU32(e.pos) + e.key);
    assert EncodeItem(e) == PutU32(|e.key|) + (PutU32(e.pos) + e.key);
    U32RoundTrip(e.pos, e.key);
  }

  lemma ChainLast(es: seq<Item>, e: Item)
    ensures EncodeChain(es + [e]) == EncodeChain(es) + EncodeItem(e)
    ensures forall m :: Applied(es + [e], m) == Applied(es, m)[e.key := e.pos % TWO_32]
  {
    assert (es + [e])[..|es|] == es;
  }

  lemma ChainNone()
    ensures EncodeChain([]) == [] && forall m :: Applied([], m) == m
  {
  }

  /** A chain of entries is loaded entry by entry, before whatever follows. */
  lemma {:induction false} LoadChain(es: seq<Item>, tail: seq<byte>, m: Tree)
    ensures Load(EncodeChain(es) + tail, m) == Load(tail, Applied(es, m))
    ensures LoadLength(EncodeChain(es) + tail) == |EncodeChain(es)| + LoadLength(tail)
    decreases |es|
  {
    hide EncodeItem, EncodeChain, Applied, NextItem;
    ChainNone();
    if es == [] {
      assert EncodeChain(es) + tail == tail;
    } else {
      var front, e := es[..|es| - 1], es[|es| - 1];
      assert es == front + [e];
      ChainLast(front, e);
      assert EncodeChain(es) + tail == EncodeChain(front) + (EncodeItem(e) + tail);
      LoadChain(front, EncodeItem(e) + tail, m);
      NextItemEncoded(e, tail);
    }
  }

  /** Where loading ends: in front of fewer than eight bytes, or behind the header of an entry
      whose key is not all there, which is left out. */
  lemma LoadEnds(es: seq<Item>, tail: seq<byte>, m: Tree)
    requires |tail| < 8 || 8 + GetU32(tail) > |tail|
    ensures Load(EncodeChain(es) + tail, m) == Applied(es, m)
    ensures LoadLength(EncodeChain(es) + tail) == |EncodeChain(es)| + if |tail| < 8 then 0 else 8
  {
    hide EncodeChain, Applied, GetU32;
    LoadChain(es, tail, m);
  }

  /** Padding: every eight zero bytes read as an entry for the empty key. */
  function Padding(n: nat): (es: seq<Item>)
    ensures |es| == n
  {
    seq(n, _ => Item([], 0))
  }

  lemma EmptyItemIsZeros()
    ensures EncodeItem(Item([], 0)) == Zeros(8)
  {
  }

  lemma {:induction false} PaddingIsZeros(n: nat)
    ensures EncodeChain(Padding(n)) == Zeros(8 * n)
  {
    hide EncodeItem, EncodeChain;
    ChainNone();
    if n > 0 {
      PaddingIsZeros(n - 1);
      assert Padding(n) == Padding(n - 1) + [Item([], 0)];
      ChainLast(Padding(n - 1), Item([], 0));
      EmptyItemIsZeros();
    }
  }

  lemma {:induction false} ChainConcat(es: seq<Item>, fs: seq<Item>)
    ensures EncodeChain(es + fs) == EncodeChain(es) + EncodeChain(fs)
    decreases |fs|
  {
    hide EncodeItem, EncodeChain;
    ChainNone();
    if fs == [] {
      assert es + fs == es;
    } else {
      var front, f := fs[..|fs| - 1], fs[|fs| - 1];
      ChainConcat(es, front);
      assert fs == front + [f] && es + fs == es + front + [f];
      ChainLast(es + front, f);
      ChainLast(front, f);
    }
  }

  /** The tree without the empty key, which padding claims for itself. */
  function Named(m: Tree): (n: Tree)
    ensures forall k :: k in n <==> k in m && k != []
    ensures forall k :: k in n ==> n[k] == m[k]
  {
    map k | k in m && k != [] :: m[k]
  }

  /** Positions as they are stored. */
  function Cut(m: Tree): (n: Tree)
    ensures n.Keys == m.Keys && forall k :: k in m ==> n[k] == m[k] % TWO_32
  {
    map k | k in m :: m[k] % TWO_32
  }

  lemma NamedEmpty(m: Tree, v: nat)
    ensures Named(m[[] := v]) == Named(m)
  {
  }

  lemma {:induction false} AppliedPadding(es: seq<Item>, n: nat, m: Tree)
    ensures Named(Applied(es + Padding(n), m)) == Named(Applied(es, m))
    ensures n > 0 ==> [] in Applied(es + Padding(n), m) && Applied(es + Padding(n), m)[[]] == 0
    ensures n == 0 ==> Applied(es + Padding(n), m) == Applied(es, m)
  {
    hide Applied, Named;
    if n == 0 {
      assert es + Padding(n) == es;
    } else {
      AppliedPadding(es, n - 1, m);
      NamedEmpty(Applied(es + Padding(n - 1), m), 0);
      assert es + Padding(n) == es + Padding(n - 1) + [Item([], 0)];
      ChainLast(es + Padding(n - 1), Item([], 0));
    }
  }

  /** A chain of entries followed by zeros. */
  ghost predicate IsImage(s: seq<byte>, es: seq<Item>, zeros: nat) {
    s == EncodeChain(es) + Zeros(zeros)
  }

  /** What loading such an image finds: the entries, and padding. */
  lemma LoadImage(s: seq<byte>, es: seq<Item>, zeros: nat, m: Tree)
    requires IsImage(s, es, zeros)
    ensures Load(s, m) == Applied(es + Padding(zeros / 8), m)
    ensures LoadLength(s) == |EncodeChain(es)| + zeros - zeros % 8
    ensures IsImage(s, es + Padding(zeros / 8), zeros % 8)
    ensures LoadLength(s) == |EncodeChain(es + Padding(zeros / 8))|
  {
    hide EncodeChain, Applied, NextItem;
    var pad := Padding(zeros / 8);
    PaddingIsZeros(zeros / 8);
    ChainConcat(es, pad);
    var rest := Zeros(zeros % 8);
    assert s == EncodeChain(es + pad) + rest;
    LoadChain(es + pad, rest, m);
    ShortTail(rest);
  }

  lemma ShortTail(s: seq<byte>)
    requires |s| < 8
    ensures (forall m :: Load(s, m) == m) && LoadLength(s) == 0
  {
  }

  /** Loading adds to a tree what loading into an empty tree gives. */
  lemma {:induction false} LoadOverlay(s: seq<byte>, m: Tree)
    ensures Load(s, m) == m + Load(s, map[])
    decreases |s|
  {
    match NextItem(s)
    case Stop(_) =>
    case Insert(key, pos, rest) =>
      LoadOverlay(rest, m[key := pos]);
      LoadOverlay(rest, map[key := pos]);
      assert m[key := pos] == m + map[key := pos];
  }

  /** Loading any bytes twice is loading them once. */
  lemma LoadTwice(s: seq<byte>, m: Tree)
    ensures Load(s, Load(s, m)) == Load(s, m)
  {
    hide Load;
    LoadOverlay(s, m);
    LoadOverlay(s, Load(s, m));
  }

  class Index {
    var btree: Tree
    var mmapData: array<byte>
    var writeOffset: nat
    ghost var entries: seq<Item>  // what the image holds

    /** What any image comes to once it is loaded. */
    ghost predicate Sound()
      reads this, mmapData
    {
      writeOffset <= mmapData.Length && mmapData.Length > 0
    }

    ghost predicate Written()
      reads this, mmapData
    {
      && Sound() && writeOffset == |EncodeChain(entries)|
      && IsImage(mmapData[..], entries, mmapData.Length - writeOffset)
    }

    /** The image is the chain of entries followed by zeros, and its entries give
        the tree: the same keys but for the empty one, at the same positions as
        far as they are stored. */
    ghost predicate Valid()
      reads this, mmapData
    {
      && Written()
      && Named(Applied(entries, map[])) == Named(Cut(btree))
    }

    /** Opens an index file: an empty one is given 4096 zero bytes, and whatever
        there is is loaded. */
    constructor (file: seq<byte>, ghost es: seq<Item>, ghost zeros: nat)
      ensures fresh(mmapData) && Sound()
      ensures mmapData[..] == if file == [] then Zeros(4096) else file
      ensures btree == Load(mmapData[..], map[]) && writeOffset == LoadLength(mmapData[..])
      ensures file == [] || IsImage(file, es, zeros) ==> Valid()
      ensures file == [] ==> Named(btree) == map[]
      ensures file != [] && IsImage(file, es, zeros) ==> Named(btree) == Named(Applied(es, map[]))
    {
      hide EncodeChain, Applied, Load, LoadLength;
      var image := if file == [] then Zeros(4096) else file;
      mmapData := new byte[|image|](i requires 0 <= i < |image| => image[i]);
      btree := map[];
      writeOffset := 0;
      ghost var es', zeros' := if file == [] then [] else es, if file == [] then 4096 else zeros;
      entries := es' + Padding(zeros' / 8);
      new;
      assert mmapData[..] == image;
      writeOffset := BatchLoadFromMmap();
      ChainNone();
      if file == [] || IsImage(file, es, zeros) {
        assert IsImage(image, es', zeros') by {
          if file == [] { assert Zeros(4096) == [] + Zeros(4096); }
        }
        LoadImage(image, es', zeros', map[]);
        AppliedPadding(es', zeros' / 8, map[]);
        LoadedIsCut(image, map[]);
        assert |image| == |EncodeChain(es')| + zeros';
      }
    }

    /** Inserts every entry of the image into the tree; returns where it ends. */
    method BatchLoadFromMmap() returns (offset: nat)
      modifies this`btree
      ensures btree == Load(mmapData[..], old(btree)) && offset == LoadLength(mmapData[..])
    {
      hide Load, LoadLength, GetU32;
      ghost var s := mmapData[..];
      offset := 0;
      assert s[0..] == s;
      while offset + 8 <= mmapData.Length
        invariant offset <= mmapData.Length
        invariant Load(s, old(btree)) == Load(s[offset..], btree)
        invariant LoadLength(s) == offset + LoadLength(s[offset..])
        decreases mmapData.Length - offset
      {
        ghost var start := offset;
        LoadUnfold(s[offset..], btree);
        var keySize := GetU32(mmapData[offset..offset + 4]);
        var pos := GetU32(mmapData[offset + 4..offset + 8]);
        U32At(s[offset..], mmapData[offset..offset + 4], mmapData[offset + 4..offset + 8]);
        offset := offset + 8;
        if offset + keySize > mmapData.Length {
          return;
        }
        var key := mmapData[offset..offset + keySize];
        assert key == s[start..][8..8 + keySize] && s[offset + keySize..] == s[start..][8 + keySize..];
        offset := offset + keySize;
        btree := btree[key := pos];
      }
      LoadUnfold(s[offset..], btree);
    }

    /** Into any image; a chain of entries followed by zeros stays one. */
    method Add(key: Str, pos: nat)
      requires Sound()
      modifies this, mmapData
      ensures Sound() && (mmapData == old(mmapData) || fresh(mmapData))
      ensures old(Valid()) ==> Valid()
      ensures btree == old(btree)[key := pos]
    {
      hide EncodeChain, EncodeItem, Applied, IsImage, Named, Cut, Appended;
      if Valid() {
        InsertBoth(Applied(entries, map[]), btree, key, pos);
      }
      ChainLast(entries, Item(key, pos));
      btree := btree[key := pos];
      AppendIndexEntry(key, pos);
    }

    method Get(key: Str) returns (r: Option<nat>)
      ensures r == if key in btree then Some(btree[key]) else None
    {
      r := if key in btree then Some(btree[key]) else None;
    }

    /** Removes a key; if there was one, the image is written anew, whatever it was. */
    method Remove(key: Str)
      requires Sound()
      modifies this, mmapData
      ensures Sound() && (mmapData == old(mmapData) || fresh(mmapData))
      ensures old(Valid()) || key in old(btree) ==> Valid()
      ensures btree == old(btree) - {key}
      ensures key !in old(btree) ==> mmapData == old(mmapData) && mmapData[..] == old(mmapData[..])
    {
      if key in btree {
        btree := btree - {key};
        PersistIndex();
      } else {
        assert btree - {key} == btree;
      }
    }

    /** Starts a fresh image and appends the whole tree to it, in any order. */
    method PersistIndex()
      modifies this`mmapData, this`writeOffset, this`entries
      ensures Valid() && fresh(mmapData)
      ensures Applied(entries, map[]) == Cut(btree)
    {
      hide EncodeChain, EncodeItem, Applied, IsImage, Cut, Appended;
      mmapData := new byte[4096](_ => 0);
      writeOffset := 0;
      entries := [];
      ChainNone();
      ZeroImage(mmapData[..]);
      var rest := btree;
      CutNone(btree);
      while rest != map[]
        invariant fresh(mmapData) && Written() && rest.Keys <= btree.Keys
        invariant forall k :: k in rest ==> rest[k] == btree[k]
        invariant Applied(entries, map[]) == Cut(btree - rest.Keys)
        decreases |rest|
      {
        var key :| key in rest;
        ChainLast(entries, Item(key, rest[key]));
        CutOneMore(btree, rest.Keys, key);
        AppendIndexEntry(key, rest[key]);
        rest := rest - {key};
      }
      assert btree - {} == btree;
    }

    /** Writes one entry at the cursor, into a larger image if need be. */
    method AppendIndexEntry(key: Str, pos: nat)
      requires Sound()
      modifies this`mmapData, this`writeOffset, this`entries, mmapData
      ensures mmapData == old(mmapData) || fresh(mmapData)
      ensures Sound() && writeOffset == old(writeOffset) + 8 + |key|
      ensures mmapData[..] == Appended(old(mmapData[..]), old(writeOffset), EncodeItem(Item(key, pos)))
      ensures mmapData.Length == if writeOffset <= old(mmapData.Length) then old(mmapData.Length)
                                 else 2 * old(mmapData.Length) + 8 + |key| + 4096
      ensures entries == old(entries) + [Item(key, pos)] && (old(Written()) ==> Written())
    {
      hide EncodeChain, EncodeItem, IsImage, Zeros, Appended;
      var entrySize := 8 + |key|;
      if Written() {
        NextImage(mmapData[..], entries, mmapData.Length - writeOffset, Item(key, pos));
      }
      AppendedParts(mmapData[..], writeOffset, EncodeItem(Item(key, pos)));
      if writeOffset + entrySize > mmapData.Length {
        Grow(mmapData.Length * 2 + entrySize + 4096);
      }
      WriteItem(mmapData, writeOffset, Item(key, pos));
      writeOffset := writeOffset + entrySize;
      entries := entries + [Item(key, pos)];
    }

    /** Maps a longer file, which goes on with zeros. */
    method Grow(newSize: nat)
      requires newSize >= mmapData.Length
      modifies this`mmapData
      ensures fresh(mmapData) && mmapData.Length == newSize
      ensures mmapData[..] == old(mmapData[..]) + Zeros(newSize - old(mmapData.Length))
    {
      var mapped := mmapData[..];
      mmapData := new byte[newSize](i => if 0 <= i < |mapped| then mapped[i] else 0);
      assert mmapData[..] == mapped + Zeros(newSize - |mapped|);
    }
  }

  /** An image after an entry is written at the cursor. */
  function Appended(s: seq<byte>, at: nat, item: seq<byte>): seq<byte>
    requires at <= |s|
  {
    if at + |item| <= |s| then s[..at] + item + s[at + |item|..]
    else s[..at] + item + Zeros(2 * |s| + 4096 - at)
  }

  lemma AppendedParts(s: seq<byte>, at: nat, item: seq<byte>)
    requires at <= |s|
    ensures var end := at + |item|;
            var s' := if end <= |s| then s else s + Zeros(|s| + |item| + 4096);
            s'[..at] + item + s'[end..] == Appended(s, at, item)
  {
  }

  lemma ZeroImage(s: seq<byte>)
    requires s == Zeros(|s|)
    ensures IsImage(s, [], |s|)
  {
  }

  lemma CutNone(m: Tree)
    ensures Cut(m - m.Keys) == map[]
  {
  }

  lemma CutOneMore(m: Tree, rest: set<Str>, key: Str)
    requires key in rest && rest <= m.Keys
    ensures Cut(m - (rest - {key})) == Cut(m - rest)[key := m[key] % TWO_32]
  {
  }

  /** An insertion into two trees that agree. */
  lemma InsertBoth(stored: Tree, tree: Tree, key: Str, pos: nat)
    requires Named(stored) == Named(Cut(tree))
    ensures Named(stored[key := pos % TWO_32]) == Named(Cut(tree[key := pos]))
  {
    var a, b := stored[key := pos % TWO_32], Cut(tree[key := pos]);
    forall k
      ensures k in Named(a) <==> k in Named(b)
      ensures k in Named(a) ==> Named(a)[k] == Named(b)[k]
    {
      if k != key && k != [] {
        assert k in Named(stored) <==> k in Named(Cut(tree));
      }
    }
  }

  lemma NextImage(s: seq<byte>, es: seq<Item>, zeros: nat, e: Item)
    requires IsImage(s, es, zeros)
    ensures var s', at := Appended(s, |EncodeChain(es)|, EncodeItem(e)), |EncodeChain(es + [e])|;
            at == |EncodeChain(es)| + |EncodeItem(e)| <= |s'| && IsImage(s', es + [e], |s'| - at)
  {
    hide EncodeChain, EncodeItem;
    ChainLast(es, e);
    var chain := EncodeChain(es);
    assert s[..|chain|] == chain;
    assert |EncodeItem(e)| <= zeros ==> s[|chain| + |EncodeItem(e)|..] == Zeros(zeros - |EncodeItem(e)|);
  }

  /** Overwrites the bytes at `at` with an entry. */
  method WriteItem(dst: array<byte>, at: nat, e: Item)
    requires at + |EncodeItem(e)| <= dst.Length
    modifies dst
    ensures dst[..] == old(dst[..at]) + EncodeItem(e) + old(dst[at + |EncodeItem(e)|..])
  {
    hide PutU32;
    ghost var s0 := dst[..];
    Copy(dst, at, PutU32(|e.key|));
    Copy(dst, at + 4, PutU32(e.pos));
    assert dst[at..at + 4] == PutU32(|e.key|);
    Copy(dst, at + 8, e.key);
    ThreePieces(s0, dst[..], at, PutU32(|e.key|), PutU32(e.pos), e.key);
  }

  lemma ThreePieces(s0: seq<byte>, s: seq<byte>, at: nat, a: seq<byte>, b: seq<byte>, c: seq<byte>)
    requires |s| == |s0| && at + |a| + |b| + |c| <= |s|
    requires s[at..at + |a|] == a
    requires s[at + |a|..at + |a| + |b|] == b
    requires s[at + |a| + |b|..at + |a| + |b| + |c|] == c
    requires forall i :: 0 <= i < |s| && !(at <= i < at + |a| + |b| + |c|) ==> s[i] == s0[i]
    ensures s == s0[..at] + (a + b + c) + s0[at + |a| + |b| + |c|..]
  {
    var n := at + |a| + |b| + |c|;
    assert s == s[..at] + s[at..at + |a|] + s[at + |a|..at + |a| + |b|] + s[at + |a| + |b|..n] + s[n..];
    assert s[..at] == s0[..at] && s[n..] == s0[n..];
  }

  method Copy(dst: array<byte>, at: nat, data: seq<byte>)
    requires at + |data| <= dst.Length
    modifies dst
    ensures dst[at..at + |data|] == data
    ensures forall i :: 0 <= i < dst.Length && !(at <= i < at + |data|) ==> dst[i] == old(dst[i])
  {
    forall i | at <= i < at + |data| {
      dst[i] := data[i - at];
    }
  }

  /** Opening the file again gives the tree back, but for the empty key, with
      positions cut to what is stored; the empty key is at position 0 if there is
      room for another entry in the file, else where it was. */
  lemma Reopened(index: Index)
    requires index.Valid()
    ensures var tree := Load(index.mmapData[..], map[]);
            && Named(tree) == Named(Cut(index.btree))
            && (index.mmapData.Length - index.writeOffset >= 8 ==> [] in tree && tree[[]] == 0)
            && (index.mmapData.Length - index.writeOffset < 8 ==> tree == Applied(index.entries, map[]))
  {
    hide EncodeChain, Applied, Load, LoadLength;
    var zeros := index.mmapData.Length - index.writeOffset;
    LoadImage(index.mmapData[..], index.entries, zeros, map[]);
    AppliedPadding(index.entries, zeros / 8, map[]);
  }

  lemma U32At(s: seq<byte>, a: seq<byte>, b: seq<byte>)
    requires |s| >= 8 && a == s[..4] && b == s[4..8]
    ensures GetU32(s) == GetU32(a) && GetU32(s[4..]) == GetU32(b)
  {
    assert forall i :: 0 <= i < 4 ==> a[i] == s[i];
    assert forall i :: 0 <= i < 4 ==> b[i] == s[4..][i];
  }

  lemma LoadUnfold(s: seq<byte>, m: Tree)
    ensures NextItem(s).Stop? ==> Load(s, m) == m && LoadLength(s) == NextItem(s).consumed
    ensures NextItem(s).Insert? ==>
              Load(s, m) == Load(NextItem(s).rest, m[NextItem(s).key := NextItem(s).pos])
              && LoadLength(s) == 8 + |NextItem(s).key| + LoadLength(NextItem(s).rest)
  {
  }

  /** Loaded positions have 32 bits. */
  lemma {:induction false} LoadedIsCut(s: seq<byte>, m: Tree)
    requires Cut(m) == m
    ensures Cut(Load(s, m)) == Load(s, m)
    decreases |s|
  {
    match NextItem(s)
    case Stop(_) =>
    case Insert(key, pos, rest) => LoadedIsCut(rest, m[key := pos]);
  }

  // ----- runs -----

  datatype Command = Add(key: Str, pos: nat) | Remove(key: Str) | Reopen

  /** The tree a run should leave. */
  function Meaning(commands: seq<Command>): Tree {
    if commands == [] then map[]
    else
      var before := Meaning(commands[..|commands| - 1]);
      match commands[|commands| - 1]
      case Add(key, pos) => before[key := pos]
      case Remove(key) => before - {key}
      case Reopen => before
  }

  /** Any run of additions, removals and reopenings, from a new file on, leaves an
      image that is a chain of entries followed by zeros and a tree that has the
      keys added and not removed since, at their latest positions; the empty key
      and position bits beyond 32 are left out of account. */
  method RunIndex(commands: seq<Command>) returns (index: Index)
    ensures fresh(index) && fresh(index.mmapData) && index.Valid()
    ensures Named(Cut(index.btree)) == Named(Cut(Meaning(commands)))
  {
    hide EncodeChain, Applied, IsImage, Load, LoadLength, Named, Cut;
    index := new Index([], [], 0);
    NamedCutStep(map[], map[], [], 0);
    for i := 0 to |commands|
      invariant fresh(index) && fresh(index.mmapData) && index.Valid()
      invariant Named(Cut(index.btree)) == Named(Cut(Meaning(commands[..i])))
    {
      assert commands[..i + 1][..i] == commands[..i];
      ghost var tree, meaning := index.btree, Meaning(commands[..i]);
      match commands[i] {
        case Add(key, pos) =>
          NamedCutStep(tree, meaning, key, pos);
          index.Add(key, pos);
        case Remove(key) =>
          NamedCutStep(tree, meaning, key, 0);
          index.Remove(key);
        case Reopen =>
          ghost var entries, zeros := index.entries, index.mmapData.Length - index.writeOffset;
          CutTwice(index.btree);
          index := new Index(index.mmapData[..], entries, zeros);
          LoadedIsCut(index.mmapData[..], map[]);
      }
    }
    assert commands[..|commands|] == commands;
  }

  lemma NamedCutStep(a: Tree, b: Tree, key: Str, pos: nat)
    requires Named(Cut(a)) == Named(Cut(b))
    ensures Named(Cut(a[key := pos])) == Named(Cut(b[key := pos]))
    ensures Named(Cut(a - {key})) == Named(Cut(b - {key}))
  {
    hide Named, Cut;
    InsertBoth(Cut(a), b, key, pos);
    CutInsert(a, key, pos);
    RemoveOne(a, key);
    RemoveOne(b, key);
  }

  lemma CutInsert(m: Tree, key: Str, pos: nat)
    ensures Cut(m[key := pos]) == Cut(m)[key := pos % TWO_32]
  {
  }

  lemma RemoveOne(m: Tree, key: Str)
    ensures Named(Cut(m - {key})) == Named(Cut(m)) - {key}
  {
  }

  lemma CutTwice(m: Tree)
    ensures Named(Cut(Cut(m))) == Named(Cut(m))
  {
  }
}
