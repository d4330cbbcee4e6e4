/**
 SortedVectorImpl (VectorImpl.cpp): a vector kept in increasing key order.

 do_compare is taken to order items by an integer key; the value is whatever
 else an item carries.
 */
module SortedVectors {
  import opened SharedBuffers
  import opened Vectors
  import opened Sequences

  datatype Item<V> = Item(key: int, value: V)

  datatype Search = Found(index: nat) | NotFound(order: nat)

  ghost predicate Sorted<V>(s: seq<Item<V>>) {
    forall i, j :: 0 <= i < j < |s| ==> s[i].key < s[j].key
  }

  ghost predicate IsSearchResult<V>(s: seq<Item<V>>, key: int, r: Search) {
    match r
    case Found(i) => i < |s| && s[i].key == key
    case NotFound(o) =>
      && o <= |s|
      && (forall i :: 0 <= i < o ==> s[i].key < key)
      && (forall i :: o <= i < |s| ==> key < s[i].key)
  }

  ghost function Items<V>(s: seq<Item<V>>): set<Item<V>> {
    set x | x in s
  }

  /** The items with another key. */
  ghost function Others<V>(s: seq<Item<V>>, key: int): set<Item<V>> {
    set x | x in s && x.key != key
  }

  /** Items below, and from, `key` on. */
  function Below<V>(s: seq<Item<V>>, key: int): (n: nat)
    ensures n <= |s|
    ensures forall i :: 0 <= i < n ==> s[i].key < key
    ensures n < |s| ==> s[n].key >= key
  {
    if s == [] || s[0].key >= key then 0 else 1 + Below(s[1..], key)
  }

  /** The part of `s` with larger keys than `key`. */
  function Above<V>(s: seq<Item<V>>, key: int): seq<Item<V>> {
    var n := Below(s, key);
    if n < |s| && s[n].key == key then s[n + 1..] else s[n..]
  }

  /** `s` with `x` at the place of its key. */
  function Added<V>(s: seq<Item<V>>, x: Item<V>): seq<Item<V>> {
    s[..Below(s, x.key)] + [x] + Above(s, x.key)
  }

  function Without<V>(s: seq<Item<V>>, key: int): seq<Item<V>> {
    s[..Below(s, key)] + Above(s, key)
  }

  function AddedAll<V>(s: seq<Item<V>>, xs: seq<Item<V>>): seq<Item<V>> {
    if xs == [] then s else Added(AddedAll(s, xs[..|xs| - 1]), xs[|xs| - 1])
  }

  lemma SearchPins<V>(s: seq<Item<V>>, key: int, r: Search)
    requires Sorted(s) && IsSearchResult(s, key, r)
    ensures Below(s, key) == (if r.Found? then r.index else r.order)
  {
    var m := if r.Found? then r.index else r.order;
    assert m < |s| ==> s[m].key >= key;
  }

  /** From the m-th on, if that is above the key, all are. */
  lemma FromAbove<V>(s: seq<Item<V>>, m: nat, key: int)
    requires Sorted(s) && m <= |s| && (m < |s| ==> s[m].key > key)
    ensures forall i :: 0 <= i < |s| - m ==> s[m..][i].key > key
  {
    forall i | 0 <= i < |s| - m
      ensures s[m..][i].key > key
    {
      assert s[m..][i] == s[m + i];
      assert i > 0 ==> s[m].key < s[m + i].key;
    }
  }

  lemma AboveIsAbove<V>(s: seq<Item<V>>, key: int)
    requires Sorted(s)
    ensures forall i :: 0 <= i < |Above(s, key)| ==> Above(s, key)[i].key > key
  {
    var n := Below(s, key);
    if n < |s| && s[n].key == key {
      FromAbove(s, n + 1, key);
    } else {
      FromAbove(s, n, key);
    }
  }

  /** Three sorted pieces in order. */
  lemma SortedJoin<V>(a: seq<Item<V>>, m: seq<Item<V>>, b: seq<Item<V>>, key: int)
    requires Sorted(a) && Sorted(b) && |m| <= 1
    requires forall i :: 0 <= i < |a| ==> a[i].key < key
    requires forall i :: 0 <= i < |m| ==> m[i].key == key
    requires forall i :: 0 <= i < |b| ==> b[i].key > key
    ensures Sorted(a + m + b) && Items(a + m + b) == Items(a) + Items(m) + Items(b)
  {
    assert forall x :: x in a + m + b <==> x in a || x in m || x in b;
  }

  function Hit<V>(s: seq<Item<V>>, key: int): seq<Item<V>> {
    var n := Below(s, key);
    if n < |s| && s[n].key == key then [s[n]] else []
  }

  /** `s` around the place of `key`: smaller keys, at most one item with that key, larger keys. */
  lemma Around<V>(s: seq<Item<V>>, key: int)
    ensures s == s[..Below(s, key)] + Hit(s, key) + Above(s, key)
  {
    var n := Below(s, key);
    SplitAt(s, n);
    if n < |s| && s[n].key == key {
      SplitAround(s, n);
    } else {
      assert s[..n] + [] == s[..n];
    }
  }

  lemma OthersAre<V>(s: seq<Item<V>>, key: int)
    requires Sorted(s)
    ensures Others(s, key) == Items(s[..Below(s, key)]) + Items(Above(s, key))
  {
    var a, m, b := s[..Below(s, key)], Hit(s, key), Above(s, key);
    Around(s, key);
    AboveIsAbove(s, key);
    OthersOf(a, m, b, key);
    assert s == a + m + b;
  }

  lemma OthersOf<V>(a: seq<Item<V>>, m: seq<Item<V>>, b: seq<Item<V>>, key: int)
    requires forall i :: 0 <= i < |a| ==> a[i].key < key
    requires forall i :: 0 <= i < |m| ==> m[i].key == key
    requires forall i :: 0 <= i < |b| ==> b[i].key > key
    ensures Others(a + m + b, key) == Items(a) + Items(b)
  {
    assert forall x :: x in a + m + b <==> x in a || x in m || x in b;
  }

  /** Adding keeps the order and replaces exactly the item with that key. */
  lemma AddedIs<V>(s: seq<Item<V>>, x: Item<V>)
    requires Sorted(s)
    ensures Sorted(Added(s, x)) && Items(Added(s, x)) == Others(s, x.key) + {x}
  {
    OthersAre(s, x.key);
    AboveIsAbove(s, x.key);
    SortedJoin(s[..Below(s, x.key)], [x], Above(s, x.key), x.key);
  }

  /** Removing keeps the order and drops exactly the item with that key. */
  lemma WithoutIs<V>(s: seq<Item<V>>, key: int)
    requires Sorted(s)
    ensures Sorted(Without(s, key)) && Items(Without(s, key)) == Others(s, key)
  {
    OthersAre(s, key);
    AboveIsAbove(s, key);
    SortedTwo(s[..Below(s, key)], Above(s, key), key);
  }

  lemma SortedTwo<V>(a: seq<Item<V>>, b: seq<Item<V>>, key: int)
    requires Sorted(a) && Sorted(b)
    requires forall i :: 0 <= i < |a| ==> a[i].key < key
    requires forall i :: 0 <= i < |b| ==> b[i].key > key
    ensures Sorted(a + b) && Items(a + b) == Items(a) + Items(b)
  {
    assert forall x :: x in a + b <==> x in a || x in b;
  }

  lemma SplitLast<V>(s: seq<Item<V>>)
    requires Sorted(s) && s != []
    ensures var i := |s| - 1; s == s[..i] + [s[i]] && Items(s[..i]) == Items(s) - {s[i]}
    ensures forall x :: x in s ==> x.key < s[|s| - 1].key || x == s[|s| - 1]
  {
    var i := |s| - 1;
    assert s == s[..i] + [s[i]];
    assert forall x :: x in s <==> x in s[..i] || x == s[i];
  }

  lemma LastReaches<V>(s: seq<Item<V>>, t: seq<Item<V>>)
    requires Sorted(s) && Sorted(t) && s != [] && t != [] && Items(s) == Items(t)
    ensures s[|s| - 1].key < t[|t| - 1].key || s[|s| - 1] == t[|t| - 1]
  {
    SplitLast(t);
    assert s[|s| - 1] in Items(s);
  }

  lemma NoItems<V>(s: seq<Item<V>>)
    ensures Items(s) == {} <==> s == []
  {
    if s != [] {
      assert s[0] in Items(s);
    }
  }

  /** A sorted vector is determined by its set of items. */
  lemma {:induction false} SameItems<V>(s: seq<Item<V>>, t: seq<Item<V>>)
    requires Sorted(s) && Sorted(t) && Items(s) == Items(t)
    ensures s == t
  {
    NoItems(s);
    NoItems(t);
    if s == [] || t == [] {
    } else {
      var i, j := |s| - 1, |t| - 1;
      SplitLast(s);
      SplitLast(t);
      LastReaches(s, t);
      LastReaches(t, s);
      assert s[i] == t[j];
      SameItems(s[..i], t[..j]);
    }
  }

  // Merging

  ghost function Keys<V>(s: seq<Item<V>>): set<int> {
    set x | x in s :: x.key
  }

  /** The items whose keys are not among `keys`. */
  ghost function Outside<V>(s: seq<Item<V>>, keys: set<int>): set<Item<V>> {
    set x | x in s && x.key !in keys
  }

  /** No later item has the key of the i-th. */
  predicate LastOf<V>(xs: seq<Item<V>>, i: nat)
    requires i < |xs|
  {
    forall j :: i < j < |xs| ==> xs[j].key != xs[i].key
  }

  /** Of each key the last item. */
  ghost function Lasts<V>(xs: seq<Item<V>>): set<Item<V>> {
    set i | 0 <= i < |xs| && LastOf(xs, i) :: xs[i]
  }

  /** Adding vectors item by item, in whatever order: of each key added the last item wins, the others stay. */
  lemma {:induction false} AddedAllIs<V>(s: seq<Item<V>>, xs: seq<Item<V>>)
    requires Sorted(s)
    ensures Sorted(AddedAll(s, xs))
    ensures Items(AddedAll(s, xs)) == Outside(s, Keys(xs)) + Lasts(xs)
    decreases |xs|
  {
    if xs == [] {
    } else {
      var init, last := xs[..|xs| - 1], xs[|xs| - 1];
      assert xs == init + [last];
      AddedAllIs(s, init);
      AddedIs(AddedAll(s, init), last);
      KeysOfLast(init, last, xs);
      LastsOfLast(init, last, xs);
      OthersOfUnion(s, init, AddedAll(s, init), last.key);
    }
  }

  lemma KeysOfLast<V>(init: seq<Item<V>>, last: Item<V>, xs: seq<Item<V>>)
    requires xs == init + [last]
    ensures Keys(xs) == Keys(init) + {last.key}
  {
    assert forall x :: x in xs <==> x in init || x == last;
  }

  lemma LastsOfLast<V>(init: seq<Item<V>>, last: Item<V>, xs: seq<Item<V>>)
    requires xs == init + [last]
    ensures Lasts(xs) == (set x | x in Lasts(init) && x.key != last.key) + {last}
  {
    var n := |init|;
    assert LastOf(xs, n) && xs[n] == last;
    forall i | 0 <= i < n
      ensures LastOf(xs, i) <==> LastOf(init, i) && init[i].key != last.key
    {
      if LastOf(xs, i) {
        assert xs[n].key != xs[i].key;
        forall j | i < j < n
          ensures init[j].key != init[i].key
        {
          assert xs[j].key != xs[i].key;
        }
      }
    }
    forall x | x in Lasts(init) && x.key != last.key
      ensures x in Lasts(xs)
    {
      var i :| 0 <= i < n && LastOf(init, i) && init[i] == x;
      assert LastOf(xs, i) && xs[i] == x;
    }
    forall x | x in Lasts(xs) && x != last
      ensures x in Lasts(init) && x.key != last.key
    {
      var i :| 0 <= i < |xs| && LastOf(xs, i) && xs[i] == x;
      assert LastOf(init, i) && init[i] == x;
    }
  }

  lemma OthersOfUnion<V>(s: seq<Item<V>>, init: seq<Item<V>>, all: seq<Item<V>>, key: int)
    requires Items(all) == Outside(s, Keys(init)) + Lasts(init)
    ensures Others(all, key) == Outside(s, Keys(init) + {key}) + (set x | x in Lasts(init) && x.key != key)
  {
    forall x | x in Others(all, key)
      ensures x in Outside(s, Keys(init) + {key}) + (set y | y in Lasts(init) && y.key != key)
    {
      assert x in Items(all);
    }
    forall x | x in Outside(s, Keys(init) + {key}) + (set y | y in Lasts(init) && y.key != key)
      ensures x in Others(all, key)
    {
      assert x in Items(all);
    }
  }

  /** In a sorted vector every item is the last of its key. */
  lemma SortedLasts<V>(xs: seq<Item<V>>)
    requires Sorted(xs)
    ensures Lasts(xs) == Items(xs)
  {
    forall i | 0 <= i < |xs|
      ensures LastOf(xs, i)
    {
    }
    forall x | x in xs
      ensures x in Lasts(xs)
    {
      var i :| 0 <= i < |xs| && xs[i] == x;
      assert LastOf(xs, i);
    }
  }

  /** merge(SortedVectorImpl): whole-sequence fast paths, then the naive merge. */
  function Merged<V>(s: seq<Item<V>>, xs: seq<Item<V>>): seq<Item<V>>
    requires s != []
  {
    if xs == [] then s
    else if xs[|xs| - 1].key <= s[0].key then xs + s
    else if xs[0].key >= s[|s| - 1].key then s + xs
    else AddedAll(s, xs)
  }

  /** Neither end of one meets the opposite end of the other. */
  predicate EndsDiffer<V>(s: seq<Item<V>>, xs: seq<Item<V>>) {
    s == [] || xs == [] || (xs[|xs| - 1].key != s[0].key && xs[0].key != s[|s| - 1].key)
  }

  lemma DisjointJoin<V>(a: seq<Item<V>>, b: seq<Item<V>>)
    requires Sorted(a) && Sorted(b) && a != [] && b != [] && a[|a| - 1].key < b[0].key
    ensures Sorted(a + b) && Keys(a) !! Keys(b) && Items(a + b) == Items(a) + Items(b)
    ensures Outside(a, Keys(b)) == Items(a) && Outside(b, Keys(a)) == Items(b)
  {
    assert forall x :: x in a + b <==> x in a || x in b;
    forall x, y | x in a && y in b
      ensures x.key < y.key
    {
      SplitLast(a);
      FirstIsLeast(b);
    }
  }

  lemma FirstIsLeast<V>(s: seq<Item<V>>)
    requires Sorted(s) && s != []
    ensures forall x :: x in s ==> s[0].key <= x.key
  {
  }

  /** The fast merge is the naive merge exactly when no boundary items share a key. */
  lemma MergedIsAddedAllIff<V>(s: seq<Item<V>>, xs: seq<Item<V>>)
    requires Sorted(s) && Sorted(xs) && s != []
    ensures Merged(s, xs) == AddedAll(s, xs) <==> EndsDiffer(s, xs)
  {
    if xs != [] {
      AddedAllIs(s, xs);
      SortedLasts(xs);
      if xs[|xs| - 1].key < s[0].key {
        DisjointJoin(xs, s);
        SameItems(xs + s, AddedAll(s, xs));
      } else if xs[|xs| - 1].key == s[0].key {
        assert (xs + s)[|xs| - 1].key == (xs + s)[|xs|].key;
      } else if xs[0].key > s[|s| - 1].key {
        DisjointJoin(s, xs);
        SameItems(s + xs, AddedAll(s, xs));
      } else if xs[0].key == s[|s| - 1].key {
        assert (s + xs)[|s| - 1].key == (s + xs)[|s|].key;
      }
    }
  }

  /** A shared boundary key is kept twice, and the vector is a set no longer. */
  lemma MergeDuplicates()
    ensures Merged([Item(1, 0), Item(2, 0)], [Item(2, 9)]) == [Item(1, 0), Item(2, 0), Item(2, 9)]
    ensures AddedAll([Item(1, 0), Item(2, 0)], [Item(2, 9)]) == [Item(1, 0), Item(2, 9)]
  {
    var s := [Item(1, 0), Item(2, 0)];
    assert Below(s[1..], 2) == 0;
    assert [Item(2, 9)][..0] == [];
  }

  // The operations on the vector itself

  /** _indexOrderOf: binary search for the index, or else the insertion point. */
  method IndexOrderOf<V(0)>(v: Vector<Item<V>>, key: int, ghost w: Universe<Item<V>>) returns (r: Search)
    requires w.Valid() && v in w.vectors && Sorted(v.Contents())
    ensures IsSearchResult(v.Contents(), key, r)
  {
    ghost var s := v.Contents();
    var l, h: int := 0, v.count - 1;
    while l <= h
      invariant 0 <= l <= h + 1 <= |s|
      invariant forall i :: 0 <= i < l ==> s[i].key < key
      invariant forall i :: h < i < |s| ==> key < s[i].key
    {
      var mid := l + (h - l) / 2;
      var curr := v.storage.data[mid];
      assert curr == s[mid];
      if curr.key == key {
        return Found(mid);
      } else if curr.key < key {
        l := mid + 1;
      } else {
        h := mid - 1;
      }
    }
    return NotFound(l);
  }

  /** SortedVectorImpl::add. */
  method Add<V(0)>(v: Vector<Item<V>>, x: Item<V>, ghost w: Universe<Item<V>>) returns (r: Status)
    requires w.Valid() && v in w.vectors && Sorted(v.Contents())
    modifies v, w, v.storage
    ensures w.Valid() && w.vectors == old(w.vectors)
    ensures v.Contents() == Added(old(v.Contents()), x) && Sorted(v.Contents())
    ensures r == Index(Below(old(v.Contents()), x.key))
    ensures v.storage == old(v.storage) || fresh(v.storage)
    ensures old(v.TailSafe(w)) ==> v.TailSafe(w) && OthersKept(v, w)
  {
    var found := IndexOrderOf(v, x.key, w);
    AddedAt(v.Contents(), x, found, Added(v.Contents(), x), Below(v.Contents(), x.key));
    if found.NotFound? {
      r := PutNew(v, x, found.order, w);
    } else {
      r := PutOver(v, x, found.index, w);
    }
  }

  /** What adding makes of the vector, from where the search found the key, or its place. */
  lemma AddedAt<V>(s: seq<Item<V>>, x: Item<V>, r: Search, after: seq<Item<V>>, at: nat)
    requires Sorted(s) && IsSearchResult(s, x.key, r) && after == Added(s, x) && at == Below(s, x.key)
    ensures Sorted(after) && at == (if r.Found? then r.index else r.order)
    ensures after == if r.Found? then s[r.index := x] else Inserted(s, r.order, [x])
  {
    AddedIs(s, x);
    SearchPins(s, x.key, r);
    match r
    case NotFound(order) => AddedNew(s, x, order, after);
    case Found(index) => AddedOver(s, x, index, after);
  }

  method PutOver<V(0)>(v: Vector<Item<V>>, x: Item<V>, index: nat, ghost w: Universe<Item<V>>) returns (r: Status)
    requires w.Valid() && v in w.vectors && index < v.count
    modifies v, w, v.storage
    ensures w.Valid() && w.vectors == old(w.vectors)
    ensures r == Index(index) && v.Contents() == old(v.Contents())[index := x]
    ensures v.storage == old(v.storage) || fresh(v.storage)
    ensures old(v.TailSafe(w)) ==> v.TailSafe(w) && OthersKept(v, w)
  {
    r := v.ReplaceAt(x, index, w);
  }

  method PutNew<V(0)>(v: Vector<Item<V>>, x: Item<V>, order: nat, ghost w: Universe<Item<V>>) returns (r: Status)
    requires w.Valid() && v in w.vectors && order <= v.count
    modifies v, w, v.storage
    ensures w.Valid() && w.vectors == old(w.vectors)
    ensures r == Index(order) && v.Contents() == Inserted(old(v.Contents()), order, [x])
    ensures v.storage == old(v.storage) || fresh(v.storage)
    ensures old(v.TailSafe(w)) ==> v.TailSafe(w) && OthersKept(v, w)
  {
    assert seq(1, _ => x) == [x];
    r := v.InsertAt(x, order, 1, w);
  }

  lemma UpdateIs<T>(s: seq<T>, i: nat, x: T)
    requires i < |s|
    ensures s[..i] + [x] + s[i + 1..] == s[i := x]
  {
  }

  lemma AddedOver<V>(s: seq<Item<V>>, x: Item<V>, i: nat, after: seq<Item<V>>)
    requires i < |s| && Below(s, x.key) == i && s[i].key == x.key && after == Added(s, x)
    ensures after == s[i := x]
  {
    UpdateIs(s, i, x);
  }

  lemma AddedNew<V>(s: seq<Item<V>>, x: Item<V>, o: nat, after: seq<Item<V>>)
    requires o <= |s| && Below(s, x.key) == o && (o < |s| ==> s[o].key != x.key) && after == Added(s, x)
    ensures after == Inserted(s, o, [x])
  {
  }

  twostate predicate OthersKept<T(0)>(v: Vector<T>, w: Universe<T>)
    requires old(w.Valid()) && w.Valid() && w.vectors == old(w.vectors)
    reads w, w.vectors, w.buffers
  {
    forall u :: u in w.vectors && u != v ==> u.Contents() == old(u.Contents())
  }

  /** SortedVectorImpl::remove. */
  method Remove<V(0)>(v: Vector<Item<V>>, key: int, ghost w: Universe<Item<V>>) returns (r: Search)
    requires w.Valid() && v in w.vectors && Sorted(v.Contents())
    modifies v, w, v.storage
    ensures w.Valid() && w.vectors == old(w.vectors)
    ensures v.storage == old(v.storage) || fresh(v.storage)
    ensures v.Contents() == Without(old(v.Contents()), key) && Sorted(v.Contents())
    ensures IsSearchResult(old(v.Contents()), key, r)
    ensures OthersKept(v, w)
  {
    r := IndexOrderOf(v, key, w);
    WithoutAt(v.Contents(), key, r);
    if r.Found? {
      var _ := v.RemoveItemsAt(r.index, 1, w);
    }
  }

  lemma WithoutAt<V>(s: seq<Item<V>>, key: int, r: Search)
    requires Sorted(s) && IsSearchResult(s, key, r)
    ensures Sorted(Without(s, key))
    ensures Without(s, key) == if r.Found? then Removed(s, r.index, 1) else s
  {
    WithoutIs(s, key);
    SearchPins(s, key, r);
    WithoutSlices(s, key, Below(s, key));
  }

  lemma WithoutSlices<V>(s: seq<Item<V>>, key: int, n: nat)
    requires n == Below(s, key)
    ensures Without(s, key) == if n < |s| && s[n].key == key then s[..n] + s[n + 1..] else s
  {
    assert s == s[..n] + s[n..];
  }

  lemma AddedAllNext<V>(s: seq<Item<V>>, xs: seq<Item<V>>, i: nat)
    requires i < |xs|
    ensures AddedAll(s, xs[..i + 1]) == Added(AddedAll(s, xs[..i]), xs[i])
  {
    assert xs[..i + 1][..i] == xs[..i];
  }

  lemma InsertedEnds<T>(s: seq<T>, xs: seq<T>)
    ensures Inserted(s, 0, xs) == xs + s && Inserted(s, |s|, xs) == s + xs
  {
    assert [] + xs + s == xs + s;
  }

  /** One turn of the naive merge. */
  method AddFrom<V(0)>(v: Vector<Item<V>>, other: Vector<Item<V>>, i: nat, ghost w: Universe<Item<V>>)
    requires w.Valid() && v in w.vectors && other in w.vectors && other != v && i < other.count
    requires Sorted(v.Contents()) && v.TailSafe(w)
    modifies v, w, v.storage
    ensures w.Valid() && w.vectors == old(w.vectors)
    ensures v.storage == old(v.storage) || fresh(v.storage)
    ensures v.Contents() == Added(old(v.Contents()), old(other.Contents())[i]) && Sorted(v.Contents())
    ensures v.TailSafe(w) && OthersKept(v, w)
  {
    var x := other.storage.data[i];
    var _ := Add(v, x, w);
  }

  /** The naive merge: add item by item.  The other vector need not be sorted. */
  method MergeNaive<V(0)>(v: Vector<Item<V>>, other: Vector<Item<V>>, ghost w: Universe<Item<V>>) returns (r: Status)
    requires w.Valid() && v in w.vectors && other in w.vectors && other != v
    requires Sorted(v.Contents()) && v.TailSafe(w)
    modifies v, w, v.storage
    ensures w.Valid() && w.vectors == old(w.vectors)
    ensures v.storage == old(v.storage) || fresh(v.storage)
    ensures v.Contents() == AddedAll(old(v.Contents()), old(other.Contents())) && Sorted(v.Contents())
    ensures v.TailSafe(w) && OthersKept(v, w)
  {
    ghost var s, xs := v.Contents(), other.Contents();
    ghost var sofar := s;
    for i := 0 to other.count
      invariant w.Valid() && w.vectors == old(w.vectors)
      invariant v.storage == old(v.storage) || fresh(v.storage)
      invariant v.TailSafe(w) && OthersKept(v, w)
      invariant v.Contents() == sofar == AddedAll(s, xs[..i]) && Sorted(sofar)
    {
      AddedAllNext(s, xs, i);
      AddFrom(v, other, i, w);
      sofar := Added(sofar, xs[i]);
    }
    assert xs[..other.count] == xs;
    return Index(0);
  }

  predicate BeforeAll<V>(xs: seq<Item<V>>, s: seq<Item<V>>) {
    xs != [] && s != [] && xs[|xs| - 1].key <= s[0].key
  }

  predicate AfterAll<V>(xs: seq<Item<V>>, s: seq<Item<V>>) {
    xs != [] && s != [] && xs[0].key >= s[|s| - 1].key
  }

  /** The fast paths: the whole other vector in front, or behind. */
  method MergeWhole<V(0)>(v: Vector<Item<V>>, other: Vector<Item<V>>, index: nat, ghost w: Universe<Item<V>>)
    requires w.Valid() && v in w.vectors && other in w.vectors && other != v && v.TailSafe(w)
    requires v.count > 0
    requires if BeforeAll(other.Contents(), v.Contents()) then index == 0
             else AfterAll(other.Contents(), v.Contents()) && index == v.count
    modifies v, w, v.storage
    ensures w.Valid() && w.vectors == old(w.vectors) && OthersKept(v, w)
    ensures v.Contents() == Merged(old(v.Contents()), old(other.Contents()))
  {
    InsertedEnds(v.Contents(), other.Contents());
    var _ := v.InsertVectorAt(other, index, w);
  }

  /** The slow path, which is right whenever the fast ones do not apply. */
  method MergeSlow<V(0)>(v: Vector<Item<V>>, other: Vector<Item<V>>, ghost w: Universe<Item<V>>)
    requires w.Valid() && v in w.vectors && other in w.vectors && other != v
    requires Sorted(v.Contents()) && v.TailSafe(w) && v.count > 0
    requires !BeforeAll(other.Contents(), v.Contents()) && !AfterAll(other.Contents(), v.Contents())
    modifies v, w, v.storage
    ensures w.Valid() && w.vectors == old(w.vectors) && OthersKept(v, w)
    ensures v.Contents() == Merged(old(v.Contents()), old(other.Contents()))
  {
    MergedSlow(v.Contents(), other.Contents());
    var _ := MergeNaive(v, other, w);
  }

  lemma MergedSlow<V>(s: seq<Item<V>>, xs: seq<Item<V>>)
    requires s != [] && !BeforeAll(xs, s) && !AfterAll(xs, s)
    ensures Merged(s, xs) == AddedAll(s, xs)
  {
  }

  /** merge(SortedVectorImpl); like the source it reads both ends of a non-empty receiver. */
  method Merge<V(0)>(v: Vector<Item<V>>, other: Vector<Item<V>>, ghost w: Universe<Item<V>>)
    requires w.Valid() && v in w.vectors && other in w.vectors && other != v
    requires Sorted(v.Contents()) && Sorted(other.Contents()) && v.TailSafe(w)
    requires v.count > 0
    modifies v, w, v.storage
    ensures w.Valid() && w.vectors == old(w.vectors)
    ensures v.Contents() == Merged(old(v.Contents()), old(other.Contents()))
    ensures OthersKept(v, w)
  {
    if other.count != 0 {
      if other.storage.data[other.count - 1].key <= v.storage.data[0].key {
        MergeWhole(v, other, 0, w);
      } else if other.storage.data[0].key >= v.storage.data[v.count - 1].key {
        MergeWhole(v, other, v.count, w);
      } else {
        MergeSlow(v, other, w);
      }
    }
  }
}
