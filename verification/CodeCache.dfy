/**
 CodeCache.cpp: generated assemblies by key, the least recently used evicted first.
 */
module CodeCaches {
  import opened Sequences

  datatype Assembly = Assembly(id: int, size: nat)

  /** What the cache holds under a key; `Entry` adds the time of its last use. */
  datatype Cached = Cached(key: int, assembly: Assembly)

  datatype Entry = Entry(c: Cached, when: nat)

  datatype Option<T> = None | Some(value: T)

  // The reference: a list in order of use, the least recently used first

  function Total(list: seq<Cached>): nat {
    if list == [] then 0 else list[0].assembly.size + Total(list[1..])
  }

  predicate Has(list: seq<Cached>, key: int) {
    exists k :: 0 <= k < |list| && list[k].key == key
  }

  predicate Distinct(list: seq<Cached>) {
    forall j, k :: 0 <= j < k < |list| ==> list[j].key != list[k].key
  }

  /** Drop from the front until `size` more bytes fit. */
  function Evicted(list: seq<Cached>, size: nat, limit: nat): seq<Cached> {
    if list == [] || Total(list) + size <= limit then list else Evicted(list[1..], size, limit)
  }

  /** What eviction keeps is the longest recent part that leaves room. */
  lemma {:induction false} LongestSuffix(list: seq<Cached>, size: nat, limit: nat) returns (k: nat)
    requires size <= limit
    ensures k <= |list| && Evicted(list, size, limit) == list[k..]
    ensures Total(list[k..]) + size <= limit
    ensures k == 0 || Total(list[k - 1..]) + size > limit
    decreases |list|
  {
    if list == [] || Total(list) + size <= limit {
      k := 0;
      assert list[0..] == list;
    } else {
      var j := LongestSuffix(list[1..], size, limit);
      k := j + 1;
      assert list[1..][j..] == list[k..];
      assert j > 0 ==> list[1..][j - 1..] == list[j..];
      assert j == 0 ==> list[j..] == list;
    }
  }

  function Find(list: seq<Cached>, key: int): (r: Option<Assembly>)
    ensures r.Some? <==> Has(list, key)
  {
    if list == [] then None
    else if list[0].key == key then Some(list[0].assembly)
    else
      var r := Find(list[1..], key);
      assert Has(list[1..], key) ==> Has(list, key) by {
        if k :| 0 <= k < |list[1..]| && list[1..][k].key == key {
          assert list[k + 1].key == key;
        }
      }
      assert forall k :: 0 <= k < |list| && list[k].key == key ==> list[1..][k - 1].key == key;
      r
  }

  lemma {:induction false} FindAt(list: seq<Cached>, k: nat)
    requires Distinct(list) && k < |list|
    ensures Find(list, list[k].key) == Some(list[k].assembly)
    decreases |list|
  {
    if k > 0 {
      assert list[0].key != list[k].key;
      FindAt(list[1..], k - 1);
    }
  }

  /** Move the k-th to the recent end. */
  function Touched(list: seq<Cached>, k: nat): seq<Cached>
    requires k < |list|
  {
    list[..k] + list[k + 1..] + [list[k]]
  }

  /** `after` is the list once the k-th, which is under the key, has been used. */
  predicate UsedAt(list: seq<Cached>, k: nat, key: int, after: seq<Cached>)
    requires k < |list|
  {
    list[k].key == key && after == Touched(list, k)
  }

  lemma {:induction false} TotalAppend(a: seq<Cached>, b: seq<Cached>)
    ensures Total(a + b) == Total(a) + Total(b)
    decreases |a|
  {
    if a == [] {
      assert a + b == b;
    } else {
      assert (a + b)[0] == a[0] && (a + b)[1..] == a[1..] + b;
      TotalAppend(a[1..], b);
    }
  }

  lemma TotalParts(a: seq<Cached>, x: Cached, b: seq<Cached>)
    ensures Total(a + [x] + b) == Total(a + b) + x.assembly.size
  {
    TotalAppend(a + [x], b);
    TotalAppend(a, [x]);
    TotalAppend(a, b);
  }

  lemma TotalWithout(list: seq<Cached>, k: nat)
    requires k < |list|
    ensures Total(list) == Total(list[..k] + list[k + 1..]) + list[k].assembly.size
  {
    var a, b := list[..k], list[k + 1..];
    SplitAround(list, k);
    TotalParts(a, list[k], b);
  }

  lemma TotalInserted(list: seq<Cached>, k: nat, x: Cached)
    requires k <= |list|
    ensures Total(list[..k] + [x] + list[k..]) == Total(list) + x.assembly.size
  {
    assert list == list[..k] + list[k..];
    TotalParts(list[..k], x, list[k..]);
  }

  lemma AdmitDistinct(list: seq<Cached>, k: nat, x: Cached)
    requires Distinct(list) && !Has(list, x.key) && k <= |list|
    ensures Distinct(list[k..] + [x])
  {
    var after := list[k..] + [x];
    forall i, j | 0 <= i < j < |after|
      ensures after[i].key != after[j].key
    {
      assert after[i] == list[k + i];
      assert j < |after| - 1 ==> after[j] == list[k + j];
    }
  }

  /** What an insertion makes of other keys: kept as they were, or evicted. */
  lemma AdmitKeepsOrEvicts(list: seq<Cached>, x: Cached, limit: nat, key: int)
    requires Distinct(list) && !Has(list, x.key) && x.assembly.size <= limit
    ensures var after := Evicted(list, x.assembly.size, limit) + [x];
      && Find(after, x.key) == Some(x.assembly) && Total(after) <= limit
      && (key != x.key && Has(after, key) ==> Find(after, key) == Find(list, key))
  {
    var k := LongestSuffix(list, x.assembly.size, limit);
    var after := list[k..] + [x];
    AdmitDistinct(list, k, x);
    TotalAppend(list[k..], [x]);
    FindAt(after, |list| - k);
    if key != x.key && Has(after, key) {
      var i :| 0 <= i < |after| && after[i].key == key;
      FindAt(after, i);
      FindAt(list, k + i);
    }
  }

  // The cache

  function Contents(data: seq<Entry>): (list: seq<Cached>)
    ensures |list| == |data| && forall k :: 0 <= k < |data| ==> list[k] == data[k].c
  {
    seq(|data|, k requires 0 <= k < |data| => data[k].c)
  }

  predicate ByKey(data: seq<Entry>) {
    forall j, k :: 0 <= j < k < |data| ==> data[j].c.key < data[k].c.key
  }

  predicate ByUse(order: seq<Entry>) {
    forall j, k :: 0 <= j < k < |order| ==> order[j].when < order[k].when
  }

  predicate Earlier(order: seq<Entry>, now: nat) {
    forall k :: 0 <= k < |order| ==> order[k].when < now
  }

  predicate SameEntries(a: seq<Entry>, b: seq<Entry>) {
    (forall e :: e in a ==> e in b) && (forall e :: e in b ==> e in a)
  }

  /** The entry used longest ago stands first in order of use. */
  lemma OldestIsFirst(data: seq<Entry>, order: seq<Entry>, k: nat)
    requires ByUse(order) && SameEntries(data, order) && k < |data|
    requires forall j :: 0 <= j < |data| ==> data[k].when <= data[j].when
    ensures order != [] && order[0] == data[k]
  {
    assert data[k] in order;
    var i :| 0 <= i < |order| && order[i] == data[k];
    assert order[0] in data;
    var j :| 0 <= j < |data| && data[j] == order[0];
    assert data[k].when <= data[j].when;
  }

  function Without(data: seq<Entry>, k: nat): seq<Entry>
    requires k < |data|
  {
    data[..k] + data[k + 1..]
  }

  /** Taking one entry out of both views. */
  lemma WithoutBoth(data: seq<Entry>, order: seq<Entry>, j: nat, k: nat)
    requires ByKey(data) && ByUse(order) && SameEntries(data, order) && j < |data| && k < |order| && data[j] == order[k]
    ensures ByKey(Without(data, j)) && ByUse(Without(order, k)) && SameEntries(Without(data, j), Without(order, k))
  {
    var d, o := Without(data, j), Without(order, k);
    forall e | e in d
      ensures e in o
    {
      assert e in data && e.c.key != data[j].c.key;
      var i :| 0 <= i < |order| && order[i] == e;
      assert o[if i < k then i else i - 1] == e;
    }
    forall e | e in o
      ensures e in d
    {
      assert e in order && e.when != order[k].when;
      var i :| 0 <= i < |data| && data[i] == e;
      assert d[if i < j then i else i - 1] == e;
    }
  }

  /** Putting a new entry, used last, into both views. */
  lemma AddBoth(data: seq<Entry>, order: seq<Entry>, j: nat, e: Entry)
    requires ByKey(data) && ByUse(order) && SameEntries(data, order) && j <= |data|
    requires forall i :: 0 <= i < |data| ==> if i < j then data[i].c.key < e.c.key else e.c.key < data[i].c.key
    requires forall i :: 0 <= i < |order| ==> order[i].when < e.when
    ensures var d := data[..j] + [e] + data[j..];
      ByKey(d) && ByUse(order + [e]) && SameEntries(d, order + [e])
  {
    var d := data[..j] + [e] + data[j..];
    forall x | x in data
      ensures x in d
    {
      var i :| 0 <= i < |data| && data[i] == x;
      assert d[if i < j then i else i + 1] == x;
    }
    assert d[j] == e;
  }

  lemma ContentsWithout(data: seq<Entry>, k: nat)
    requires k < |data|
    ensures Contents(Without(data, k)) == Contents(data)[..k] + Contents(data)[k + 1..]
    ensures Total(Contents(Without(data, k))) + data[k].c.assembly.size == Total(Contents(data))
  {
    assert Contents(Without(data, k)) == Contents(data)[..k] + Contents(data)[k + 1..];
    TotalWithout(Contents(data), k);
  }

  lemma EvictOne(data: seq<Entry>, order: seq<Entry>, lru: nat, now: nat,
      d: seq<Entry>, o: seq<Entry>)
    requires ByKey(data) && ByUse(order) && SameEntries(data, order) && Earlier(order, now)
    requires lru < |data| && order != [] && order[0] == data[lru] && d == Without(data, lru) && o == order[1..]
    ensures ByKey(d) && ByUse(o) && SameEntries(d, o) && Earlier(o, now) && |d| == |data| - 1
    ensures Contents(o) == Contents(order)[1..]
    ensures Total(Contents(d)) + data[lru].c.assembly.size == Total(Contents(data))
    ensures Total(Contents(o)) + data[lru].c.assembly.size == Total(Contents(order))
  {
    assert Without(order, 0) == order[1..];
    WithoutBoth(data, order, lru, 0);
    ContentsWithout(data, lru);
    ContentsWithout(order, 0);
  }

  /** Using an entry: its time changes in one view and its place in the other. */
  lemma TouchBoth(data: seq<Entry>, order: seq<Entry>, j: nat, k: nat, e: Entry)
    requires ByKey(data) && ByUse(order) && SameEntries(data, order) && j < |data| && k < |order| && data[j] == order[k]
    requires e.c == data[j].c && forall i :: 0 <= i < |order| ==> order[i].when < e.when
    ensures ByKey(data[j := e]) && ByUse(Without(order, k) + [e]) && SameEntries(data[j := e], Without(order, k) + [e])
  {
    WithoutBoth(data, order, j, k);
    var d := Without(data, j);
    assert d == data[..j] + data[j + 1..];
    AddBoth(d, Without(order, k), j, e);
    assert d[..j] + [e] + d[j..] == data[j := e];
  }

  lemma OrderDistinct(data: seq<Entry>, order: seq<Entry>)
    requires ByKey(data) && ByUse(order) && SameEntries(data, order)
    ensures Distinct(Contents(order))
  {
    forall j, k | 0 <= j < k < |order|
      ensures order[j].c.key != order[k].c.key
    {
      assert order[j] in data && order[k] in data;
    }
  }

  lemma TouchTotal(order: seq<Entry>, k: nat, e: Entry, after: seq<Entry>)
    requires k < |order| && e.c == order[k].c && after == Without(order, k) + [e]
    ensures Contents(after) == Touched(Contents(order), k) && Total(Contents(after)) == Total(Contents(order))
  {
    ContentsWithout(order, k);
    assert Contents(after) == Touched(Contents(order), k);
    TotalAppend(Contents(Without(order, k)), [e.c]);
  }

  lemma TouchOne(data: seq<Entry>, order: seq<Entry>, j: nat, k: nat, e: Entry, d: seq<Entry>, o: seq<Entry>)
    requires ByKey(data) && ByUse(order) && SameEntries(data, order) && Earlier(order, e.when)
    requires j < |data| && k < |order| && data[j] == order[k] && e.c == data[j].c
    requires d == data[j := e] && o == Without(order, k) + [e]
    ensures ByKey(d) && ByUse(o) && SameEntries(d, o) && Earlier(o, e.when + 1)
    ensures Contents(d) == Contents(data) && Total(Contents(o)) == Total(Contents(order))
    ensures UsedAt(Contents(order), k, e.c.key, Contents(o))
    ensures Find(Contents(order), e.c.key) == Some(e.c.assembly)
  {
    TouchBoth(data, order, j, k, e);
    TouchTotal(order, k, e, o);
    OrderDistinct(data, order);
    FindAt(Contents(order), k);
    assert Contents(d) == Contents(data);
  }

  lemma AddOne(data: seq<Entry>, order: seq<Entry>, i: nat, e: Entry)
    requires ByKey(data) && ByUse(order) && SameEntries(data, order) && i <= |data|
    requires forall k :: 0 <= k < |data| ==> if k < i then data[k].c.key < e.c.key else e.c.key < data[k].c.key
    requires forall k :: 0 <= k < |order| ==> order[k].when < e.when
    ensures var d := data[..i] + [e] + data[i..];
      && ByKey(d) && ByUse(order + [e]) && SameEntries(d, order + [e])
      && Total(Contents(d)) == Total(Contents(data)) + e.c.assembly.size
    ensures Contents(order + [e]) == Contents(order) + [e.c]
    ensures Total(Contents(order + [e])) == Total(Contents(order)) + e.c.assembly.size
  {
    AddBoth(data, order, i, e);
    var list := Contents(data);
    assert Contents(data[..i] + [e] + data[i..]) == list[..i] + [e.c] + list[i..];
    TotalInserted(list, i, e.c);
    assert Contents(order + [e]) == Contents(order) + [e.c];
    TotalAppend(Contents(order), [e.c]);
  }

  class CodeCache {
    const cacheSize: nat
    var inUse: nat
    /** mCacheData, sorted by key, and the clock. */
    var data: seq<Entry>
    var now: nat
    /** The entries in order of use. */
    ghost var order: seq<Entry>

    ghost predicate Valid()
      reads this
    {
      && ByKey(data) && ByUse(order) && SameEntries(data, order)
      && Earlier(order, now)
      && inUse == Total(Contents(data)) == Total(Contents(order)) <= cacheSize
    }

    /** The abstract cache. */
    ghost function Recency(): seq<Cached>
      reads this
    {
      Contents(order)
    }

    constructor (size: nat)
      ensures Valid() && Recency() == [] && cacheSize == size
    {
      cacheSize, inUse, data, now, order := size, 0, [], 0, [];
    }

    /** indexOfKey and, for an absent key, the insertion place. */
    method IndexOf(key: int) returns (found: bool, i: nat)
      requires Valid()
      ensures i <= |data| && (found <==> i < |data| && data[i].c.key == key)
      ensures !found ==> forall k :: 0 <= k < |data| ==> if k < i then data[k].c.key < key else key < data[k].c.key
    {
      i := 0;
      while i < |data| && data[i].c.key < key
        invariant i <= |data| && forall k :: 0 <= k < i ==> data[k].c.key < key
      {
        i := i + 1;
      }
      found := i < |data| && data[i].c.key == key;
    }

    /** lookup: what is stored under the key, which is now the one used last. */
    method Lookup(key: int) returns (r: Option<Assembly>)
      requires Valid()
      modifies `data, `now, `order
      ensures Valid() && r == Find(old(Recency()), key)
      ensures r == None ==> Recency() == old(Recency())
      ensures r != None ==> exists k :: 0 <= k < |old(Recency())| && UsedAt(old(Recency()), k, key, Recency())
    {
      var found, i := IndexOf(key);
      if !found {
        NotThere(data, order, key);
        return None;
      }
      var e := data[i].(when := now);
      r := Some(e.c.assembly);
      ghost var k := Place(data, order, i);
      var d := data[i := e];
      ghost var o := Without(order, k) + [e];
      TouchOne(data, order, i, k, e, d, o);
      data, order, now := d, o, now + 1;
      assert UsedAt(old(Recency()), k, key, Recency());
    }

    /** The entry used longest ago. */
    method FindLru() returns (lru: nat)
      requires Valid() && |data| > 0
      ensures lru < |data| && order != [] && order[0] == data[lru]
    {
      lru := 0;
      for i := 0 to |data|
        invariant 0 <= lru < |data| && forall j :: 0 <= j < i ==> data[lru].when <= data[j].when
      {
        if data[i].when < data[lru].when {
          lru := i;
        }
      }
      OldestIsFirst(data, order, lru);
    }

    /** One turn of the eviction loop: the entry used longest ago goes. */
    method EvictLru()
      requires Valid() && |data| > 0
      modifies `data, `inUse, `order
      ensures Valid() && |data| == |old(data)| - 1
      ensures old(Recency()) != [] && Recency() == old(Recency())[1..]
    {
      var lru := FindLru();
      var d := Without(data, lru);
      ghost var o := order[1..];
      EvictOne(data, order, lru, now, d, o);
      inUse := inUse - data[lru].c.assembly.size;
      data, order := d, o;
    }

    /**
     cache: evict until the assembly fits, then store it.  The caller never stores
     a key twice, nor an assembly larger than the cache.
     */
    method Cache(key: int, assembly: Assembly)
      requires Valid() && !Has(Recency(), key) && assembly.size <= cacheSize
      modifies `data, `inUse, `now, `order
      ensures Valid()
      ensures Recency() == Evicted(old(Recency()), assembly.size, cacheSize) + [Cached(key, assembly)]
    {
      EvictFor(key, assembly.size);
      var found, i := IndexOf(key);
      FreshKey(data, order, key);
      var e := Entry(Cached(key, assembly), now);
      AddOne(data, order, i, e);
      data := data[..i] + [e] + data[i..];
      order := order + [e];
      inUse := inUse + assembly.size;
      now := now + 1;
    }

    /** The eviction loop; with nothing left to evict an assembly of this size fits. */
    method EvictFor(ghost key: int, size: nat)
      requires Valid() && size <= cacheSize && !Has(Recency(), key)
      modifies `data, `inUse, `order
      ensures Valid() && !Has(Recency(), key) && inUse + size <= cacheSize
      ensures Recency() == Evicted(old(Recency()), size, cacheSize)
    {
      while inUse + size > cacheSize
        invariant Valid() && !Has(Recency(), key)
        invariant Evicted(Recency(), size, cacheSize) == Evicted(old(Recency()), size, cacheSize)
        decreases |data|
      {
        ghost var list := Recency();
        assert data != [] by {
          assert data == [] ==> Contents(data) == [];
        }
        EvictLru();
        StillFresh(list, key);
      }
    }
  }

  lemma StillFresh(list: seq<Cached>, key: int)
    requires list != [] && !Has(list, key)
    ensures !Has(list[1..], key)
  {
    assert forall k :: 0 <= k < |list[1..]| ==> list[1..][k] == list[k + 1];
  }

  lemma NotThere(data: seq<Entry>, order: seq<Entry>, key: int)
    requires SameEntries(data, order) && forall k :: 0 <= k < |data| ==> data[k].c.key != key
    ensures !Has(Contents(order), key)
  {
    forall k | 0 <= k < |order|
      ensures order[k].c.key != key
    {
      assert order[k] in data;
    }
  }

  lemma FreshKey(data: seq<Entry>, order: seq<Entry>, key: int)
    requires SameEntries(data, order) && !Has(Contents(order), key)
    ensures forall k :: 0 <= k < |data| ==> data[k].c.key != key
  {
    forall k | 0 <= k < |data|
      ensures data[k].c.key != key
    {
      var j := Place(data, order, k);
      assert Contents(order)[j].key == data[k].c.key;
    }
  }

  /** Where an entry stands in order of use. */
  lemma Place(data: seq<Entry>, order: seq<Entry>, i: nat) returns (k: nat)
    requires SameEntries(data, order) && i < |data|
    ensures k < |order| && order[k] == data[i]
  {
    assert data[i] in order;
    k :| 0 <= k < |order| && order[k] == data[i];
  }
}
