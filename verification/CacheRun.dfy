/**
 Whole runs of the code cache (CodeCache.cpp, as scanline.cpp uses it: look up, and on
 a miss generate and, if that works, store).  What is cached is always a function of
 the requests.
 */
module CacheRuns {
  import opened CodeCaches
  import opened Sequences

  /** A key, what generating for it gives, and whether that fails. */
  datatype Request = Request(x: Cached, fails: bool)

  // Everything ever requested, in order of its last use

  function Dropped(list: seq<Cached>, key: int): seq<Cached> {
    if list == [] then []
    else if list[0].key == key then Dropped(list[1..], key)
    else [list[0]] + Dropped(list[1..], key)
  }

  /** What a request gets that is not refused: what is cached under its key, or what is generated for it. */
  function Answer(stack: seq<Cached>, x: Cached, limit: nat): Assembly {
    match Find(Evicted(stack, 0, limit), x.key)
    case Some(a) => a
    case None => x.assembly
  }

  /** The stack after a request: nothing is ever evicted from it. */
  function Used(stack: seq<Cached>, x: Cached, limit: nat): seq<Cached> {
    Dropped(stack, x.key) + [Cached(x.key, Answer(stack, x, limit))]
  }

  /** Generation is needed, and fails. */
  predicate Refused(stack: seq<Cached>, q: Request, limit: nat) {
    q.fails && !Has(Evicted(stack, 0, limit), q.x.key)
  }

  function Given(stack: seq<Cached>, q: Request, limit: nat): Option<Assembly> {
    if Refused(stack, q, limit) then None else Some(Answer(stack, q.x, limit))
  }

  function Next(stack: seq<Cached>, q: Request, limit: nat): seq<Cached> {
    if Refused(stack, q, limit) then stack else Used(stack, q.x, limit)
  }

  /** The stack after the first n requests. */
  function Stack(requests: seq<Request>, n: nat, limit: nat): seq<Cached>
    requires n <= |requests|
  {
    if n == 0 then [] else Next(Stack(requests, n - 1, limit), requests[n - 1], limit)
  }

  /** A key's assembly always has the same size. */
  predicate Sized(list: seq<Cached>, size: int -> nat) {
    forall k :: 0 <= k < |list| ==> list[k].assembly.size == size(list[k].key)
  }

  predicate AllSized(requests: seq<Request>, size: int -> nat) {
    forall k :: 0 <= k < |requests| && !requests[k].fails ==> requests[k].x.assembly.size == size(requests[k].x.key)
  }

  lemma {:induction false} DroppedAppend(a: seq<Cached>, b: seq<Cached>, key: int)
    ensures Dropped(a + b, key) == Dropped(a, key) + Dropped(b, key)
    decreases |a|
  {
    if a == [] {
      assert a + b == b;
    } else {
      assert (a + b)[0] == a[0] && (a + b)[1..] == a[1..] + b;
      DroppedAppend(a[1..], b, key);
    }
  }

  lemma {:induction false} DroppedNone(list: seq<Cached>, key: int)
    requires forall k :: 0 <= k < |list| ==> list[k].key != key
    ensures Dropped(list, key) == list
    decreases |list|
  {
    if list != [] {
      DroppedNone(list[1..], key);
    }
  }

  lemma DroppedOne(a: seq<Cached>, e: Cached, b: seq<Cached>, key: int)
    requires e.key == key && (forall k :: 0 <= k < |a| ==> a[k].key != key)
    requires forall k :: 0 <= k < |b| ==> b[k].key != key
    ensures Dropped(a + [e] + b, key) == a + b
  {
    DroppedAppend(a + [e], b, key);
    DroppedAppend(a, [e], key);
    DroppedNone(a, key);
    DroppedNone(b, key);
    assert [e][1..] == [];
  }

  lemma KeysApart(list: seq<Cached>, k: nat, a: seq<Cached>, b: seq<Cached>)
    requires Distinct(list) && k < |list| && a == list[..k] && b == list[k + 1..]
    ensures forall i :: 0 <= i < |a| ==> a[i].key != list[k].key
    ensures forall i :: 0 <= i < |b| ==> b[i].key != list[k].key
  {
    forall i | 0 <= i < |b|
      ensures b[i].key != list[k].key
    {
      assert b[i] == list[k + 1 + i];
    }
  }

  lemma DroppedAt(list: seq<Cached>, k: nat)
    requires Distinct(list) && k < |list|
    ensures Dropped(list, list[k].key) == list[..k] + list[k + 1..]
  {
    var a, b := list[..k], list[k + 1..];
    KeysApart(list, k, a, b);
    SplitAround(list, k);
    DroppedOne(a, list[k], b, list[k].key);
  }

  lemma {:induction false} DroppedIn(list: seq<Cached>, key: int, k: nat) returns (j: nat)
    requires k < |Dropped(list, key)|
    ensures j < |list| && list[j] == Dropped(list, key)[k] && list[j].key != key
    decreases |list|
  {
    if list[0].key == key {
      j := DroppedIn(list[1..], key, k);
      j := j + 1;
    } else if k == 0 {
      j := 0;
    } else {
      j := DroppedIn(list[1..], key, k - 1);
      j := j + 1;
    }
  }

  lemma {:induction false} DroppedDistinct(list: seq<Cached>, key: int)
    requires Distinct(list)
    ensures Distinct(Dropped(list, key)) && !Has(Dropped(list, key), key)
    decreases |list|
  {
    var d := Dropped(list, key);
    if list != [] {
      var rest := Dropped(list[1..], key);
      DroppedDistinct(list[1..], key);
      if list[0].key != key {
        forall k | 0 <= k < |rest|
          ensures rest[k].key != list[0].key
        {
          var j := DroppedIn(list[1..], key, k);
        }
        assert d == [list[0]] + rest;
      }
    }
    forall k | 0 <= k < |d|
      ensures d[k].key != key
    {
      var j := DroppedIn(list, key, k);
    }
  }

  lemma StackStep(stack: seq<Cached>, x: Cached, limit: nat, size: int -> nat)
    requires Distinct(stack) && Sized(stack, size)
    requires x.assembly.size == size(x.key) || Has(Evicted(stack, 0, limit), x.key)
    ensures Distinct(Used(stack, x, limit)) && Sized(Used(stack, x, limit), size)
  {
    var d := Dropped(stack, x.key);
    DroppedDistinct(stack, x.key);
    forall k | 0 <= k < |d|
      ensures d[k].assembly.size == size(d[k].key) && d[k].key != x.key
    {
      var j := DroppedIn(stack, x.key, k);
    }
    AnswerSized(stack, x, limit, size);
  }

  lemma AnswerSized(stack: seq<Cached>, x: Cached, limit: nat, size: int -> nat)
    requires Sized(stack, size)
    requires x.assembly.size == size(x.key) || Has(Evicted(stack, 0, limit), x.key)
    ensures Answer(stack, x, limit).size == size(x.key)
  {
    var k := LongestSuffix(stack, 0, limit);
    var kept := stack[k..];
    if Has(kept, x.key) {
      var i := FindFirst(kept, x.key);
      assert kept[i] == stack[k + i];
    }
  }

  lemma {:induction false} FindFirst(list: seq<Cached>, key: int) returns (i: nat)
    requires Has(list, key)
    ensures i < |list| && list[i].key == key && Find(list, key) == Some(list[i].assembly)
    decreases |list|
  {
    if list[0].key == key {
      i := 0;
    } else {
      var k :| 0 <= k < |list| && list[k].key == key;
      assert list[1..][k - 1].key == key;
      i := FindFirst(list[1..], key);
      i := i + 1;
    }
  }

  // The cache is the longest recent part of the stack that fits

  lemma {:induction false} SuffixIs(gone: seq<Cached>, kept: seq<Cached>, limit: nat)
    requires Total(kept) <= limit && (gone != [] ==> gone[|gone| - 1].assembly.size + Total(kept) > limit)
    ensures Evicted(gone + kept, 0, limit) == kept
    decreases |gone|
  {
    if gone == [] {
      assert gone + kept == kept;
    } else {
      var most, last := gone[..|gone| - 1], gone[|gone| - 1..];
      assert gone + kept == most + (last + kept);
      TotalAppend(most, last + kept);
      assert (last + kept)[1..] == kept;
      assert (gone + kept)[1..] == gone[1..] + kept;
      SuffixIs(gone[1..], kept, limit);
    }
  }

  lemma HasSuffix(list: seq<Cached>, i: nat, key: int)
    requires Distinct(list) && i <= |list| && Has(list[i..], key)
    ensures forall k :: 0 <= k < i ==> list[k].key != key
  {
    var k :| 0 <= k < |list[i..]| && list[i..][k].key == key;
    assert list[i + k].key == key;
  }

  lemma LastGone(list: seq<Cached>, i: nat)
    requires 0 < i <= |list|
    ensures Total(list[i - 1..]) == list[i - 1].assembly.size + Total(list[i..])
    ensures list[..i][|list[..i]| - 1] == list[i - 1]
  {
    assert list[i - 1..][1..] == list[i..];
  }

  /** A hit: the entry moves to the recent end of cache and stack alike. */
  lemma HitStep(stack: seq<Cached>, x: Cached, k: nat, limit: nat)
    requires Distinct(stack) && k < |Evicted(stack, 0, limit)| && Evicted(stack, 0, limit)[k].key == x.key
    ensures Answer(stack, x, limit) == Evicted(stack, 0, limit)[k].assembly
    ensures Evicted(Used(stack, x, limit), 0, limit) == Touched(Evicted(stack, 0, limit), k)
  {
    var i := LongestSuffix(stack, 0, limit);
    var gone, kept := stack[..i], stack[i..];
    if i > 0 {
      LastGone(stack, i);
    }
    FindAt(kept, k);
    HasSuffix(stack, i, x.key);
    assert stack == gone + kept;
    HitParts(gone, kept, x.key, k, limit);
  }

  lemma HitParts(gone: seq<Cached>, kept: seq<Cached>, key: int, k: nat, limit: nat)
    requires Distinct(kept) && k < |kept| && kept[k].key == key && forall i :: 0 <= i < |gone| ==> gone[i].key != key
    requires Total(kept) <= limit && (gone != [] ==> gone[|gone| - 1].assembly.size + Total(kept) > limit)
    ensures Evicted(Dropped(gone + kept, key) + [kept[k]], 0, limit) == Touched(kept, k)
  {
    var left, e := kept[..k] + kept[k + 1..], kept[k];
    DroppedAppend(gone, kept, key);
    DroppedNone(gone, key);
    DroppedAt(kept, k);
    TotalWithout(kept, k);
    TotalAppend(left, [e]);
    TotalOne(e);
    Assoc(gone, left, [e]);
    SuffixIs(gone, left + [e], limit);
  }

  /** The last entry left of what is gone, once the key is dropped, still does not fit. */
  lemma StillTooMuch(gone: seq<Cached>, x: Cached, rest: nat, limit: nat, size: int -> nat)
    requires gone != [] && Sized(gone, size) && x.assembly.size == size(x.key)
    requires gone[|gone| - 1].assembly.size + rest > limit && x.assembly.size + rest <= limit
    ensures var left := Dropped(gone, x.key);
      left != [] && left[|left| - 1] == gone[|gone| - 1]
  {
    var most, last := gone[..|gone| - 1], [gone[|gone| - 1]];
    assert gone == most + last;
    DroppedAppend(most, last, x.key);
    assert last[1..] == [];
    assert Dropped(last, x.key) == last;
  }

  lemma Regroup<T>(a: seq<T>, b: seq<T>, c: seq<T>, d: seq<T>)
    ensures a + (b + c) + d == (a + b) + (c + d)
  {
  }

  lemma UsedOnMiss(stack: seq<Cached>, gone: seq<Cached>, kept: seq<Cached>, x: Cached, limit: nat)
    requires stack == gone + kept && kept == Evicted(stack, 0, limit) && !Has(kept, x.key)
    ensures Used(stack, x, limit) == Dropped(gone, x.key) + kept + [x]
  {
    DroppedAppend(gone, kept, x.key);
    DroppedNone(kept, x.key);
  }

  lemma LastOfBoth<T>(a: seq<T>, b: seq<T>)
    ensures b != [] ==> (a + b)[|a + b| - 1] == b[|b| - 1]
    ensures b == [] ==> a + b == a
  {
  }

  lemma TotalOne(x: Cached)
    ensures Total([x]) == x.assembly.size
  {
    assert [x][1..] == [];
  }

  /** A miss: what is evicted to make room is what the stack's longest fitting part loses. */
  lemma MissStep(stack: seq<Cached>, x: Cached, limit: nat, size: int -> nat)
    requires Distinct(stack) && Sized(stack, size) && x.assembly.size == size(x.key) <= limit
    requires !Has(Evicted(stack, 0, limit), x.key)
    ensures Evicted(Used(stack, x, limit), 0, limit)
         == Evicted(Evicted(stack, 0, limit), x.assembly.size, limit) + [x]
  {
    var i := LongestSuffix(stack, 0, limit);
    var gone, kept := stack[..i], stack[i..];
    if i > 0 {
      LastGone(stack, i);
    }
    assert stack == gone + kept;
    UsedOnMiss(stack, gone, kept, x, limit);
    MissParts(gone, kept, x, limit, size);
  }

  lemma MissParts(gone: seq<Cached>, kept: seq<Cached>, x: Cached, limit: nat, size: int -> nat)
    requires Sized(gone, size) && x.assembly.size == size(x.key) <= limit && Total(kept) <= limit
    requires gone != [] ==> gone[|gone| - 1].assembly.size + Total(kept) > limit
    ensures Evicted(Dropped(gone, x.key) + kept + [x], 0, limit) == Evicted(kept, x.assembly.size, limit) + [x]
  {
    var j := LongestSuffix(kept, x.assembly.size, limit);
    var older, stays, left := kept[..j], kept[j..], Dropped(gone, x.key);
    SplitAt(kept, j);
    Regroup(left, older, stays, [x]);
    if j > 0 {
      LastGone(kept, j);
    } else if gone != [] {
      assert stays == kept;
      StillTooMuch(gone, x, Total(kept), limit, size);
    }
    LastOfBoth(left, older);
    RoomFor(left + older, stays, x, limit);
  }

  lemma RoomFor(gone: seq<Cached>, stays: seq<Cached>, x: Cached, limit: nat)
    requires Total(stays) + x.assembly.size <= limit
    requires gone != [] ==> gone[|gone| - 1].assembly.size + Total(stays) + x.assembly.size > limit
    ensures Evicted(gone + (stays + [x]), 0, limit) == stays + [x]
  {
    TotalAppend(stays, [x]);
    TotalOne(x);
    SuffixIs(gone, stays + [x], limit);
  }

  // Runs

  lemma {:induction false} StackKeeps(requests: seq<Request>, n: nat, limit: nat, size: int -> nat)
    requires AllSized(requests, size) && n <= |requests|
    ensures Distinct(Stack(requests, n, limit)) && Sized(Stack(requests, n, limit), size)
    decreases n
  {
    if n > 0 {
      var before := Stack(requests, n - 1, limit);
      StackKeeps(requests, n - 1, limit, size);
      if !Refused(before, requests[n - 1], limit) {
        StackStep(before, requests[n - 1].x, limit, size);
      }
    }
  }

  /** Look up, and on a miss store what is generated, if that works. */
  method Serve(cache: CodeCache, q: Request, ghost stack: seq<Cached>, ghost size: int -> nat)
    returns (a: Option<Assembly>)
    requires cache.Valid() && cache.Recency() == Evicted(stack, 0, cache.cacheSize)
    requires Distinct(stack) && Sized(stack, size)
    requires !q.fails ==> q.x.assembly.size == size(q.x.key) <= cache.cacheSize
    modifies cache
    ensures cache.Valid() && cache.Recency() == Evicted(Next(stack, q, cache.cacheSize), 0, cache.cacheSize)
    ensures a == Given(stack, q, cache.cacheSize)
  {
    ghost var was := cache.Recency();
    a := cache.Lookup(q.x.key);
    if a.Some? {
      ghost var k :| 0 <= k < |was| && UsedAt(was, k, q.x.key, cache.Recency());
      HitStep(stack, q.x, k, cache.cacheSize);
    } else if !q.fails {
      a := Some(q.x.assembly);
      MissStep(stack, q.x, cache.cacheSize, size);
      cache.Cache(q.x.key, q.x.assembly);
    }
  }

  /**
   After any requests the cache holds exactly the longest recent part of the stack
   that fits, and each request got what was cached, or generated, for it.
   */
  method ServeAll(cache: CodeCache, requests: seq<Request>, ghost size: int -> nat)
    returns (answers: seq<Option<Assembly>>)
    requires cache.Valid() && cache.Recency() == [] && AllSized(requests, size)
    requires forall k :: 0 <= k < |requests| && !requests[k].fails ==> requests[k].x.assembly.size <= cache.cacheSize
    modifies cache
    ensures cache.Valid()
    ensures cache.Recency() == Evicted(Stack(requests, |requests|, cache.cacheSize), 0, cache.cacheSize)
    ensures |answers| == |requests|
    ensures forall k {:trigger answers[k]} :: 0 <= k < |requests| ==>
              answers[k] == Given(Stack(requests, k, cache.cacheSize), requests[k], cache.cacheSize)
  {
    answers := [];
    for i := 0 to |requests|
      invariant cache.Valid()
      invariant cache.Recency() == Evicted(Stack(requests, i, cache.cacheSize), 0, cache.cacheSize)
      invariant |answers| == i
      invariant forall k {:trigger answers[k]} :: 0 <= k < i ==>
                  answers[k] == Given(Stack(requests, k, cache.cacheSize), requests[k], cache.cacheSize)
    {
      StackKeeps(requests, i, cache.cacheSize, size);
      var a := Serve(cache, requests[i], Stack(requests, i, cache.cacheSize), size);
      answers := answers + [a];
    }
  }

  /** What was used at or after the last use of the key, each key once. */
  function Since(stack: seq<Cached>, key: int): seq<Cached> {
    if stack == [] || stack[0].key == key then stack else Since(stack[1..], key)
  }

  /**
   A request is answered from the cache exactly when the key was used before and
   all that was used since then, itself included, fits the cache together.
   */
  lemma {:induction false} HitIff(stack: seq<Cached>, key: int, limit: nat)
    requires Distinct(stack)
    ensures Has(Evicted(stack, 0, limit), key) <==> Has(stack, key) && Total(Since(stack, key)) <= limit
    decreases |stack|
  {
    if stack != [] {
      var rest := stack[1..];
      HitIff(rest, key, limit);
      HasRest(stack, key);
      if stack[0].key == key {
        SuffixHas(rest, key, limit);
      } else {
        SinceTotal(rest, key);
      }
    }
  }

  lemma HasRest(list: seq<Cached>, key: int)
    requires list != []
    ensures Has(list, key) <==> list[0].key == key || Has(list[1..], key)
  {
    if Has(list[1..], key) {
      var k :| 0 <= k < |list[1..]| && list[1..][k].key == key;
      assert list[k + 1].key == key;
    }
    if Has(list, key) && list[0].key != key {
      var k :| 0 <= k < |list| && list[k].key == key;
      assert list[1..][k - 1].key == key;
    }
  }

  lemma SuffixHas(list: seq<Cached>, key: int, limit: nat)
    ensures Has(Evicted(list, 0, limit), key) ==> Has(list, key)
  {
    var i := LongestSuffix(list, 0, limit);
    if Has(list[i..], key) {
      var k :| 0 <= k < |list[i..]| && list[i..][k].key == key;
      assert list[i + k].key == key;
    }
  }

  lemma {:induction false} SinceTotal(list: seq<Cached>, key: int)
    ensures Total(Since(list, key)) <= Total(list)
    decreases |list|
  {
    if list != [] && list[0].key != key {
      SinceTotal(list[1..], key);
    }
  }

  /** A key's entry in the stack is what its last request that got something got. */
  lemma {:induction false} LastAnswer(requests: seq<Request>, j: nat, i: nat, limit: nat, size: int -> nat)
    requires AllSized(requests, size) && j < i <= |requests| && NoneBetween(requests, j, i, limit)
    ensures Find(Stack(requests, i, limit), requests[j].x.key)
         == Some(Answer(Stack(requests, j, limit), requests[j].x, limit))
    decreases i
  {
    var before, after, q := Stack(requests, i - 1, limit), Stack(requests, i, limit), requests[i - 1];
    StackKeeps(requests, i, limit, size);
    assert after == Next(before, q, limit);
    if j == i - 1 {
      FindAt(after, |after| - 1);
    } else {
      LastAnswer(requests, j, i - 1, limit, size);
      if !Refused(before, q, limit) {
        FindAfterUse(before, q.x, limit, requests[j].x.key);
      }
    }
  }

  /** Request j got something, and none for its key between it and request i did. */
  predicate NoneBetween(requests: seq<Request>, j: nat, i: nat, limit: nat)
    requires j < i <= |requests|
  {
    && !Refused(Stack(requests, j, limit), requests[j], limit)
    && forall k {:trigger requests[k].x.key} :: j < k < i && requests[k].x.key == requests[j].x.key ==>
         Refused(Stack(requests, k, limit), requests[k], limit)
  }

  lemma FindAfterUse(before: seq<Cached>, x: Cached, limit: nat, key: int)
    requires x.key != key
    ensures Find(Used(before, x, limit), key) == Find(before, key)
  {
    FindOther(before, x, Cached(x.key, Answer(before, x, limit)), key);
  }

  /** Dropping one key and adding it at the end changes nothing for another. */
  lemma {:induction false} FindOther(list: seq<Cached>, x: Cached, e: Cached, key: int)
    requires e.key == x.key != key
    ensures Find(Dropped(list, x.key) + [e], key) == Find(list, key)
    decreases |list|
  {
    if list == [] {
      assert [e][1..] == [];
    } else {
      FindOther(list[1..], x, e, key);
      if list[0].key != x.key {
        var d := Dropped(list[1..], x.key) + [e];
        assert Dropped(list, x.key) + [e] == [list[0]] + d;
        assert ([list[0]] + d)[1..] == d;
      }
    }
  }

  /**
   The run-level law of the cache: a request gets again what the last request for
   its key got exactly as long as what was used since fits, and otherwise what is
   generated for it.
   */
  lemma Remembered(requests: seq<Request>, j: nat, i: nat, limit: nat, size: int -> nat)
    requires AllSized(requests, size) && j < i < |requests| && requests[i].x.key == requests[j].x.key
    requires NoneBetween(requests, j, i, limit)
    ensures var stack, q := Stack(requests, i, limit), requests[i];
      Given(stack, q, limit)
      == if Total(Since(stack, q.x.key)) <= limit then Given(Stack(requests, j, limit), requests[j], limit)
         else if q.fails then None else Some(q.x.assembly)
  {
    var stack, key := Stack(requests, i, limit), requests[i].x.key;
    StackKeeps(requests, i, limit, size);
    LastAnswer(requests, j, i, limit, size);
    HitIff(stack, key, limit);
    if Has(Evicted(stack, 0, limit), key) {
      FindSuffix(stack, key, limit);
    }
  }

  lemma FindSuffix(stack: seq<Cached>, key: int, limit: nat)
    requires Distinct(stack) && Has(Evicted(stack, 0, limit), key)
    ensures Find(Evicted(stack, 0, limit), key) == Find(stack, key)
  {
    var i := LongestSuffix(stack, 0, limit);
    var k := FindFirst(stack[i..], key);
    assert stack[i + k] == stack[i..][k];
    FindAt(stack, i + k);
  }
}
