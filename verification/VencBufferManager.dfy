/**
 OMX_VencBufferManager.cpp: a queue of buffer headers, linked through a fixed pool
 of nodes.  A node is free when its header pointer is null, here 0.
 */
module VencBufferManagers {
  type Header = int

  const NULL: Header := 0

  datatype Result = NoError | BadParameter | InsufficientResources | Undefined

  class Node {
    var buffer: Header
    var next: Node?

    constructor ()
      ensures buffer == NULL && next == null
    {
      buffer, next := NULL, null;
    }
  }

  predicate Distinct(nodes: seq<Node>) {
    forall i, j :: 0 <= i < j < |nodes| ==> nodes[i] != nodes[j]
  }

  function At(list: seq<Node>, i: nat): Node? {
    if i < |list| then list[i] else null
  }

  /** Each node of the list points to the one after it, and the last to none. */
  ghost predicate Chain(list: seq<Node>)
    reads list
  {
    forall i {:trigger list[i].next} :: 0 <= i < |list| ==> list[i].next == At(list, i + 1)
  }

  ghost function Headers(list: seq<Node>): (b: seq<Header>)
    reads list
    ensures |b| == |list| && forall i :: 0 <= i < |list| ==> b[i] == list[i].buffer
  {
    seq(|list|, i requires 0 <= i < |list| reads list => list[i].buffer)
  }

  /** The place of the first occurrence, or the length of the list. */
  function IndexOf(b: seq<Header>, x: Header): (k: nat)
    ensures k <= |b| && (k < |b| ==> b[k] == x) && forall i :: 0 <= i < k ==> b[i] != x
  {
    if b == [] || b[0] == x then 0 else
      var k := 1 + IndexOf(b[1..], x);
      assert forall i :: 1 <= i < k ==> b[i] == b[1..][i - 1];
      k
  }

  function Without<T>(list: seq<T>, k: nat): seq<T>
    requires k < |list|
  {
    list[..k] + list[k + 1..]
  }

  /** The list without the first occurrence of x. */
  function Removed(b: seq<Header>, x: Header): seq<Header> {
    var k := IndexOf(b, x);
    if k < |b| then Without(b, k) else b
  }

  lemma IndexIs(b: seq<Header>, x: Header, k: nat)
    requires k <= |b| && (k < |b| ==> b[k] == x) && forall i :: 0 <= i < k ==> b[i] != x
    ensures k == IndexOf(b, x)
  {
  }

  lemma HeadersWithout(list: seq<Node>, k: nat)
    requires k < |list|
    ensures Headers(Without(list, k)) == Without(Headers(list), k)
  {
  }

  lemma WithoutDistinct(list: seq<Node>, k: nat)
    requires Distinct(list) && k < |list|
    ensures Distinct(Without(list, k))
  {
  }

  lemma WithoutIs(list: seq<Node>, k: nat)
    requires Distinct(list) && k < |list|
    ensures forall n :: n in Without(list, k) <==> n in list && n != list[k]
  {
    var now := Without(list, k);
    forall n | n in list && n != list[k]
      ensures n in now
    {
      var i :| 0 <= i < |list| && list[i] == n;
      assert now[if i < k then i else i - 1] == n;
    }
  }

  /** Pointing the node before k past it leaves a chain without it. */
  lemma ChainWithout(was: seq<Node>, k: nat, now: seq<Node>)
    requires k < |was| && now == Without(was, k)
    requires forall i {:trigger was[i].next} :: 0 <= i < |was| && i != k ==>
               was[i].next == At(was, if i == k - 1 then k + 1 else i + 1)
    ensures Chain(now) && At(now, 0) == At(was, if k == 0 then 1 else 0)
    ensures forall i :: 0 <= i < |now| ==> now[i] == was[if i < k then i else i + 1]
  {
    forall i | 0 <= i < |now|
      ensures now[i].next == At(now, i + 1)
    {
      assert now[i] == was[if i < k then i else i + 1];
      assert At(now, i + 1) == At(was, if i + 1 < k then i + 1 else i + 2);
    }
  }

  class VencBufferManager {
    const pool: seq<Node>
    ghost const nodes: set<Node> := set n | n in pool
    var head: Node?
    var nBuffers: nat
    ghost var list: seq<Node>

    /** From the head, one acyclic sequence of pool nodes, of the stored length. */
    ghost predicate Linked()
      reads this, nodes, list
    {
      && Distinct(pool) && Distinct(list) && (forall i :: 0 <= i < |list| ==> list[i] in nodes)
      && head == At(list, 0)
      && Chain(list) && nBuffers == |list|
    }

    /** And a node is on it exactly when it holds a header. */
    ghost predicate Valid()
      reads this, nodes, list
    {
      Linked() && forall n :: n in nodes ==> (n.buffer != NULL <==> n in list)
    }

    ghost function Buffers(): seq<Header>
      reads this, list
    {
      Headers(list)
    }

    constructor (maxFreeBuffers: nat)
      ensures Valid() && Buffers() == [] && |pool| == maxFreeBuffers
      ensures forall n :: n in nodes ==> fresh(n)
    {
      var all: seq<Node> := [];
      while |all| < maxFreeBuffers
        invariant |all| <= maxFreeBuffers && Distinct(all)
        invariant forall n :: n in all ==> fresh(n) && n.buffer == NULL
      {
        var n := new Node();
        all := all + [n];
      }
      pool, head, nBuffers, list := all, null, 0, [];
    }

    /** The first free place of the pool from i on. */
    ghost function FreeFrom(i: nat): nat
      reads pool
      decreases |pool| - i
    {
      if i >= |pool| || pool[i].buffer == NULL then i else FreeFrom(i + 1)
    }

    /** The first node of the pool without a header. */
    method AllocNode() returns (node: Node?)
      requires Linked()
      ensures node == At(pool, FreeFrom(0))
      ensures node != null ==>
                && node in nodes && node.buffer == NULL
                && exists k :: 0 <= k < |pool| && pool[k] == node && forall j :: 0 <= j < k ==> pool[j].buffer != NULL
      ensures node == null ==> forall n :: n in nodes ==> n.buffer != NULL
    {
      for i := 0 to |pool|
        invariant FreeFrom(0) == FreeFrom(i) && forall k :: 0 <= k < i ==> pool[k].buffer != NULL
      {
        if pool[i].buffer == NULL {
          return pool[i];
        }
      }
      return null;
    }

    method FreeNode(node: Node)
      requires node in pool
      modifies node
      ensures node.buffer == NULL && node.next == null
    {
      for i := 0 to |pool|
        invariant forall k :: 0 <= k < i ==> pool[k] != node
      {
        if pool[i] == node {
          node.buffer := NULL;
          node.next := null;
          return;
        }
      }
      assert false;
    }

    /** The last node of the list. */
    method FindLast() returns (last: Node)
      requires Linked() && list != []
      ensures last == list[|list| - 1]
    {
      last := head;
      var curr := head;
      ghost var i := 0;
      while curr != null
        invariant i <= |list| && (curr == At(list, i))
        invariant i > 0 ==> last == list[i - 1]
        invariant i == 0 ==> curr != null
        decreases |list| - i
      {
        last := curr;
        curr := curr.next;
        i := i + 1;
      }
    }

    /** Append a node that is not on the list yet. */
    method Append(node: Node)
      requires Linked() && node in nodes && node !in list && node.next == null
      modifies this`head, this`nBuffers, this`list, nodes`next
      ensures Linked() && list == old(list) + [node]
    {
      if head == null {
        head := node;
      } else {
        var last := FindLast();
        assert last in nodes;
        last.next := node;
      }
      nBuffers := nBuffers + 1;
      list := list + [node];
    }

    /**
     PushBuffer: fails exactly with every node holding a header.  The list stays in
     order whatever is pushed, but the pool agrees with it only for real headers.
     */
    method Push(buffer: Header) returns (r: Result)
      requires Valid()
      modifies this`head, this`nBuffers, this`list, nodes
      ensures Linked()
      ensures r == if |old(list)| < |pool| then NoError else InsufficientResources
      ensures r == NoError ==> Buffers() == old(Buffers()) + [buffer] && (Valid() <==> buffer != NULL)
      ensures r == NoError ==> list == old(list) + [At(pool, old(FreeFrom(0)))]
      ensures r != NoError ==> Valid() && Buffers() == old(Buffers())
    {
      var node := AllocNode();
      if node == null {
        FullPool(pool, list);
        return InsufficientResources;
      }
      NotFull(pool, list, node);
      Link(node, buffer);
      return NoError;
    }

    /** The end of PushBuffer, with a free node found. */
    method Link(node: Node, buffer: Header)
      requires Valid() && node in nodes && node.buffer == NULL
      modifies this`head, this`nBuffers, this`list, nodes
      ensures Linked() && list == old(list) + [node]
      ensures Buffers() == old(Buffers()) + [buffer] && (Valid() <==> buffer != NULL)
    {
      assert node !in list;
      ghost var was := Buffers();
      node.buffer := buffer;
      node.next := null;
      assert Buffers() == was;
      Append(node);
    }

    /** The first node holding the header, and the one before it. */
    method FindNode(buffer: Header) returns (save: Node?, curr: Node?, ghost k: nat)
      requires Linked()
      ensures k == IndexOf(Buffers(), buffer)
      ensures curr == At(list, k)
      ensures k > 0 ==> save == list[k - 1]
    {
      save, curr, k := null, head, 0;
      while curr != null && curr.buffer != buffer
        invariant k <= |list| && (curr == At(list, k))
        invariant k > 0 ==> save == list[k - 1]
        invariant forall i :: 0 <= i < k ==> Buffers()[i] != buffer
        decreases |list| - k
      {
        save := curr;
        curr := curr.next;
        k := k + 1;
      }
      IndexIs(Buffers(), buffer, k);
    }

    /** Take the node at place k off the list. */
    method Unlink(save: Node?, curr: Node, ghost k: nat)
      requires Linked() && k < |list| && curr == list[k] && (k > 0 ==> save == list[k - 1])
      modifies this`head, this`nBuffers, this`list, nodes`next
      ensures Linked() && list == Without(old(list), k)
    {
      WithoutDistinct(list, k);
      ghost var was, now := list, Without(list, k);
      assert Chain(was);
      if curr == head {
        assert k == 0;
        head := curr.next;
      } else {
        assert was[k - 1] in nodes;
        save.next := curr.next;
      }
      forall i | 0 <= i < |was| && i != k
        ensures was[i].next == At(was, if i == k - 1 then k + 1 else i + 1)
      {
        assert k > 0 && i != k - 1 ==> was[i] != was[k - 1];
      }
      ChainWithout(was, k, now);
      nBuffers := nBuffers - 1;
      list := now;
    }

    /** Give a node that is off the list back to the pool. */
    method Release(node: Node)
      requires Linked() && node in nodes && node !in list
      requires forall n :: n in nodes && n != node ==> (n.buffer != NULL <==> n in list)
      modifies node
      ensures Valid() && Buffers() == old(Buffers())
    {
      FreeNode(node);
    }

    /** PopBuffer: the first occurrence goes, and the others keep their order. */
    method Pop(buffer: Header) returns (r: Result)
      requires Valid()
      modifies this`head, this`nBuffers, this`list, nodes
      ensures Valid()
      ensures r == if buffer == NULL then BadParameter else if buffer in old(Buffers()) then NoError else Undefined
      ensures Buffers() == if r == NoError then Removed(old(Buffers()), buffer) else old(Buffers())
    {
      if buffer == NULL {
        return BadParameter;
      }
      if head == null {
        return Undefined;
      }
      var save, curr, k := FindNode(buffer);
      if curr == null {
        return Undefined;
      }
      TakeOff(save, curr, k);
      return NoError;
    }

    /** The end of PopBuffer, with the node found. */
    method TakeOff(save: Node?, curr: Node, ghost k: nat)
      requires Valid() && k < |list| && curr == list[k] && (k > 0 ==> save == list[k - 1])
      modifies this`head, this`nBuffers, this`list, nodes
      ensures Valid() && Buffers() == Without(old(Buffers()), k)
    {
      WithoutIs(list, k);
      HeadersWithout(list, k);
      Unlink(save, curr, k);
      Release(curr);
    }

    /** GetNumBuffers: there may be nowhere to put the number. */
    method GetNumBuffers(given: bool) returns (r: Result, n: nat)
      requires Linked()
      ensures r == if given then NoError else BadParameter
      ensures given ==> n == |Buffers()|
    {
      if !given {
        return BadParameter, 0;
      }
      return NoError, nBuffers;
    }
  }

  /**
   A null header does break the list: the node it took is free as well as linked,
   and the steps of one more push link it to itself.
   */
  method NullPushLoops(m: VencBufferManager, buffer: Header)
    requires m.Valid() && m.Buffers() == [] && |m.pool| > 0
    modifies m`head, m`nBuffers, m`list, m.nodes
    ensures m.head != null && m.head.next == m.head
  {
    assert m.pool[0] in m.nodes && m.list == [];
    var r := m.Push(NULL);
    assert m.list == [m.pool[0]] && m.Buffers()[0] == NULL;
    var node := m.AllocNode();
    node.buffer := buffer;
    node.next := null;
    var last := m.FindLast();
    last.next := node;
  }

  lemma {:induction false} Pigeonhole(pool: seq<Node>, list: seq<Node>)
    requires Distinct(list) && forall n :: n in list ==> n in pool
    ensures |list| <= |pool|
    decreases |list|
  {
    if list != [] {
      var x := list[|list| - 1];
      assert x in list;
      var k :| 0 <= k < |pool| && pool[k] == x;
      var rest := list[..|list| - 1];
      var less := pool[..k] + pool[k + 1..];
      forall n | n in rest
        ensures n in less
      {
        assert n in list && n != x;
        var i :| 0 <= i < |pool| && pool[i] == n;
        assert less[if i < k then i else i - 1] == n;
      }
      Pigeonhole(less, rest);
    }
  }

  lemma FullPool(pool: seq<Node>, list: seq<Node>)
    requires Distinct(pool) && Distinct(list) && (forall n :: n in pool <==> n in list)
    ensures |list| == |pool|
  {
    Pigeonhole(pool, list);
    Pigeonhole(list, pool);
  }

  lemma NotFull(pool: seq<Node>, list: seq<Node>, free: Node)
    requires Distinct(pool) && Distinct(list) && (forall n :: n in list ==> n in pool) && free in pool && free !in list
    ensures |list| < |pool|
  {
    Pigeonhole(pool, list + [free]);
  }
}
