/**
 SharedBuffer.cpp: a reference-counted block of storage.

 `data` is the payload, counted in items (every size the vectors ask for is a
 whole number of items).  `live` turns false when the block is handed to free;
 it is how the model can say that nobody touches freed storage.
 */
module SharedBuffers {
  import opened Sequences

  class SharedBuffer<T(0)> {
    var refs: nat
    var data: seq<T>
    var live: bool

    /** SharedBuffer::alloc. Fresh storage has unspecified contents. */
    constructor Alloc(n: nat)
      ensures refs == 1 && live && |data| == n
    {
      var filler: T := *;
      refs, live := 1, true;
      data := seq(n, _ => filler);
    }

    predicate OnlyOwner()
      reads this
    {
      refs == 1
    }

    method Acquire()
      requires live
      modifies `refs
      ensures refs == old(refs) + 1
    {
      refs := refs + 1;
    }

    /** SharedBuffer::release; the previous count is returned. */
    method Release(keepStorage: bool) returns (prev: nat)
      requires live && refs >= 1
      modifies `refs, `live
      ensures prev == old(refs) && refs == old(refs) - 1
      ensures live == (keepStorage || refs > 0)
    {
      prev := 1;
      if !OnlyOwner() {
        prev := refs;
        refs := refs - 1;
      }
      if prev == 1 {
        refs := 0;
        if !keepStorage {
          live := false;
        }
      }
    }

    method Dealloc() returns (err: int)
      requires live
      modifies `live
      ensures err == (if refs != 0 then -1 else 0) && live == (refs != 0)
    {
      if refs != 0 {
        return -1;
      }
      live := false;
      return 0;
    }

    /** SharedBuffer::attemptEdit: the block itself for a sole owner, and nothing otherwise. */
    method AttemptEdit() returns (sb: SharedBuffer?<T>)
      requires live
      ensures sb == if refs == 1 then this else null
    {
      return if OnlyOwner() then this else null;
    }

    /** SharedBuffer::editResize: in place for a sole owner, otherwise into a copy. */
    method EditResize(n: nat) returns (sb: SharedBuffer<T>)
      requires live && refs >= 1
      modifies this
      ensures sb.live && sb.refs == 1 && |sb.data| == n
      ensures var m := Min(n, |old(data)|); sb.data[..m] == old(data)[..m]
      ensures old(refs) == 1 ==> sb == this
      ensures old(refs) != 1 ==> fresh(sb) && live && data == old(data) && refs == old(refs) - 1
    {
      if OnlyOwner() {
        if |data| == n {
          return this;
        }
        // realloc keeps the common part and leaves the rest unspecified
        var tail := new SharedBuffer<T>.Alloc(n);
        var keep := Min(n, |data|);
        data := data[..keep] + tail.data[keep..];
        return this;
      }
      sb := new SharedBuffer<T>.Alloc(n);
      var mine := Min(n, |data|);
      sb.data := data[..mine] + sb.data[mine..];
      var _ := Release(false);
    }
  }
}
