/** The queue of lib/libhv/base/queue.h: an array whose used part slides to the right and is moved
    back, or the array doubled, when it reaches the end. */
module Queue {

  const QUEUE_INIT_SIZE: nat := 16

  class Queue<T(0)> {
    var ptr: array<T>
    var size: nat
    var offset: nat

    ghost predicate Valid()
      reads this, ptr
    {
      offset + size <= ptr.Length && (ptr.Length > 0 ==> offset < ptr.Length)
    }

    /** The elements, oldest first. */
    ghost function Contents(): seq<T>
      requires Valid()
      reads this, ptr
    {
      ptr[offset..offset + size]
    }

    constructor (maxsize: nat)
      ensures Valid() && Contents() == [] && ptr.Length == maxsize && fresh(ptr)
    {
      ptr := new T[maxsize];
      size, offset := 0, 0;
    }

    predicate Empty()
      requires Valid()
      reads this, ptr
      ensures Empty() <==> Contents() == []
    {
      size == 0
    }

    function Front(): T
      requires Valid() && Contents() != []
      reads this, ptr
      ensures Front() == Contents()[0]
    {
      ptr[offset]
    }

    /** `memmove` of the used part to the front. */
    method MoveToFront()
      requires Valid()
      modifies this`offset, ptr
      ensures Valid() && offset == 0 && Contents() == old(Contents())
    {
      var i := 0;
      while i < size
        invariant i <= size && offset == old(offset)
        invariant ptr[..i] == old(ptr[offset..offset + i])
        invariant forall k :: offset + i <= k < offset + size ==> ptr[k] == old(ptr[k])
      {
        ptr[i] := ptr[offset + i];
        i := i + 1;
      }
      offset := 0;
    }

    /** `hv_realloc` to twice the size. */
    method DoubleResize()
      requires Valid()
      modifies this`ptr
      ensures Valid() && fresh(ptr) && Contents() == old(Contents())
      ensures ptr.Length == if old(ptr.Length) == 0 then QUEUE_INIT_SIZE else 2 * old(ptr.Length)
    {
      var maxsize := if ptr.Length == 0 then QUEUE_INIT_SIZE else 2 * ptr.Length;
      var wider := new T[maxsize];
      var i := 0;
      while i < ptr.Length
        invariant i <= ptr.Length && ptr == old(ptr) && wider[..i] == ptr[..i] && ptr[..] == old(ptr[..])
      {
        wider[i] := ptr[i];
        i := i + 1;
      }
      assert ptr[..i] == ptr[..];
      assert wider[offset..offset + size] == wider[..i][offset..offset + size];
      ptr := wider;
    }

    /** `push_back`. */
    method PushBack(elem: T)
      requires Valid()
      modifies this, ptr
      ensures Valid() && Contents() == old(Contents()) + [elem]
      ensures ptr == old(ptr) || fresh(ptr)
    {
      if size == ptr.Length {
        DoubleResize();
      } else if offset + size == ptr.Length {
        MoveToFront();
      }
      Store(elem);
    }

    method Store(elem: T)
      requires Valid() && offset + size < ptr.Length
      modifies this`size, ptr
      ensures Valid() && Contents() == old(Contents()) + [elem]
    {
      ptr[offset + size] := elem;
      size := size + 1;
    }

    /** `pop_front`. */
    method PopFront()
      requires Valid() && Contents() != []
      modifies this`size, this`offset
      ensures Valid() && Contents() == old(Contents())[1..]
    {
      size := size - 1;
      offset := offset + 1;
      if offset == ptr.Length {
        offset := 0;
      }
    }
  }
}
