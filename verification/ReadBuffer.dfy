/** The buffer between a connection and its parsers: consuming moves a cursor, and the consumed bytes
    are dropped later. To its users it is the sequence that has not been consumed. */
module ReadBuffer {
  class Buffer<T> {
    var storage: seq<T>
    var offset: nat

    /** A buffer without unread bytes always starts over at the beginning of its storage. */
    ghost predicate Valid()
      reads this
    {
      offset < |storage| || (offset == 0 && storage == [])
    }

    function View(): seq<T>
      requires Valid()
      reads this
    {
      storage[offset..]
    }

    constructor ()
      ensures Valid() && View() == []
    {
      storage, offset := [], 0;
    }

    function Size(): (n: nat)
      requires Valid()
      ensures n == |View()|
      reads this
    {
      |storage| - offset
    }

    method Clear()
      modifies this
      ensures Valid() && View() == []
    {
      storage, offset := [], 0;
    }

    method Consume(count: nat)
      requires Valid() && count <= |View()|
      modifies this
      ensures Valid() && View() == old(View()[count..])
    {
      ghost var before := View();
      offset := offset + count;
      assert before[count..] == storage[offset..];
      if offset == |storage| { Clear(); }
    }

    /** The bytes are moved in when the buffer is empty. `spare` is the room left in the storage. */
    method Append(bytes: seq<T>, spare: nat)
      requires Valid()
      modifies this
      ensures Valid() && View() == old(View()) + bytes
    {
      if Size() == 0 {
        storage, offset := bytes, 0;
        return;
      }
      ghost var before := View();
      if offset >= |storage| / 2 || |bytes| > spare { storage, offset := storage[offset..], 0; }
      storage := storage + bytes;
      assert storage[offset..] == before + bytes;
    }

    /** Copies the bytes behind the unread ones, after dropping the consumed ones when that pays off. */
    method AppendView(bytes: seq<T>, spare: nat)
      requires Valid()
      modifies this
      ensures Valid() && View() == old(View()) + bytes
    {
      ghost var before := View();
      if offset != 0 && (offset >= |storage| / 2 || |bytes| > spare) { storage, offset := storage[offset..], 0; }
      storage := storage + bytes;
      assert storage[offset..] == before + bytes;
    }
  }
}
