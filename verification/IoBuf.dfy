/** One buffer of the memory pool: a fixed array with a window of unprocessed bytes. */
module IoBuf {
  import opened Words
  import opened Framing

  class Buffer {
    const capacity: nat
    const data: array<Byte>
    var length: nat
    var head: nat
    var next: Buffer?

    ghost predicate Valid()
      reads this
    {
      data.Length == capacity && head + length <= capacity
    }

    /** The unprocessed bytes. */
    ghost function View(): (bs: Bytes)
      requires Valid()
      reads this, data
    {
      data[head..head + length]
    }

    constructor (size: nat)
      ensures capacity == size && length == 0 && head == 0 && next == null
      ensures Valid() && View() == [] && fresh(data)
    {
      capacity := size;
      length, head, next := 0, 0, null;
      data := new Byte[size](_ => 0);
    }

    method Clear()
      requires Valid()
      modifies `length, `head
      ensures Valid() && View() == [] && head == 0
    {
      length, head := 0, 0;
    }

    /** Marks `len` bytes as processed; the source checks nothing here. */
    method Pop(len: nat)
      requires Valid() && len <= length
      modifies `length, `head
      ensures Valid() && View() == old(View())[len..] && head == old(head) + len
    {
      length := length - len;
      head := head + len;
    }

    /** Moves the window to the front of the array (`memmove` over itself). */
    method Adjust()
      requires Valid()
      modifies `head, data
      ensures Valid() && View() == old(View()) && head == 0
    {
      if head != 0 {
        ghost var was := data[..];
        var i := 0;
        while i < length
          modifies data
          invariant 0 <= i <= length
          invariant forall j | 0 <= j < i :: data[j] == was[head + j]
          invariant forall j | i <= j < capacity :: data[j] == was[j]
        {
          data[i] := data[head + i];
          i := i + 1;
        }
        head := 0;
      }
    }

    /** Takes over the bytes of another buffer (`memcpy`). */
    method Copy(other: Buffer)
      requires Valid() && other.Valid() && other.data != data
      requires other.length <= capacity
      modifies `length, `head, data
      ensures Valid() && View() == old(other.View()) && head == 0
    {
      ghost var bytes := other.View();
      var n := other.length;
      var i := 0;
      while i < n
        modifies data
        invariant 0 <= i <= n
        invariant other.data[..] == old(other.data[..])
        invariant forall j | 0 <= j < i :: data[j] == bytes[j]
      {
        data[i] := other.data[other.head + i];
        i := i + 1;
      }
      head, length := 0, n;
    }

    /** Appends bytes behind `length`; the position is only right when `head` is 0. */
    method Append(bytes: Bytes)
      requires Valid() && head == 0
      requires length + |bytes| <= capacity
      modifies `length, data
      ensures Valid() && View() == old(View()) + bytes
    {
      ghost var was := View();
      var i := 0;
      while i < |bytes|
        modifies data
        invariant 0 <= i <= |bytes|
        invariant forall j | 0 <= j < length :: data[j] == was[j]
        invariant forall j | 0 <= j < i :: data[length + j] == bytes[j]
      {
        data[length + i] := bytes[i];
        i := i + 1;
      }
      length := length + |bytes|;
    }
  }
}
