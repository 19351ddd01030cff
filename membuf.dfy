/** The growable character buffer of src/membuf.c. `length` is the size of
    the allocation (`buffer.Length` here) and `index` the number of
    characters in use. */
module Membufs {

  /** The capacities a buffer goes through: 0 before the first growth, then
      128, 256, 512, ... */
  predicate IsCapacity(n: int)
    decreases n
  {
    n == 0 || n == 128 || (n > 128 && n % 2 == 0 && IsCapacity(n / 2))
  }

  /** The capacity `membuf_grow` moves to. */
  function NextCapacity(n: nat): (r: nat)
    ensures IsCapacity(n) ==> IsCapacity(r)
    ensures r > n
    ensures n == 0 ==> r == 128
    ensures n > 0 ==> r == 2 * n
  {
    if n == 0 then 128 else 2 * n
  }

  class Membuf {
    var buffer: array<char>
    var index: nat

    ghost predicate Valid()
      reads this
    {
      index <= buffer.Length
    }

    /** The characters in use. */
    function Contents(): string
      requires Valid()
      reads this, buffer
    {
      buffer[..index]
    }

    /** `new_membuf`: nothing allocated yet. */
    constructor ()
      ensures Valid() && fresh(buffer) && buffer.Length == 0 && index == 0
    {
      buffer := new char[0];
      index := 0;
    }

    /** `membuf_len`. */
    function Len(): int
      reads this
    {
      index
    }

    /** `membuf_size`. */
    function Size(): int
      reads this
    {
      buffer.Length
    }

    /** `membuf_available`. */
    function Available(): (n: int)
      requires Valid()
      reads this
      ensures n >= 0 && n == Size() - Len()
    {
      buffer.Length - index
    }

    /** `membuf_grow`: doubles the allocation (128 the first time) and
        keeps every byte of the old one. */
    method Grow()
      requires Valid()
      modifies this
      ensures Valid() && fresh(buffer) && index == old(index)
      ensures buffer.Length == NextCapacity(old(buffer.Length))
      ensures buffer[..old(buffer.Length)] == old(buffer[..])
      ensures Contents() == old(Contents())
    {
      var len := 2 * buffer.Length;
      if len == 0 {
        len := 128;
      }
      var b := new char[len];
      forall i | 0 <= i < buffer.Length {
        b[i] := buffer[i];
      }
      buffer := b;
    }

    /** `membuf_put`. */
    method Put(c: char)
      requires Valid()
      modifies this, buffer
      ensures Valid() && Contents() == old(Contents()) + [c]
      ensures buffer.Length == if old(index) + 1 > old(buffer.Length)
        then NextCapacity(old(buffer.Length)) else old(buffer.Length)
      ensures buffer == old(buffer) || fresh(buffer)
    {
      if index + 1 > buffer.Length {
        Grow();
      }
      buffer[index] := c;
      index := index + 1;
    }

    /** `membuf_append`: grows until the data fits, then copies it after the
        characters in use. */
    method Append(data: string)
      requires Valid()
      modifies this, buffer
      ensures Valid() && Contents() == old(Contents()) + data
      ensures buffer.Length >= old(buffer.Length)
      ensures buffer == old(buffer) || fresh(buffer)
    {
      while index + |data| > buffer.Length
        invariant Valid() && Contents() == old(Contents())
        invariant buffer.Length >= old(buffer.Length)
        invariant buffer == old(buffer) || fresh(buffer)
        decreases index + |data| - buffer.Length
      {
        Grow();
      }
      ghost var before := buffer[..];
      forall i | 0 <= i < |data| {
        buffer[index + i] := data[i];
      }
      assert buffer[..index] == before[..index];
      index := index + |data|;
      assert buffer[..index] == before[..old(index)] + data;
    }

    /** `membuf_append_zero`: a put of the character 0. */
    method AppendZero()
      requires Valid()
      modifies this, buffer
      ensures Valid() && Contents() == old(Contents()) + ['\0']
      ensures buffer == old(buffer) || fresh(buffer)
    {
      Put('\0');
    }

    /** `membuf_clear`: forgets the contents and keeps the allocation. */
    method Clear()
      requires Valid()
      modifies this
      ensures Valid() && Contents() == [] && buffer == old(buffer)
    {
      index := 0;
    }

    /** `membuf_set_len`: the caller says how many characters are in use;
        the characters themselves are not touched. */
    method SetLen(len: nat)
      requires Valid() && len <= buffer.Length
      modifies this
      ensures Valid() && buffer == old(buffer) && Len() == len
      ensures Contents() == buffer[..len]
    {
      index := len;
    }

    /** `membuf_assure`: grows until `size` more characters fit. */
    method Assure(size: int)
      requires Valid()
      modifies this
      ensures Valid() && Contents() == old(Contents())
      ensures Available() >= size
      ensures buffer.Length >= old(buffer.Length)
      ensures buffer == old(buffer) || fresh(buffer)
    {
      while index + size > buffer.Length
        invariant Valid() && Contents() == old(Contents())
        invariant buffer.Length >= old(buffer.Length)
        invariant buffer == old(buffer) || fresh(buffer)
        decreases index + size - buffer.Length
      {
        Grow();
      }
    }
  }
}
