/**
  * The generic `Array(T)` container: a buffer `items`, a length `len` and a
  * capacity `cap`, grown by doubling. The macros take the allocator as an
  * argument, and what `realloc` does to the old elements depends on it: the
  * heap allocator's realloc keeps them, the arena's realloc returns a fresh
  * zero-filled region and copies nothing. Each growing operation therefore
  * takes `copying` (does this allocator's realloc keep the contents?) and
  * `zero` (the element whose bytes are all zero).
  */
module DynArrays {

  /** `memcpy(dst + at, src, |src|)`: the elements outside the copied
      range keep their values. */
  method MemCopy<T>(dst: array<T>, at: nat, src: seq<T>)
    requires at + |src| <= dst.Length
    modifies dst
    ensures dst[..at] == old(dst[..at])
    ensures dst[at..at + |src|] == src
    ensures dst[at + |src|..] == old(dst[at + |src|..])
  {
    var k := 0;
    while k < |src|
      invariant k <= |src|
      invariant forall j :: 0 <= j < at ==> dst[j] == old(dst[j])
      invariant forall j :: 0 <= j < k ==> dst[at + j] == src[j]
      invariant forall j :: at + |src| <= j < dst.Length ==> dst[j] == old(dst[j])
    {
      dst[at + k] := src[k];
      k := k + 1;
    }
  }

  class DynArray<T> {
    var items: array<T>
    var len: nat
    var cap: nat

    /** The buffer holds `cap` elements and `len` does not exceed it. */
    ghost predicate Valid()
      reads this
    {
      items.Length == cap && len <= cap
    }

    /** The elements in use. */
    ghost function Contents(): seq<T>
      reads this, items
      requires Valid()
    {
      items[..len]
    }

    /** `array_init_capacity`: a buffer of `capacity` elements from the
        allocator (zero-filled, as the arena hands it out), length 0. */
    constructor InitCapacity(capacity: nat, zero: T)
      ensures Valid() && fresh(items)
      ensures len == 0 && cap == capacity && Contents() == []
    {
      items := new T[capacity](_ => zero);
      len := 0;
      cap := capacity;
    }

    /** `array_reserve`: nothing when `capacity` does not exceed `cap`;
        otherwise a reallocated buffer of `capacity` elements, `len` kept. */
    method Reserve(capacity: nat, copying: bool, zero: T)
      requires Valid()
      modifies this
      ensures Valid() && len == old(len)
      ensures capacity <= old(cap) ==> cap == old(cap) && items == old(items)
      ensures capacity > old(cap) ==> cap == capacity && fresh(items)
      ensures capacity <= old(cap) || copying ==> Contents() == old(Contents())
      ensures capacity > old(cap) && !copying ==> items[..] == seq(cap, _ => zero)
    {
      if capacity > cap {
        var buffer := new T[capacity](_ => zero);
        if copying {
          var k := 0;
          while k < cap
            invariant k <= cap < capacity == buffer.Length
            invariant Valid() && items == old(items) && len == old(len) && cap == old(cap)
            invariant buffer[..k] == items[..k]
          {
            buffer[k] := items[k];
            k := k + 1;
          }
          assert buffer[..len] == buffer[..cap][..len] == items[..cap][..len];
        } else {
          assert buffer[..] == seq(capacity, _ => zero);
        }
        items := buffer;
        cap := capacity;
      }
    }

    /** `array_append`: double `cap` when the item does not fit, then store
        it at `len` and increment `len`. Doubling a capacity of 0 gives 0,
        so the caller must start from a capacity of at least 1. */
    method Append(item: T, copying: bool, zero: T)
      requires Valid() && cap >= 1
      modifies this, items
      ensures Valid()
      ensures len == old(len) + 1
      ensures cap == (if old(len) + 1 > old(cap) then 2 * old(cap) else old(cap))
      ensures old(len) + 1 <= old(cap) ==> items == old(items)
      ensures old(len) + 1 > old(cap) ==> fresh(items)
      ensures copying || old(len) + 1 <= old(cap) ==> Contents() == old(Contents()) + [item]
      ensures !copying && old(len) + 1 > old(cap) ==> Contents() == seq(old(len), _ => zero) + [item]
    {
      if len + 1 > cap {
        Reserve(cap * 2, copying, zero);
      }
      ghost var before := items[..len];
      items[len] := item;
      len := len + 1;
      assert items[..len] == before + [item];
    }

    /** `array_append_many`: double `cap` once when the items do not fit,
        then copy them after the current elements. A single doubling must
        suffice, so `len + |src|` may not exceed twice the capacity. */
    method AppendMany(src: seq<T>, copying: bool, zero: T)
      requires Valid() && len + |src| <= 2 * cap
      modifies this, items
      ensures Valid()
      ensures len == old(len) + |src|
      ensures cap == (if old(len) + |src| > old(cap) then 2 * old(cap) else old(cap))
      ensures old(len) + |src| <= old(cap) ==> items == old(items)
      ensures old(len) + |src| > old(cap) ==> fresh(items)
      ensures copying || old(len) + |src| <= old(cap) ==> Contents() == old(Contents()) + src
      ensures !copying && old(len) + |src| > old(cap) ==> Contents() == seq(old(len), _ => zero) + src
    {
      if len + |src| > cap {
        Reserve(cap * 2, copying, zero);
      }
      MemCopy(items, len, src);
      assert items[..len + |src|] == items[..len] + items[len..len + |src|];
      len := len + |src|;
    }

    /** `array_resize`: reserve `size`, then set `len` to it. Elements past
        the old length are whatever the buffer held there. */
    method Resize(size: nat, copying: bool, zero: T)
      requires Valid()
      modifies this
      ensures Valid() && len == size
      ensures cap == (if size > old(cap) then size else old(cap))
      ensures size <= old(cap) || copying ==>
        && (size <= old(len) ==> Contents() == old(Contents())[..size])
        && (old(len) <= size ==> Contents()[..old(len)] == old(Contents()))
      ensures size <= old(cap) ==> Contents() == old(items[..size])
      ensures size > old(cap) && !copying ==> Contents() == seq(size, _ => zero)
    {
      ghost var old0 := items[..cap];
      Reserve(size, copying, zero);
      assert copying || size <= old(cap) ==> items[..old(len)] == old0[..old(len)];
      len := size;
      assert size <= old(cap) ==> items[..size] == old0[..size];
      assert size > old(cap) && !copying ==> items[..size] == seq(size, _ => zero);
    }

    /** `array_last`: the element at `len - 1`, that is, the last one. */
    function Last(): (x: T)
      reads this, items
      requires Valid() && len > 0
      ensures Contents() == Contents()[..len - 1] + [x]
    {
      items[len - 1]
    }

    /** `array_pop`: decrement `len` and return the element it uncovers. */
    method Pop() returns (x: T)
      requires Valid() && len > 0
      modifies this
      ensures Valid() && items == old(items) && cap == old(cap)
      ensures len == old(len) - 1
      ensures old(Contents()) == Contents() + [x]
    {
      len := len - 1;
      x := items[len];
    }
  }
}
