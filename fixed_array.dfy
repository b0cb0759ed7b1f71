/**
 * The fixed-capacity in-place array of s_array.h. S_DEFINE_ARRAY(_type, _array, _size)
 * declares a struct holding a buffer `data[_size]` and a live length `size`, and a family
 * of operations that update both in place. Here the struct is a class over a Dafny
 * array, `_type` is the type parameter, `_size` the `capacity`, and the all-zero bit
 * pattern that `memset` writes is the value `zero`.
 *
 * The C operations hand out and accept pointers into the buffer (`&array->data[i]`).
 * Two such pointers are equal exactly when they name the same slot, so a pointer is
 * modelled by the slot index it names; a pointer to storage outside this buffer is
 * `Foreign`.
 */
module FixedArray {

  /** `(sz)-1`: the largest `size_t`, which `_find` and `_find_last` return for "absent". */
  const SIZE_MAX: int := 0xFFFF_FFFF_FFFF_FFFF

  /** `sz`, an unsigned 64-bit `size_t`. */
  type Size = i: int | 0 <= i <= SIZE_MAX

  /** A `_type*` value: NULL, the address of slot `index` of this buffer, or any other address. */
  datatype Ptr = Null | Slot(index: nat) | Foreign

  /** The buffer after `_remove_at(index)` on a live length `size`: the `memmove` shifts the
      slots after `index` down by one and leaves every other slot, the old last live slot
      included, as it was. */
  function Shifted<T>(d: seq<T>, index: nat, size: nat): (r: seq<T>)
    requires index < size <= |d|
    ensures |r| == |d|
  {
    d[..index] + d[index + 1..size] + d[size - 1..]
  }

  lemma ShiftedAt<T>(d: seq<T>, index: nat, size: nat, j: nat)
    requires index < size <= |d| && j < |d|
    ensures Shifted(d, index, size)[j] == if index <= j < size - 1 then d[j + 1] else d[j]
  {
  }

  /** What `_remove_at` does to the live elements: exactly the one at `index` disappears. */
  lemma ShiftedLive<T>(d: seq<T>, index: nat, size: nat)
    requires index < size <= |d|
    ensures Shifted(d, index, size)[..size - 1] == d[..size][..index] + d[..size][index + 1..]
  {
    assert Shifted(d, index, size) == (d[..index] + d[index + 1..size]) + d[size - 1..];
  }

  /** The first index whose element satisfies `cond`, or |s| when none does. */
  function FirstMatch<T>(s: seq<T>, cond: T -> bool): (i: nat)
    ensures i <= |s|
    ensures i < |s| ==> cond(s[i])
    ensures forall k :: 0 <= k < i ==> !cond(s[k])
  {
    if s == [] then 0
    else if cond(s[0]) then 0
    else 1 + FirstMatch(s[1..], cond)
  }

  /** The live elements after `s_remove_if`: the first matching one removed, if any. */
  function RemoveFirst<T>(s: seq<T>, cond: T -> bool): seq<T>
  {
    if s == [] then []
    else if cond(s[0]) then s[1..]
    else [s[0]] + RemoveFirst(s[1..], cond)
  }

  /** The live elements after `s_remove_all`: every matching one removed. */
  function Without<T>(s: seq<T>, cond: T -> bool): seq<T>
  {
    if s == [] then []
    else (if cond(s[0]) then [] else [s[0]]) + Without(s[1..], cond)
  }

  /** `s_remove_if` removes exactly the first match and nothing when there is none. */
  lemma {:induction false} RemoveFirstIsFirstMatch<T>(s: seq<T>, cond: T -> bool)
    ensures FirstMatch(s, cond) == |s| ==> RemoveFirst(s, cond) == s
    ensures FirstMatch(s, cond) < |s| ==>
      RemoveFirst(s, cond) == s[..FirstMatch(s, cond)] + s[FirstMatch(s, cond) + 1..]
  {
    if s != [] && !cond(s[0]) {
      RemoveFirstIsFirstMatch(s[1..], cond);
      var i := FirstMatch(s[1..], cond);
      if i < |s[1..]| {
        assert s[..i + 1] == [s[0]] + s[1..][..i];
        assert s[i + 2..] == s[1..][i + 1..];
      }
    }
  }

  /** At most one element goes. */
  lemma {:induction false} RemoveFirstLength<T>(s: seq<T>, cond: T -> bool)
    ensures |RemoveFirst(s, cond)| == if exists k :: 0 <= k < |s| && cond(s[k]) then |s| - 1 else |s|
  {
    if s != [] && !cond(s[0]) {
      RemoveFirstLength(s[1..], cond);
      if exists k :: 0 <= k < |s| && cond(s[k]) {
        var k :| 0 <= k < |s| && cond(s[k]);
        assert s[1..][k - 1] == s[k];
      }
      if exists k :: 0 <= k < |s[1..]| && cond(s[1..][k]) {
        var k :| 0 <= k < |s[1..]| && cond(s[1..][k]);
        assert s[k + 1] == s[1..][k];
      }
    }
  }

  /** No survivor of `s_remove_all` satisfies the condition. */
  lemma {:induction false} WithoutNoMatch<T>(s: seq<T>, cond: T -> bool)
    ensures forall i :: 0 <= i < |Without(s, cond)| ==> !cond(Without(s, cond)[i])
  {
    if s != [] {
      WithoutNoMatch(s[1..], cond);
    }
  }

  /** Every element that does not match survives, as often as it occurred. */
  lemma {:induction false} WithoutKeeps<T>(s: seq<T>, cond: T -> bool, x: T)
    requires !cond(x)
    ensures multiset(Without(s, cond))[x] == multiset(s)[x]
  {
    if s != [] {
      WithoutKeeps(s[1..], cond, x);
      assert s == [s[0]] + s[1..];
    }
  }

  /** Survivors keep their relative order: removing from a concatenation removes from each part. */
  lemma {:induction false} WithoutAppend<T>(a: seq<T>, b: seq<T>, cond: T -> bool)
    ensures Without(a + b, cond) == Without(a, cond) + Without(b, cond)
  {
    if a != [] {
      WithoutAppend(a[1..], b, cond);
      assert (a + b)[1..] == a[1..] + b;
    } else {
      assert a + b == b;
    }
  }

  /** Nothing is removed when nothing matches. */
  lemma {:induction false} WithoutNone<T>(s: seq<T>, cond: T -> bool)
    requires forall i :: 0 <= i < |s| ==> !cond(s[i])
    ensures Without(s, cond) == s
  {
    if s != [] {
      WithoutNone(s[1..], cond);
    }
  }

  lemma WithoutStep<T>(s: seq<T>, i: nat, cond: T -> bool)
    requires i < |s|
    ensures s[..i + 1] == s[..i] + [s[i]]
    ensures Without(s[i..], cond) == (if cond(s[i]) then [] else [s[i]]) + Without(s[i + 1..], cond)
  {
    assert s[i..][1..] == s[i + 1..];
  }

  lemma DropMiddle<T>(a: seq<T>, x: T, b: seq<T>)
    ensures ((a + [x]) + b)[..|a|] == a
    ensures ((a + [x]) + b)[|a|] == x
    ensures ((a + [x]) + b)[|a| + 1..] == b
    ensures (a + [x]) + b == a + ([x] + b)
  {
  }

  /** One array of an S_DEFINE_ARRAY type: the buffer and its live length. */
  class FixedArray<T> {
    /** `_size`, the number of slots. */
    const capacity: Size
    /** The value of a slot that `memset(.., 0, ..)` has cleared. */
    const zero: T
    /** The embedded buffer `data[_size]`. */
    const data: array<T>
    /** The live length; slots [0, size) hold the elements. */
    var size: Size

    ghost predicate Valid()
      reads this
    {
      data.Length == capacity && size <= capacity
    }

    /** The live elements, in slot order. */
    ghost function Contents(): seq<T>
      reads this, data
      requires Valid()
    {
      data[..size]
    }

    /** Whether `p` is the address of a live slot. */
    predicate Live(p: Ptr)
      reads this
    {
      p.Slot? && p.index < size
    }

    /** Declaring the struct and calling `_init` on it: every slot zeroed, no element. */
    constructor (capacity: Size, zero: T)
      ensures Valid() && fresh(data)
      ensures this.capacity == capacity && this.zero == zero
      ensures size == 0 && data[..] == seq(capacity, _ => zero)
    {
      this.capacity := capacity;
      this.zero := zero;
      data := new T[capacity](_ => zero);
      size := 0;
    }

    /** `_init`: `memset` zeroes the whole buffer and `size` becomes 0. */
    method Init()
      requires Valid()
      modifies this, data
      ensures Valid()
      ensures size == 0 && data[..] == seq(capacity, _ => zero)
    {
      for i := 0 to capacity
        invariant forall k :: 0 <= k < i ==> data[k] == zero
      {
        data[i] := zero;
      }
      size := 0;
    }

    /** `_increment`: claims the next slot and returns its address, or returns NULL and
        changes nothing when the array is full. */
    method Increment() returns (r: Ptr)
      requires Valid()
      modifies this
      ensures Valid()
      ensures old(size) == capacity ==> r == Null && size == old(size)
      ensures old(size) < capacity ==> size == old(size) + 1 && r == Slot(old(size))
    {
      if size == capacity {
        return Null;
      }
      size := size + 1;
      r := Slot(size - 1);
    }

    /** `_add`: stores `value` in the next slot and returns its address. The C code asserts
        that the array is not full. */
    method Add(value: T) returns (r: Ptr)
      requires Valid() && size < capacity
      modifies this, data
      ensures Valid()
      ensures size == old(size) + 1 && r == Slot(old(size))
      ensures data[..] == old(data[..])[old(size) := value]
      ensures Contents() == old(Contents()) + [value]
    {
      ghost var s := Contents();
      r := Increment();
      data[r.index] := value;
      assert data[..size] == s + [value];
    }

    /** `_find`: the index of the live slot `p` points to, scanning upwards, or SIZE_MAX. */
    method Find(p: Ptr) returns (r: Size)
      requires Valid()
      ensures Live(p) ==> r == p.index
      ensures !Live(p) ==> r == SIZE_MAX
    {
      for i := 0 to size
        invariant forall k :: 0 <= k < i ==> p != Slot(k)
      {
        if p == Slot(i) {
          return i;
        }
      }
      return SIZE_MAX;
    }

    /** `_find_last`: the same search scanning downwards from the last live slot. */
    method FindLast(p: Ptr) returns (r: Size)
      requires Valid()
      ensures Live(p) ==> r == p.index
      ensures !Live(p) ==> r == SIZE_MAX
    {
      var index: Size := size;
      while index > 0 && index <= size
        invariant index <= size
        invariant forall k :: index <= k < size ==> p != Slot(k)
      {
        index := index - 1;
        if p == Slot(index) {
          return index;
        }
      }
      return SIZE_MAX;
    }

    /** `_remove_at`: nothing happens unless `index` is live; otherwise the `memmove` closes
        the gap and the live length drops by one. */
    method RemoveAt(index: Size)
      requires Valid()
      modifies this, data
      ensures Valid()
      ensures old(size) <= index ==> size == old(size) && data[..] == old(data[..])
      ensures index < old(size) ==>
        size == old(size) - 1 && data[..] == Shifted(old(data[..]), index, old(size))
      ensures index < old(size) ==>
        Contents() == old(Contents())[..index] + old(Contents())[index + 1..]
      ensures forall j :: old(size) <= j < capacity ==> data[j] == old(data[j])
    {
      if index >= size {
        return;
      }
      ghost var d := data[..];
      var k := index;
      while k < size - 1
        invariant index <= k <= size - 1 && size == old(size) && |d| == capacity
        invariant forall j :: index <= j < k ==> data[j] == d[j + 1]
        invariant forall j :: 0 <= j < capacity && !(index <= j < k) ==> data[j] == d[j]
      {
        data[k] := data[k + 1];
        k := k + 1;
      }
      forall j | 0 <= j < capacity
        ensures data[..][j] == Shifted(d, index, size)[j]
      {
        ShiftedAt(d, index, size, j);
        assert data[..][j] == data[j];
      }
      assert data[..] == Shifted(d, index, size);
      ShiftedLive(d, index, size);
      size := size - 1;
    }

    /** `_remove`: removes the live slot `p` points to and does nothing for any other
        pointer. The C test `index >= 0` on the unsigned result always holds; the
        SIZE_MAX returned for a missing slot then makes `_remove_at` return early. */
    method Remove(p: Ptr)
      requires Valid()
      modifies this, data
      ensures Valid()
      ensures !old(Live(p)) ==> size == old(size) && data[..] == old(data[..])
      ensures old(Live(p)) ==>
        size == old(size) - 1 && data[..] == Shifted(old(data[..]), p.index, old(size))
    {
      var index := FindLast(p);
      if index >= 0 {
        RemoveAt(index);
      }
    }

    /** `_get`: the address of a live slot; the C code asserts the index is live. */
    method Get(index: Size) returns (r: Ptr)
      requires Valid() && index < size
      ensures Live(r) && r.index == index
    {
      r := Slot(index);
    }

    /** `_get_last`: the address of the last live slot; the C code asserts one exists. */
    method GetLast() returns (r: Ptr)
      requires Valid() && size > 0
      ensures Live(r) && r.index == size - 1
    {
      r := Slot(size - 1);
    }

    /** `_set`: overwrites one live slot with the value `value` points to. */
    method Set(index: Size, value: T)
      requires Valid() && index < size
      modifies data
      ensures data[..] == old(data[..])[index := value]
      ensures Contents() == old(Contents())[index := value]
    {
      data[index] := value;
    }

    /** `_clear`: zeroes the live slots and empties the array; the other slots keep their values. */
    method Clear()
      requires Valid()
      modifies this, data
      ensures Valid() && size == 0
      ensures forall j :: 0 <= j < capacity ==>
        data[j] == if j < old(size) then zero else old(data[j])
    {
      for i := 0 to size
        invariant forall j :: 0 <= j < capacity ==>
          data[j] == if j < i then zero else old(data[j])
      {
        data[i] := zero;
      }
      size := 0;
    }

    /** `_get_size`. */
    method GetSize() returns (n: Size)
      requires Valid()
      ensures n == |Contents()|
    {
      n := size;
    }

    /** The indices `s_foreach` visits: every live index, in increasing order. */
    method ForEach() returns (visited: seq<Size>)
      requires Valid()
      ensures |visited| == |Contents()|
      ensures forall i :: 0 <= i < |visited| ==> visited[i] == i
    {
      visited := [];
      var it: Size := 0;
      while it < size
        invariant it <= size && |visited| == it
        invariant forall i :: 0 <= i < it ==> visited[i] == i
      {
        visited := visited + [it];
        it := it + 1;
      }
    }

    /** The indices `s_foreach_reverse` visits: every live index, in decreasing order. */
    method ForEachReverse() returns (visited: seq<Size>)
      requires Valid()
      ensures |visited| == |Contents()|
      ensures forall i :: 0 <= i < |visited| ==> visited[i] == |Contents()| - 1 - i
    {
      visited := [];
      var it: Size := size;
      while it > 0
        invariant it <= size && |visited| == size - it
        invariant forall i :: 0 <= i < |visited| ==> visited[i] == size - 1 - i
      {
        it := it - 1;
        visited := visited + [it];
      }
    }

    /** `s_remove_if`: walks the live elements upwards and removes the first one satisfying
        `cond`, then stops. */
    method RemoveIf(cond: T -> bool)
      requires Valid()
      modifies this, data
      ensures Valid()
      ensures Contents() == RemoveFirst(old(Contents()), cond)
      ensures FirstMatch(old(Contents()), cond) == old(size) ==>
        size == old(size) && data[..] == old(data[..])
      ensures FirstMatch(old(Contents()), cond) < old(size) ==>
        size == old(size) - 1 &&
        data[..] == Shifted(old(data[..]), FirstMatch(old(Contents()), cond), old(size))
    {
      ghost var s := Contents();
      RemoveFirstIsFirstMatch(s, cond);
      var it: Size := 0;
      while it < size
        invariant it <= size == |s| && data[..] == old(data[..])
        invariant forall k :: 0 <= k < it ==> !cond(s[k])
      {
        if cond(data[it]) {
          assert s[it] == data[it];
          RemoveAt(it);
          return;
        }
        assert s[it] == data[it];
        it := it + 1;
      }
    }

    /** `s_remove_all`: walks the live elements downwards and removes every one satisfying
        `cond`. The slots from the old live length upwards are not touched. */
    method RemoveAll(cond: T -> bool)
      requires Valid()
      modifies this, data
      ensures Valid()
      ensures Contents() == Without(old(Contents()), cond)
      ensures forall j :: old(size) <= j < capacity ==> data[j] == old(data[j])
    {
      ghost var s := Contents();
      if size <= 0 {
        return;
      }
      var it: Size := size;
      while it > 0
        invariant it <= size <= |s| == old(size) && Valid()
        invariant Contents() == s[..it] + Without(s[it..], cond)
        invariant forall j :: old(size) <= j < capacity ==> data[j] == old(data[j])
      {
        it := it - 1;
        var current := Get(it);
        WithoutStep(s, it, cond);
        ghost var w := Without(s[it + 1..], cond);
        assert Contents() == (s[..it] + [s[it]]) + w;
        DropMiddle(s[..it], s[it], w);
        if cond(data[current.index]) {
          ghost var c := Contents();
          RemoveAt(it);
          assert Contents() == c[..it] + c[it + 1..];
          assert Without(s[it..], cond) == w;
        } else {
          assert Without(s[it..], cond) == [s[it]] + w;
        }
      }
    }
  }
}
