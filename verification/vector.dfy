/** `vector`: a growable buffer `_container` of `_capacity` slots whose first
    `_size` slots hold the elements. Iterators into the buffer become indices;
    the allocator becomes Dafny array allocation; its `max_size()` is the
    constant `maxSize` fixed at construction. The exceptions the source throws
    (`length_error` from `reserve`, `out_of_range` from `at`) are returned as
    `Fail` / `Failure` values, with the state as it was at the throw. */
module Vectors {
  import opened Algorithms

  /** The largest value of a 64-bit `size_t`; `0 - 1` wraps to it. */
  const SIZE_MAX: nat := 0xFFFF_FFFF_FFFF_FFFF

  datatype Error = LengthError | OutOfRange

  datatype Outcome = Ok | Fail(error: Error)

  datatype Result<T> = Success(value: T) | Failure(error: Error)

  /* ---------------------------------------------------------------------
     Sequence-level specification of the element operations
     --------------------------------------------------------------------- */

  /** n copies of v. */
  function Fill<T>(n: nat, v: T): (r: seq<T>)
    ensures |r| == n
    ensures forall k :: 0 <= k < n ==> r[k] == v
  {
    if n == 0 then [] else Fill(n - 1, v) + [v]
  }

  /** t spliced into s before position i. */
  function InsertAt<T>(s: seq<T>, i: nat, t: seq<T>): (r: seq<T>)
    requires i <= |s|
    ensures |r| == |s| + |t|
    ensures forall k :: 0 <= k < i ==> r[k] == s[k]
    ensures forall k :: 0 <= k < |t| ==> r[i + k] == t[k]
    ensures forall k :: i <= k < |s| ==> r[k + |t|] == s[k]
  {
    s[..i] + t + s[i..]
  }

  /** s without the positions i .. j-1; the tail moves left by j - i. */
  function RemoveRange<T>(s: seq<T>, i: nat, j: nat): (r: seq<T>)
    requires i <= j <= |s|
    ensures |r| == |s| - (j - i)
    ensures forall k :: 0 <= k < i ==> r[k] == s[k]
    ensures forall k :: j <= k < |s| ==> r[k - (j - i)] == s[k]
  {
    s[..i] + s[j..]
  }

  /** The first n elements of s, padded with v up to length n. */
  function Resized<T>(s: seq<T>, n: nat, v: T): (r: seq<T>)
    ensures |r| == n
    ensures forall k :: 0 <= k < n && k < |s| ==> r[k] == s[k]
    ensures forall k :: |s| <= k < n ==> r[k] == v
  {
    if n <= |s| then s[..n] else s + Fill(n - |s|, v)
  }

  /** Erasing what was inserted gives the original sequence back. */
  lemma RemoveInsertAt<T>(s: seq<T>, i: nat, t: seq<T>)
    requires i <= |s|
    ensures RemoveRange(InsertAt(s, i, t), i, i + |t|) == s
  {
    var r := RemoveRange(InsertAt(s, i, t), i, i + |t|);
    assert forall k :: 0 <= k < |s| ==> r[k] == s[k] by {
      forall k | 0 <= k < |s|
        ensures r[k] == s[k]
      {
        if k >= i {
          assert r[k] == InsertAt(s, i, t)[k + |t|];
        }
      }
    }
  }

  /** Resizing to a larger size and back to the old size restores the
      contents. */
  lemma ResizedBack<T>(s: seq<T>, n: nat, v: T, w: T)
    requires |s| <= n
    ensures Resized(Resized(s, n, v), |s|, w) == s
  {
  }

  /* ---------------------------------------------------------------------
     The container
     --------------------------------------------------------------------- */

  class Vector<T(0)> {
    /** `_container`: the allocated buffer, `_capacity` slots long. */
    var buf: array<T>
    var size: nat
    var capacity: nat
    /** `max_size()` of the allocator. `Valid` assumes it is below
        `SIZE_MAX`; `std::allocator<T>` gives `SIZE_MAX / sizeof(T)`, which
        is below `SIZE_MAX` only when `sizeof(T) > 1`. */
    const maxSize: nat

    ghost predicate Valid()
      reads this, buf
    {
      capacity == buf.Length && size <= capacity && maxSize < SIZE_MAX
    }

    /** The elements, front to back. */
    ghost function Elements(): seq<T>
      reads this, buf
      requires Valid()
    {
      buf[..size]
    }

    /** `vector()`: no buffer, no elements. */
    constructor (maxSize: nat)
      requires maxSize < SIZE_MAX
      ensures Valid() && fresh(buf)
      ensures Elements() == [] && capacity == 0 && this.maxSize == maxSize
    {
      buf := new T[0];
      size := 0;
      capacity := 0;
      this.maxSize := maxSize;
    }

    /** `vector(n, val)`: starts empty, then `assign(n, val)`. */
    constructor Filled(n: nat, val: T, maxSize: nat)
      requires maxSize < SIZE_MAX
      ensures Valid() && fresh(buf)
      ensures Elements() == Fill(n, val) && capacity == n && this.maxSize == maxSize
    {
      buf := new T[0];
      size := 0;
      capacity := 0;
      this.maxSize := maxSize;
      new;
      AssignFill(n, val);
    }

    /** `vector(first, last)`: starts empty, then `assign(first, last)`. */
    constructor FromRange(s: seq<T>, maxSize: nat)
      requires maxSize < SIZE_MAX
      ensures Valid() && fresh(buf)
      ensures Elements() == s && capacity == |s| && this.maxSize == maxSize
    {
      buf := new T[0];
      size := 0;
      capacity := 0;
      this.maxSize := maxSize;
      new;
      AssignRange(s);
    }

    /** The copy constructor: same allocator, then `assign(other.begin(),
        other.end())`, so the capacity is exactly the other's size. */
    constructor Copy(other: Vector<T>)
      requires other.Valid()
      ensures Valid() && fresh(buf)
      ensures Elements() == other.Elements() && capacity == other.size
      ensures maxSize == other.maxSize
    {
      buf := new T[0];
      size := 0;
      capacity := 0;
      maxSize := other.maxSize;
      new;
      AssignRange(other.buf[..other.size]);
    }

    /** `operator=`: `assign(other.begin(), other.end())`. */
    method CopyAssign(other: Vector<T>)
      requires Valid() && other.Valid()
      modifies this, buf
      ensures Valid() && (buf == old(buf) || fresh(buf))
      ensures Elements() == old(other.Elements())
      ensures capacity == if old(other.size) > old(capacity) then old(other.size) else old(capacity)
    {
      AssignRange(other.buf[..other.size]);
    }

    /** `clear()`: the elements are destroyed; the buffer is kept. */
    method Clear()
      requires Valid()
      modifies this
      ensures Valid() && buf == old(buf)
      ensures Elements() == [] && capacity == old(capacity)
    {
      size := 0;
    }

    /** `assign(first, last)`: clear, count the range into `_size`, grow the
        buffer to exactly that size if it is too small, copy the range in. */
    method AssignRange(s: seq<T>)
      requires Valid()
      modifies this, buf
      ensures Valid() && (buf == old(buf) || fresh(buf))
      ensures Elements() == s
      ensures capacity == if |s| > old(capacity) then |s| else old(capacity)
    {
      Clear();
      var k := 0;
      while k < |s|
        invariant k <= |s| && size == k
        invariant buf == old(buf) && capacity == old(capacity)
      {
        size := size + 1;
        k := k + 1;
      }
      if size > capacity {
        buf := new T[size];
        capacity := size;
      }
      var a := buf;
      var i := 0;
      while i < |s|
        modifies a
        invariant i <= |s|
        invariant a[..i] == s[..i]
      {
        a[i] := s[i];
        i := i + 1;
      }
    }

    /** `assign(n, val)`: clear, set `_size` to n, grow the buffer to exactly
        n if it is too small, fill with val. */
    method AssignFill(n: nat, val: T)
      requires Valid()
      modifies this, buf
      ensures Valid() && (buf == old(buf) || fresh(buf))
      ensures Elements() == Fill(n, val)
      ensures capacity == if n > old(capacity) then n else old(capacity)
    {
      Clear();
      size := n;
      if size > capacity {
        buf := new T[size];
        capacity := size;
      }
      var a := buf;
      var i := 0;
      while i < size
        modifies a
        invariant i <= size
        invariant a[..i] == Fill(i, val)
      {
        a[i] := val;
        i := i + 1;
      }
    }

    /** `reserve(n)`: `length_error` beyond `max_size()`; nothing to do when
        n fits the buffer; otherwise a buffer of exactly n slots receives the
        elements. */
    method Reserve(n: nat) returns (r: Outcome)
      requires Valid()
      modifies this
      ensures Valid() && (buf == old(buf) || fresh(buf))
      ensures r == if n > maxSize then Fail(LengthError) else Ok
      ensures size == old(size) && Elements() == old(Elements())
      ensures capacity == if r.Ok? && n > old(capacity) then n else old(capacity)
    {
      if n > maxSize {
        return Fail(LengthError);
      }
      if n <= capacity {
        return Ok;
      }
      var tmp := new T[n];
      for i := 0 to size
        modifies tmp
        invariant tmp[..i] == buf[..i]
      {
        tmp[i] := buf[i];
      }
      buf := tmp;
      capacity := n;
      return Ok;
    }

    /** `resize(n, val)`: drop the elements from n on, `reserve(n)`, then
        append copies of val up to n. The truncation happens before
        `reserve` can throw. */
    method Resize(n: nat, val: T) returns (r: Outcome)
      requires Valid()
      modifies this, buf
      ensures Valid() && (buf == old(buf) || fresh(buf))
      ensures r == if n > maxSize then Fail(LengthError) else Ok
      ensures r.Ok? ==> Elements() == Resized(old(Elements()), n, val)
      ensures r.Fail? ==> Elements() == old(Elements())[..Min(n, old(size))]
      ensures capacity == if r.Ok? && n > old(capacity) then n else old(capacity)
    {
      if n <= size {
        size := n;
      }
      ghost var kept := Elements();
      r := Reserve(n);
      if r.Fail? {
        return;
      }
      if n > size {
        var a := buf;
        for i := size to n
          modifies a
          invariant a[..size] == kept
          invariant forall k :: size <= k < i ==> a[k] == val
        {
          a[i] := val;
        }
        size := n;
      }
    }

    /** `push_back(val)`: `reserve(_size + 1)`, so a full buffer grows by
        exactly one slot, then the new last element. */
    method PushBack(val: T) returns (r: Outcome)
      requires Valid()
      modifies this, buf
      ensures Valid() && (buf == old(buf) || fresh(buf))
      ensures r == if old(size) + 1 > maxSize then Fail(LengthError) else Ok
      ensures r.Ok? ==> Elements() == old(Elements()) + [val]
      ensures r.Fail? ==> Elements() == old(Elements())
      ensures capacity == if r.Ok? && old(size) == old(capacity) then old(size) + 1 else old(capacity)
    {
      r := Reserve(size + 1);
      if r.Fail? {
        return;
      }
      buf[size] := val;
      size := size + 1;
    }

    /** `pop_back()`: `resize(_size - 1)` in `size_t` arithmetic. On an empty
        vector the argument wraps to `SIZE_MAX`, and `reserve` throws because
        `max_size()` is assumed below `SIZE_MAX`. */
    method PopBack() returns (r: Outcome)
      requires Valid()
      modifies this, buf
      ensures Valid() && (buf == old(buf) || fresh(buf))
      ensures r.Fail? <==> old(size) == 0 || old(size) - 1 > maxSize
      ensures old(size) == 0 ==> r == Fail(LengthError) && Elements() == old(Elements())
      ensures old(size) > 0 ==> Elements() == old(Elements())[..old(size) - 1]
      ensures capacity == old(capacity)
    {
      var n := if size == 0 then SIZE_MAX else size - 1;
      var val: T := *;
      r := Resize(n, val);
    }

    /** `insert(position, n, val)`: snapshot the elements (the copy `tmp`),
        `reserve(_size + n)`, write n copies of val at the position, then the
        old tail after them. */
    method InsertFill(pos: nat, n: nat, val: T) returns (r: Outcome)
      requires Valid() && pos <= size
      modifies this, buf
      ensures Valid() && (buf == old(buf) || fresh(buf))
      ensures r == if old(size) + n > maxSize then Fail(LengthError) else Ok
      ensures r.Ok? ==> Elements() == InsertAt(old(Elements()), pos, Fill(n, val))
      ensures r.Fail? ==> Elements() == old(Elements())
      ensures capacity == if r.Ok? && old(size) + n > old(capacity) then old(size) + n else old(capacity)
    {
      var tmp := buf[..size];
      var i := pos;
      r := Reserve(size + n);
      if r.Fail? {
        return;
      }
      assert buf[..i] == tmp[..i];
      WriteFill(buf, tmp, i, n, val);
      size := size + n;
    }

    /** `insert(position, val)`: `insert(position, 1, val)`, answering the
        index of the new element in the (possibly new) buffer. */
    method Insert(pos: nat, val: T) returns (r: Result<nat>)
      requires Valid() && pos <= size
      modifies this, buf
      ensures Valid() && (buf == old(buf) || fresh(buf))
      ensures r.Failure? <==> old(size) + 1 > maxSize
      ensures r.Success? ==> r.value == pos && Elements() == InsertAt(old(Elements()), pos, [val])
      ensures r.Success? ==> Elements()[r.value] == val
      ensures r.Failure? ==> Elements() == old(Elements()) && r.error == LengthError
      ensures capacity == if r.Success? && old(size) + 1 > old(capacity) then old(size) + 1 else old(capacity)
    {
      var i := pos;
      var o := InsertFill(pos, 1, val);
      if o.Fail? {
        return Failure(o.error);
      }
      assert Fill(1, val) == [val];
      return Success(i);
    }

    /** `insert(position, first, last)`: snapshot, count the range, `reserve
        (_size + n)`, grow `_size`, copy the range in, then the old tail. */
    method InsertRange(pos: nat, s: seq<T>) returns (r: Outcome)
      requires Valid() && pos <= size
      modifies this, buf
      ensures Valid() && (buf == old(buf) || fresh(buf))
      ensures r == if old(size) + |s| > maxSize then Fail(LengthError) else Ok
      ensures r.Ok? ==> Elements() == InsertAt(old(Elements()), pos, s)
      ensures r.Fail? ==> Elements() == old(Elements())
      ensures capacity == if r.Ok? && old(size) + |s| > old(capacity) then old(size) + |s| else old(capacity)
    {
      var tmp := buf[..size];
      var n := 0;
      while n < |s|
        invariant n <= |s|
      {
        n := n + 1;
      }
      var i := pos;
      r := Reserve(size + n);
      if r.Fail? {
        return;
      }
      size := size + n;
      assert buf[..i] == tmp[..i];
      WriteRange(buf, tmp, i, s);
    }

    /** `erase(position)`: every later element moves one slot to the left;
        the answer is the same position. */
    method Erase(pos: nat) returns (r: nat)
      requires Valid() && pos < size
      modifies this, buf
      ensures Valid() && buf == old(buf) && capacity == old(capacity)
      ensures r == pos
      ensures Elements() == RemoveRange(old(Elements()), pos, pos + 1)
    {
      ghost var s := Elements();
      var a := buf;
      for j := pos to size
        modifies a
        invariant a[..pos] == s[..pos]
        invariant forall k :: pos <= k < j && k + 1 < size ==> a[k] == s[k + 1]
        invariant forall k :: j <= k < size ==> a[k] == s[k]
      {
        if j + 1 < size {
          a[j] := a[j + 1];
        }
      }
      size := size - 1;
      assert Elements() == RemoveRange(s, pos, pos + 1);
      return pos;
    }

    /** `erase(first, last)`: snapshot, then the elements from `last` on are
        copied down to `first`; the answer is `first`. */
    method EraseRange(first: nat, last: nat) returns (r: nat)
      requires Valid() && first <= last <= size
      modifies this, buf
      ensures Valid() && buf == old(buf) && capacity == old(capacity)
      ensures r == first
      ensures Elements() == RemoveRange(old(Elements()), first, last)
    {
      var tmp := buf[..size];
      var i := first;
      var n := last - first;
      var a := buf;
      for j := i + n to size
        modifies a
        invariant a[..i] == tmp[..i]
        invariant forall k :: i + n <= k < j ==> a[k - n] == tmp[k]
      {
        a[j - n] := tmp[j];
      }
      size := size - n;
      ghost var want := RemoveRange(tmp, first, last);
      forall k | 0 <= k < size
        ensures buf[k] == want[k]
      {
        if k < first {
          assert a[..i][k] == tmp[..i][k];
        } else {
          assert a[(k + n) - n] == tmp[k + n];
        }
      }
      assert Elements() == want;
      return first;
    }

    /** `swap(other)`: exchanges the buffers, capacities and sizes; the
        allocators stay where they are. */
    method Swap(other: Vector<T>)
      requires Valid() && other.Valid()
      modifies this, other
      ensures Valid() && other.Valid()
      ensures Elements() == old(other.Elements()) && other.Elements() == old(Elements())
      ensures capacity == old(other.capacity) && other.capacity == old(capacity)
    {
      buf, other.buf := other.buf, buf;
      capacity, other.capacity := other.capacity, capacity;
      size, other.size := other.size, size;
    }

    /** `size()`. */
    function Size(): (n: nat)
      reads this, buf
      requires Valid()
      ensures n == |Elements()|
    {
      size
    }

    /** `empty()`. */
    function Empty(): (b: bool)
      reads this, buf
      requires Valid()
      ensures b <==> Elements() == []
    {
      size == 0
    }

    /** `capacity()`: never less than the size. */
    function Capacity(): (n: nat)
      reads this, buf
      requires Valid()
      ensures n >= |Elements()|
    {
      capacity
    }

    /** `at(n)`: `out_of_range` exactly when n is not an index. */
    method At(n: nat) returns (r: Result<T>)
      requires Valid()
      ensures r.Failure? <==> n >= |Elements()|
      ensures r.Failure? ==> r.error == OutOfRange
      ensures r.Success? ==> r.value == Elements()[n]
    {
      if n >= size {
        return Failure(OutOfRange);
      }
      return Success(buf[n]);
    }

    /** `operator[](n)` for an index (out of range it dereferences `end()`). */
    method Get(n: nat) returns (v: T)
      requires Valid() && n < size
      ensures v == Elements()[n]
    {
      v := buf[n];
    }

    /** `front()` of a non-empty vector. */
    method Front() returns (v: T)
      requires Valid() && size > 0
      ensures v == Elements()[0]
    {
      v := buf[0];
    }

    /** `back()` of a non-empty vector. */
    method Back() returns (v: T)
      requires Valid() && size > 0
      ensures v == Elements()[|Elements()| - 1]
    {
      v := buf[size - 1];
    }
  }

  /** The two loops of `insert(position, n, val)`: n copies of val from
      slot i on, then the snapshot's tail after them. */
  method WriteFill<T>(a: array<T>, tmp: seq<T>, i: nat, n: nat, val: T)
    requires i <= |tmp| && |tmp| + n <= a.Length && a[..i] == tmp[..i]
    modifies a
    ensures a[..|tmp| + n] == InsertAt(tmp, i, Fill(n, val))
  {
    for j := i to i + n
      invariant a[..i] == tmp[..i]
      invariant forall k :: i <= k < j ==> a[k] == val
    {
      a[j] := val;
    }
    for j := i + n to |tmp| + n
      invariant a[..i] == tmp[..i]
      invariant forall k :: i <= k < i + n ==> a[k] == val
      invariant forall k :: i + n <= k < j ==> a[k] == tmp[k - n]
    {
      a[j] := tmp[j - n];
    }
    SpliceEquals(a[..|tmp| + n], tmp, i, Fill(n, val));
  }

  /** The two loops of `insert(position, first, last)`: the range from slot
      i on, then the snapshot's tail after it. */
  method WriteRange<T>(a: array<T>, tmp: seq<T>, i: nat, s: seq<T>)
    requires i <= |tmp| && |tmp| + |s| <= a.Length && a[..i] == tmp[..i]
    modifies a
    ensures a[..|tmp| + |s|] == InsertAt(tmp, i, s)
  {
    var n := |s|;
    for j := i to i + n
      invariant a[..i] == tmp[..i]
      invariant forall k :: i <= k < j ==> a[k] == s[k - i]
    {
      a[j] := s[j - i];
    }
    for j := i + n to |tmp| + n
      invariant a[..i] == tmp[..i]
      invariant forall k :: i <= k < i + n ==> a[k] == s[k - i]
      invariant forall k :: i + n <= k < j ==> a[k] == tmp[k - n]
    {
      a[j] := tmp[j - n];
    }
    SpliceEquals(a[..|tmp| + n], tmp, i, s);
  }

  /** The buffer written by the insert loops is the splice. */
  lemma SpliceEquals<T>(b: seq<T>, s: seq<T>, i: nat, t: seq<T>)
    requires i <= |s| && |b| == |s| + |t|
    requires b[..i] == s[..i]
    requires forall k :: i <= k < i + |t| ==> b[k] == t[k - i]
    requires forall k :: i + |t| <= k < |b| ==> b[k] == s[k - |t|]
    ensures b == InsertAt(s, i, t)
  {
    var r := InsertAt(s, i, t);
    forall k | 0 <= k < |b|
      ensures b[k] == r[k]
    {
      if k < i {
        assert b[k] == b[..i][k];
      } else if k < i + |t| {
        assert r[i + (k - i)] == t[k - i];
      } else {
        assert r[(k - |t|) + |t|] == s[k - |t|];
      }
    }
  }

  /* ---------------------------------------------------------------------
     Comparison operators
     --------------------------------------------------------------------- */

  /** `operator==`: sizes first, then element by element. */
  method VectorEq<T(0, ==)>(lhs: Vector<T>, rhs: Vector<T>) returns (r: bool)
    requires lhs.Valid() && rhs.Valid()
    ensures r <==> lhs.Elements() == rhs.Elements()
  {
    if lhs.size != rhs.size {
      return false;
    }
    for i := 0 to lhs.size
      invariant lhs.buf[..i] == rhs.buf[..i]
    {
      if lhs.buf[i] != rhs.buf[i] {
        assert lhs.Elements()[i] != rhs.Elements()[i];
        return false;
      }
    }
    return true;
  }

  /** `operator!=`: the negation of `==`. */
  method VectorNe<T(0, ==)>(lhs: Vector<T>, rhs: Vector<T>) returns (r: bool)
    requires lhs.Valid() && rhs.Valid()
    ensures r <==> lhs.Elements() != rhs.Elements()
  {
    var eq := VectorEq(lhs, rhs);
    r := !eq;
  }

  /** `operator<`: `lexicographical_compare` over both element ranges. */
  method VectorLt(lhs: Vector<int>, rhs: Vector<int>) returns (r: bool)
    requires lhs.Valid() && rhs.Valid()
    ensures r == LexLess(lhs.Elements(), rhs.Elements())
  {
    r := LexicographicalCompare(lhs.buf[..lhs.size], rhs.buf[..rhs.size]);
  }

  /** `operator<=` is `!(rhs < lhs)`: less, or the same elements. */
  method VectorLe(lhs: Vector<int>, rhs: Vector<int>) returns (r: bool)
    requires lhs.Valid() && rhs.Valid()
    ensures r <==> LexLess(lhs.Elements(), rhs.Elements()) || lhs.Elements() == rhs.Elements()
  {
    var gt := VectorLt(rhs, lhs);
    LexTrichotomy(lhs.Elements(), rhs.Elements());
    r := !gt;
  }

  /** `operator>` is `rhs < lhs`: neither less nor the same elements. */
  method VectorGt(lhs: Vector<int>, rhs: Vector<int>) returns (r: bool)
    requires lhs.Valid() && rhs.Valid()
    ensures r <==> !LexLess(lhs.Elements(), rhs.Elements()) && lhs.Elements() != rhs.Elements()
  {
    r := VectorLt(rhs, lhs);
    LexTrichotomy(lhs.Elements(), rhs.Elements());
  }

  /** `operator>=` is `!(lhs < rhs)`: greater, or the same elements. */
  method VectorGe(lhs: Vector<int>, rhs: Vector<int>) returns (r: bool)
    requires lhs.Valid() && rhs.Valid()
    ensures r <==> LexLess(rhs.Elements(), lhs.Elements()) || lhs.Elements() == rhs.Elements()
  {
    var lt := VectorLt(lhs, rhs);
    LexTrichotomy(lhs.Elements(), rhs.Elements());
    r := !lt;
  }
}
