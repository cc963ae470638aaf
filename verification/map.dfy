/** `map`: an ordered map from keys to mapped values, kept in a search tree
    of `pair<const Key, T>` ordered by `value_compare`, with its own element
    count `_size`. Keys are `int`; the mapped type's default value `T()` is the
    constant `initial` fixed at construction. */
module OrderedMaps {
  import opened Algorithms
  import opened SearchTrees

  /** `value_compare`: orders two entries by `key_compare` on their keys. */
  predicate ValueCompare<V>(lhs: Pair<int, V>, rhs: Pair<int, V>)
  {
    lhs.first < rhs.first
  }

  /** `value_compare` is a strict weak order whose classes of incomparable
      entries are exactly the entries with the same key, whatever their
      mapped values. */
  lemma ValueCompareByKey<V>(a: Pair<int, V>, b: Pair<int, V>, c: Pair<int, V>)
    ensures !ValueCompare(a, a)
    ensures ValueCompare(a, b) && ValueCompare(b, c) ==> ValueCompare(a, c)
    ensures !ValueCompare(a, b) && !ValueCompare(b, a) <==> a.first == b.first
  {
  }

  /** The keys of a range of entries, in order. */
  function KeysOf<V>(s: seq<Pair<int, V>>): (r: seq<int>)
    ensures |r| == |s| && forall i :: 0 <= i < |s| ==> r[i] == s[i].first
  {
    seq(|s|, i requires 0 <= i < |s| => s[i].first)
  }

  /** The mapped value of the first entry of s with key k, if any: what a
      sequence of `insert` calls that never overwrite leaves under k. */
  function FirstValue<V>(s: seq<Pair<int, V>>, k: int): (r: Option<V>)
    ensures r.Some? <==> k in KeysOf(s)
  {
    if |s| == 0 then None
    else if s[0].first == k then Some(s[0].second)
    else
      assert KeysOf(s) == [s[0].first] + KeysOf(s[1..]);
      FirstValue(s[1..], k)
  }

  /** Appending an entry changes the first value only for a new key. */
  lemma {:induction false} FirstValueSnoc<V>(s: seq<Pair<int, V>>, e: Pair<int, V>, k: int)
    ensures FirstValue(s + [e], k)
            == if FirstValue(s, k).Some? then FirstValue(s, k)
               else if e.first == k then Some(e.second) else None
  {
    if |s| > 0 {
      assert (s + [e])[1..] == s[1..] + [e];
      FirstValueSnoc(s[1..], e, k);
    }
  }

  class OrderedMap<V> {
    var tree: Bst<V>
    var size: nat
    const initial: V

    /** `_size` counts the entries of the tree. */
    ghost predicate Valid()
      reads this
    {
      IsBst(tree) && size == |InOrder(tree)|
    }

    /** The keys in iteration order. */
    function Keys(): seq<int>
      reads this
    {
      InOrder(tree)
    }

    /** The mapped value stored under k, if any. */
    function Lookup(k: int): (r: Option<V>)
      reads this
      requires IsBst(tree)
      ensures r.Some? <==> k in Keys()
    {
      SearchTrees.Find(tree, k)
    }

    /** `map()`: an empty tree. */
    constructor (initial: V)
      ensures Valid() && Keys() == [] && this.initial == initial
    {
      tree := Leaf;
      size := 0;
      this.initial := initial;
    }

    /** `map(first, last)` as written: every element of the range adds one to
        `_size` before it is handed to the tree, so a range that repeats a
        key leaves `_size` above the number of entries. */
    constructor FromRangeAsWritten(s: seq<Pair<int, V>>, initial: V)
      ensures IsBst(tree) && size == |s|
      ensures forall k :: k in Keys() <==> k in KeysOf(s)
    {
      tree := Leaf;
      size := 0;
      this.initial := initial;
      new;
      for i := 0 to |s|
        invariant IsBst(tree) && size == i
        invariant forall k :: k in Keys() <==> k in KeysOf(s[..i])
      {
        size := size + 1;
        tree := SearchTrees.Insert(tree, s[i].first, s[i].second);
        assert KeysOf(s[..i + 1]) == KeysOf(s[..i]) + [s[i].first];
      }
      assert s[..|s|] == s;
    }

    /** `map(first, last)` counting only the entries the tree gains, that is,
        inserting the range with `insert`: each key keeps the value of its
        first occurrence. */
    constructor FromRange(s: seq<Pair<int, V>>, initial: V)
      ensures Valid()
      ensures forall k :: k in Keys() <==> k in KeysOf(s)
      ensures forall k :: Lookup(k) == FirstValue(s, k)
    {
      tree := Leaf;
      size := 0;
      this.initial := initial;
      new;
      InsertRange(s);
    }

    /** `operator=` as written: the own tree is destroyed and a new empty one
        built, and only the comparator and allocator are taken from other;
        its entries are not copied. */
    method AssignAsWritten(other: OrderedMap<V>)
      requires Valid() && other.Valid()
      modifies this
      ensures Valid() && Keys() == []
    {
      size := 0;
      tree := Leaf;
    }

    /** `operator=` copying the other's entries, which is what assignment
        promises: afterwards both maps hold the same keys and values. */
    method Assign(other: OrderedMap<V>)
      requires Valid() && other.Valid()
      modifies this
      ensures Valid() && Keys() == old(other.Keys())
      ensures forall k :: Lookup(k) == old(other.Lookup(k))
    {
      if other != this {
        tree := other.tree;
        size := other.size;
      }
    }

    /** `operator[](key)`: the value stored under key; an absent key is first
        inserted with `T()`, which is then returned. */
    method Index(key: int) returns (v: V)
      requires Valid()
      modifies this
      ensures Valid()
      ensures v == if key in old(Keys()) then old(Lookup(key)).value else initial
      ensures Lookup(key) == Some(v)
      ensures forall k :: k != key ==> Lookup(k) == old(Lookup(k))
      ensures size == old(size) + (if key in old(Keys()) then 0 else 1)
    {
      var node := SearchTrees.Find(tree, key);
      if node.None? {
        var _ := Insert(MakePair(key, initial));
        return initial;
      }
      return node.value;
    }

    /** `clear()`. */
    method Clear()
      requires Valid()
      modifies this
      ensures Valid() && Keys() == []
    {
      size := 0;
      tree := Leaf;
    }

    /** `empty()`. */
    function Empty(): (b: bool)
      reads this
      requires Valid()
      ensures b <==> Keys() == []
    {
      size == 0
    }

    /** `size()`: the number of entries. */
    function Size(): (n: nat)
      reads this
      requires Valid()
      ensures n == |Keys()|
    {
      size
    }

    /** `insert(value)`: `(existing, false)` and no change when the key is
        present (its mapped value is not overwritten); otherwise the entry is
        added, `_size` grows and `(new, true)`. */
    method Insert(value: Pair<int, V>) returns (r: Pair<Iter, bool>)
      requires Valid()
      modifies this
      ensures Valid()
      ensures r.first == At(value.first)
      ensures r.second <==> value.first !in old(Keys())
      ensures !r.second ==> tree == old(tree)
      ensures Lookup(value.first) == if r.second then Some(value.second) else old(Lookup(value.first))
      ensures forall k :: k != value.first ==> Lookup(k) == old(Lookup(k))
      ensures forall k :: k in Keys() <==> k in old(Keys()) || k == value.first
      ensures size == old(size) + (if r.second then 1 else 0)
    {
      var node := SearchTrees.Find(tree, value.first);
      if node.Some? {
        return MakePair(At(value.first), false);
      }
      tree := SearchTrees.Insert(tree, value.first, value.second);
      size := size + 1;
      return MakePair(At(value.first), true);
    }

    /** `insert(hint, value)`: the hint is ignored. */
    method InsertHint(hint: Iter, value: Pair<int, V>) returns (it: Iter)
      requires Valid()
      modifies this
      ensures Valid() && it == At(value.first)
      ensures Lookup(value.first) == if value.first in old(Keys()) then old(Lookup(value.first)) else Some(value.second)
      ensures forall k :: k != value.first ==> Lookup(k) == old(Lookup(k))
    {
      var r := Insert(value);
      it := r.first;
    }

    /** `insert(first, last)`: inserts each entry of the range; keys already
        present, or repeated in the range, keep their first value. */
    method InsertRange(s: seq<Pair<int, V>>)
      requires Valid()
      modifies this
      ensures Valid()
      ensures forall k :: k in Keys() <==> k in old(Keys()) || k in KeysOf(s)
      ensures forall k :: Lookup(k) == if old(Lookup(k)).Some? then old(Lookup(k)) else FirstValue(s, k)
    {
      for i := 0 to |s|
        invariant Valid()
        invariant forall k :: Lookup(k) == if old(Lookup(k)).Some? then old(Lookup(k)) else FirstValue(s[..i], k)
      {
        var _ := Insert(s[i]);
        assert s[..i + 1] == s[..i] + [s[i]];
        forall k
          ensures FirstValue(s[..i + 1], k)
                  == if FirstValue(s[..i], k).Some? then FirstValue(s[..i], k)
                     else if s[i].first == k then Some(s[i].second) else None
        {
          FirstValueSnoc(s[..i], s[i], k);
        }
      }
      assert s[..|s|] == s;
      forall k
        ensures k in Keys() <==> k in old(Keys()) || k in KeysOf(s)
      {
        assert Lookup(k).Some? <==> k in Keys();
        assert old(Lookup(k)).Some? <==> k in old(Keys());
      }
    }

    /** `lower_bound(key)`: `end()` for an empty map, otherwise the tree
        descent; the entry with the least key not less than key. */
    method LowerBound(key: int) returns (it: Iter)
      requires Valid()
      ensures it == FirstAtLeast(Keys(), key)
      ensures it.At? ==> it.key in Keys() && it.key >= key
      ensures it.At? ==> forall x :: x in Keys() && x >= key ==> it.key <= x
      ensures it.End? <==> forall x :: x in Keys() ==> x < key
    {
      FirstAtLeastLeast(Keys(), key);
      if size == 0 {
        return End;
      }
      it := SearchTrees.LowerBound(tree, key);
    }

    /** `upper_bound(key)`: the entry with the least key greater than key,
        or `end()`. */
    method UpperBound(key: int) returns (it: Iter)
      requires Valid()
      ensures it == FirstAbove(Keys(), key)
      ensures it.At? ==> it.key in Keys() && it.key > key
      ensures it.At? ==> forall x :: x in Keys() && x > key ==> it.key <= x
      ensures it.End? <==> forall x :: x in Keys() ==> x <= key
    {
      FirstAboveLeast(Keys(), key);
      if size == 0 {
        return End;
      }
      it := SearchTrees.UpperBound(tree, key);
    }

    /** `equal_range(key)`: `(lower_bound(key), upper_bound(key))`, which
        starts at the key's entry when present and is empty otherwise. */
    method EqualRange(key: int) returns (r: Pair<Iter, Iter>)
      requires Valid()
      ensures r.first == FirstAtLeast(Keys(), key)
      ensures r.second == FirstAbove(Keys(), key)
      ensures key in Keys() ==> r.first == At(key)
      ensures key !in Keys() ==> r.first == r.second
    {
      var lo := LowerBound(key);
      var hi := UpperBound(key);
      if key !in Keys() {
        FirstAtLeastAbsent(Keys(), key);
      }
      r := MakePair(lo, hi);
    }
  }

  /** A range repeating key 1 leaves `_size` at 2 over a single entry. */
  method RangeOvercountExample() returns (m: OrderedMap<int>)
    ensures m.size == 2 && m.Keys() == [1] && !m.Valid()
  {
    m := new OrderedMap.FromRangeAsWritten([Pair(1, 10), Pair(1, 20)], 0);
    assert KeysOf([Pair(1, 10), Pair(1, 20)]) == [1, 1];
    SortedSameElements(m.Keys(), [1]);
  }

  /** Assigning a map with one entry leaves the target empty. */
  method AssignDropsExample() returns (a: OrderedMap<int>, b: OrderedMap<int>)
    ensures b.Keys() == [1] && a.Keys() == []
  {
    b := new OrderedMap(0);
    var _ := b.Insert(Pair(1, 10));
    SortedSameElements(b.Keys(), [1]);
    a := new OrderedMap(0);
    a.AssignAsWritten(b);
  }
}
