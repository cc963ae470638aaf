/** `set`: an ordered set of keys kept in a search tree, with its own element
    count `_size`. Iterators are `end()` or the node of a key; iteration visits
    the keys in increasing order. */
module OrderedSets {
  import opened Algorithms
  import opened SearchTrees
  import RBSpec

  class OrderedSet {
    var tree: Bst<()>
    var size: nat

    /** `_size` counts the keys of the tree. */
    ghost predicate Valid()
      reads this
    {
      IsBst(tree) && size == |InOrder(tree)|
    }

    /** The keys in iteration order. */
    function Elements(): seq<int>
      reads this
    {
      InOrder(tree)
    }

    /** `set()`: an empty tree. */
    constructor ()
      ensures Valid() && Elements() == []
    {
      tree := Leaf;
      size := 0;
    }

    /** `set(first, last)`: inserts the range one element at a time. */
    constructor FromRange(s: seq<int>)
      ensures Valid()
      ensures forall x :: x in Elements() <==> x in s
    {
      tree := Leaf;
      size := 0;
      new;
      InsertRange(s);
    }

    /** The copy constructor: inserts the other set's elements in order. */
    constructor Copy(other: OrderedSet)
      requires other.Valid()
      ensures Valid() && Elements() == other.Elements()
    {
      tree := Leaf;
      size := 0;
      new;
      InsertRange(other.Elements());
      SortedSameElements(Elements(), other.Elements());
    }

    /** `operator=` as written: the own tree is replaced by an empty one and
        `_size` reset before the other's elements are inserted, so assigning
        a set to itself empties it. */
    method Assign(other: OrderedSet)
      requires Valid() && other.Valid()
      modifies this
      ensures Valid()
      ensures other != this ==> Elements() == old(other.Elements())
      ensures other == this ==> Elements() == []
    {
      tree := Leaf;
      size := 0;
      ghost var source := other.Elements();
      InsertRange(other.Elements());
      if other != this {
        SortedSameElements(Elements(), other.Elements());
      } else {
        assert source == [];
        SortedSameElements(Elements(), []);
      }
    }

    /** `operator=` with the self-assignment check: the contents become the
        other's in every case. */
    method AssignChecked(other: OrderedSet)
      requires Valid() && other.Valid()
      modifies this
      ensures Valid() && Elements() == old(other.Elements())
    {
      if other != this {
        Assign(other);
      }
    }

    /** `clear()`: only a non-empty set is touched. */
    method Clear()
      requires Valid()
      modifies this
      ensures Valid() && Elements() == []
    {
      if size != 0 {
        size := 0;
        tree := Leaf;
      }
    }

    /** `empty()`. */
    function Empty(): (b: bool)
      reads this
      requires Valid()
      ensures b <==> Elements() == []
    {
      size == 0
    }

    /** `size()`: the number of keys. */
    function Size(): (n: nat)
      reads this
      requires Valid()
      ensures n == |Elements()|
    {
      size
    }

    /** `insert(value)`: `(existing, false)` when the key is present,
        otherwise the tree gains it, `_size` grows and `(new, true)`. */
    method Insert(value: int) returns (r: Pair<Iter, bool>)
      requires Valid()
      modifies this
      ensures Valid()
      ensures r.first == At(value)
      ensures r.second <==> value !in old(Elements())
      ensures forall x :: x in Elements() <==> x in old(Elements()) || x == value
      ensures size == old(size) + (if r.second then 1 else 0)
    {
      var node := SearchTrees.Find(tree, value);
      if node.Some? {
        return MakePair(At(value), false);
      }
      tree := SearchTrees.Insert(tree, value, ());
      size := size + 1;
      return MakePair(At(value), true);
    }

    /** `insert(hint, value)`: the hint is ignored. */
    method InsertHint(hint: Iter, value: int) returns (it: Iter)
      requires Valid()
      modifies this
      ensures Valid() && it == At(value)
      ensures forall x :: x in Elements() <==> x in old(Elements()) || x == value
    {
      var r := Insert(value);
      it := r.first;
    }

    /** `insert(first, last)`: inserts each element of the range. */
    method InsertRange(s: seq<int>)
      requires Valid()
      modifies this
      ensures Valid()
      ensures forall x :: x in Elements() <==> x in old(Elements()) || x in s
    {
      for i := 0 to |s|
        invariant Valid()
        invariant forall x :: x in Elements() <==> x in old(Elements()) || x in s[..i]
      {
        var _ := Insert(s[i]);
        assert s[..i + 1] == s[..i] + [s[i]];
      }
      assert s == s[..|s|];
    }

    /** `find(key)`. */
    method Find(key: int) returns (it: Iter)
      requires Valid()
      ensures it == if key in Elements() then At(key) else End
    {
      var node := SearchTrees.Find(tree, key);
      it := if node.Some? then At(key) else End;
    }

    /** `lower_bound(key)`: `end()` for an empty set, otherwise the tree
        descent; the least key not less than key. */
    method LowerBound(key: int) returns (it: Iter)
      requires Valid()
      ensures it == FirstAtLeast(Elements(), key)
      ensures it.At? ==> it.key in Elements() && it.key >= key
      ensures it.At? ==> forall x :: x in Elements() && x >= key ==> it.key <= x
      ensures it.End? <==> forall x :: x in Elements() ==> x < key
    {
      FirstAtLeastLeast(Elements(), key);
      if size == 0 {
        return End;
      }
      it := SearchTrees.LowerBound(tree, key);
    }

    /** `upper_bound(key)`: the least key greater than key, or `end()`. */
    method UpperBound(key: int) returns (it: Iter)
      requires Valid()
      ensures it == FirstAbove(Elements(), key)
      ensures it.At? ==> it.key in Elements() && it.key > key
      ensures it.At? ==> forall x :: x in Elements() && x > key ==> it.key <= x
      ensures it.End? <==> forall x :: x in Elements() ==> x <= key
    {
      FirstAboveLeast(Elements(), key);
      if size == 0 {
        return End;
      }
      it := SearchTrees.UpperBound(tree, key);
    }

    /** `equal_range(key)`: `(lower_bound(key), upper_bound(key))`; it starts
        at the key itself when present and is empty when it is absent. */
    method EqualRange(key: int) returns (r: Pair<Iter, Iter>)
      requires Valid()
      ensures r.first == FirstAtLeast(Elements(), key)
      ensures r.second == FirstAbove(Elements(), key)
      ensures key in Elements() ==> r.first == At(key)
      ensures key !in Elements() ==> r.first == r.second
    {
      var lo := LowerBound(key);
      var hi := UpperBound(key);
      if key !in Elements() {
        FirstAtLeastAbsent(Elements(), key);
      }
      r := MakePair(lo, hi);
    }

    /** `erase(pos)` for an iterator to an element. */
    method Erase(pos: Iter)
      requires Valid() && pos.At? && pos.key in Elements()
      modifies this
      ensures Valid()
      ensures forall x :: x in Elements() <==> x in old(Elements()) && x != pos.key
      ensures size == old(size) - 1
    {
      tree := Remove(tree, pos.key);
      size := size - 1;
    }

    /** `erase(key)`: 1 and one key fewer when present, else 0 and no
        change. */
    method EraseKey(k: int) returns (n: nat)
      requires Valid()
      modifies this
      ensures Valid()
      ensures n == if k in old(Elements()) then 1 else 0
      ensures forall x :: x in Elements() <==> x in old(Elements()) && x != k
      ensures size == old(size) - n
    {
      var found := Find(k);
      if found != End {
        tree := Remove(tree, k);
        size := size - 1;
        return 1;
      }
      return 0;
    }

    /** `count(key)`: a full scan counting the elements equal to key, which
        in a set is 0 or 1. */
    method Count(key: int) returns (c: nat)
      requires Valid()
      ensures c == if key in Elements() then 1 else 0
    {
      var s := Elements();
      c := 0;
      for i := 0 to |s|
        invariant c == if key in s[..i] then 1 else 0
      {
        if s[i] == key {
          assert key !in s[..i] by {
            forall j | 0 <= j < i
              ensures s[j] < s[i]
            {
            }
          }
          c := c + 1;
        }
        assert s[..i + 1] == s[..i] + [s[i]];
      }
      assert s[..|s|] == s;
    }
  }

  /** `operator==`: `equal` over the iteration ranges, which for sets holds
      exactly when both hold the same keys. */
  method SetEq(lhs: OrderedSet, rhs: OrderedSet) returns (r: bool)
    requires lhs.Valid() && rhs.Valid()
    ensures r <==> forall x :: x in lhs.Elements() <==> x in rhs.Elements()
  {
    r := Equal(lhs.Elements(), rhs.Elements());
    SortedSameElements(lhs.Elements(), rhs.Elements());
  }

  /** `operator!=`: the negation of `==`. */
  method SetNe(lhs: OrderedSet, rhs: OrderedSet) returns (r: bool)
    requires lhs.Valid() && rhs.Valid()
    ensures r <==> exists x :: x in lhs.Elements() <==> x !in rhs.Elements()
  {
    var eq := SetEq(lhs, rhs);
    r := !eq;
  }

  /** `operator<`: `lexicographical_compare` over the iteration ranges. */
  method SetLt(lhs: OrderedSet, rhs: OrderedSet) returns (r: bool)
    requires lhs.Valid() && rhs.Valid()
    ensures r == LexLess(lhs.Elements(), rhs.Elements())
  {
    r := LexicographicalCompare(lhs.Elements(), rhs.Elements());
  }

  /** `operator<=` is `!(rhs < lhs)`: less, or the same keys. */
  method SetLe(lhs: OrderedSet, rhs: OrderedSet) returns (r: bool)
    requires lhs.Valid() && rhs.Valid()
    ensures r <==> LexLess(lhs.Elements(), rhs.Elements()) || lhs.Elements() == rhs.Elements()
  {
    var gt := SetLt(rhs, lhs);
    LexTrichotomy(lhs.Elements(), rhs.Elements());
    r := !gt;
  }

  /** `operator>` is `rhs < lhs`. */
  method SetGt(lhs: OrderedSet, rhs: OrderedSet) returns (r: bool)
    requires lhs.Valid() && rhs.Valid()
    ensures r <==> !LexLess(lhs.Elements(), rhs.Elements()) && lhs.Elements() != rhs.Elements()
  {
    r := SetLt(rhs, lhs);
    LexTrichotomy(lhs.Elements(), rhs.Elements());
  }

  /** `operator>=` is `!(lhs < rhs)`: greater, or the same keys. */
  method SetGe(lhs: OrderedSet, rhs: OrderedSet) returns (r: bool)
    requires lhs.Valid() && rhs.Valid()
    ensures r <==> LexLess(rhs.Elements(), lhs.Elements()) || lhs.Elements() == rhs.Elements()
  {
    var lt := SetLt(lhs, rhs);
    LexTrichotomy(lhs.Elements(), rhs.Elements());
    r := !lt;
  }

  /** Assigning a one-element set to itself leaves it empty. */
  method SelfAssignExample() returns (before: seq<int>, s: OrderedSet)
    ensures before == [1] && s.Elements() == []
  {
    s := new OrderedSet.FromRange([1]);
    before := s.Elements();
    SortedSameElements(before, [1]);
    s.Assign(s);
  }
}
