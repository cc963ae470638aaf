/** The tree interface the set and map adapters are written against.

    The adapters call tree members that the red-black tree of rbtree.hpp does
    not define (`find`, `remove`, `clear`, `root`, `begin`/`end`). They are
    modelled here by their contracts over a plain binary search tree value:
    each node holds a key and a payload (the mapped value of a map, `()` for a
    set), the iteration order is the in-order key sequence, and an iterator is
    either `end()` or the node holding a given key. Only the contracts of
    Find, Insert and Remove are relied on by the adapters; their bodies are
    the simplest ones that meet them, not the red-black algorithms.

    The read-only descents `lower_bound` and `upper_bound`, which the adapters
    do define, are modelled as loops over the node links and proved against
    linear-scan reference definitions over the iteration order. */
module SearchTrees {
  import RBSpec

  datatype Bst<V> = Leaf | Node(left: Bst<V>, key: int, value: V, right: Bst<V>)

  /** An iterator: `end()`, or the node holding `key`. */
  datatype Iter = End | At(key: int)

  datatype Option<T> = None | Some(value: T)

  /** The keys in iteration order (begin() to end()). */
  function InOrder<V>(t: Bst<V>): seq<int>
  {
    match t
    case Leaf => []
    case Node(l, k, _, r) => InOrder(l) + [k] + InOrder(r)
  }

  /** Binary-search-tree order: iteration visits strictly increasing keys. */
  ghost predicate IsBst<V>(t: Bst<V>)
  {
    RBSpec.Sorted(InOrder(t))
  }

  /** The subtrees of a search tree are search trees, split by the key. */
  lemma BstNode<V>(t: Bst<V>)
    requires IsBst(t) && t.Node?
    ensures IsBst(t.left) && IsBst(t.right)
    ensures forall x :: x in InOrder(t.left) ==> x < t.key
    ensures forall x :: x in InOrder(t.right) ==> t.key < x
  {
    RBSpec.SortedSplit(InOrder(t.left), t.key, InOrder(t.right));
  }

  /** Dropping one element keeps a sequence sorted. */
  lemma SortedJoin(a: seq<int>, k: int, b: seq<int>)
    requires RBSpec.Sorted(a + [k] + b)
    ensures RBSpec.Sorted(a + b)
  {
    RBSpec.SortedSplit(a, k, b);
    var s := a + b;
    forall i, j | 0 <= i < j < |s|
      ensures s[i] < s[j]
    {
      if j < |a| {
        assert s[i] == a[i] && s[j] == a[j];
      } else if i >= |a| {
        assert s[i] == b[i - |a|] && s[j] == b[j - |a|];
      } else {
        assert s[i] == a[i] && s[j] == b[j - |a|];
        assert a[i] in a && b[j - |a|] in b;
      }
    }
  }

  /** The head of a sorted sequence is its least element. */
  lemma SortedHeadLeast(s: seq<int>)
    requires RBSpec.Sorted(s) && |s| > 0
    ensures forall x :: x in s ==> s[0] <= x
  {
    forall x | x in s
      ensures s[0] <= x
    {
      var i :| 0 <= i < |s| && s[i] == x;
      assert i == 0 || s[0] < s[i];
    }
  }

  /** Two sorted sequences are equal exactly when they hold the same
      elements: for sets, comparing iteration orders is comparing contents. */
  lemma {:induction false} SortedSameElements(a: seq<int>, b: seq<int>)
    requires RBSpec.Sorted(a) && RBSpec.Sorted(b)
    ensures a == b <==> (forall x :: x in a <==> x in b)
  {
    if (forall x :: x in a <==> x in b) && |a| > 0 && |b| > 0 {
      SortedHeadLeast(a);
      SortedHeadLeast(b);
      assert a[0] in b && b[0] in a;
      assert a == [a[0]] + a[1..] && b == [b[0]] + b[1..];
      forall x
        ensures x in a[1..] <==> x in b[1..]
      {
        if x in a[1..] {
          var i :| 1 <= i < |a| && a[i] == x;
          assert a[0] < a[i] && x in b;
          var j :| 0 <= j < |b| && b[j] == x;
          assert j > 0 && b[1..][j - 1] == x;
        }
        if x in b[1..] {
          var i :| 1 <= i < |b| && b[i] == x;
          assert b[0] < b[i] && x in a;
          var j :| 0 <= j < |a| && a[j] == x;
          assert j > 0 && a[1..][j - 1] == x;
        }
      }
      SortedSameElements(a[1..], b[1..]);
    } else if |a| > 0 && |b| == 0 {
      assert a[0] in a && a[0] !in b;
    } else if |b| > 0 && |a| == 0 {
      assert b[0] in b && b[0] !in a;
    }
  }

  /* ---------------------------------------------------------------------
     Tree members the adapters call (contracts only are relied on)
     --------------------------------------------------------------------- */

  /** `find(key)`: the payload stored under key, if any. */
  function Find<V>(t: Bst<V>, k: int): (r: Option<V>)
    requires IsBst(t)
    ensures r.Some? <==> k in InOrder(t)
  {
    match t
    case Leaf => None
    case Node(l, x, v, r) =>
      BstNode(t);
      if k == x then Some(v)
      else if k < x then Find(l, k)
      else Find(r, k)
  }

  /** `insert(value)`: adds key k with payload v, or replaces the payload of
      an equal key. */
  function Insert<V>(t: Bst<V>, k: int, v: V): (r: Bst<V>)
    requires IsBst(t)
    ensures IsBst(r)
    ensures forall x :: x in InOrder(r) <==> x in InOrder(t) || x == k
    ensures |InOrder(r)| == |InOrder(t)| + (if k in InOrder(t) then 0 else 1)
    ensures Find(r, k) == Some(v)
    ensures forall j :: j != k ==> Find(r, j) == Find(t, j)
  {
    match t
    case Leaf =>
      assert InOrder(Node(Leaf, k, v, Leaf)) == [k];
      Node(Leaf, k, v, Leaf)
    case Node(l, x, w, r) =>
      BstNode(t);
      if k == x then
        Node(l, x, v, r)
      else if k < x then
        var l' := Insert(l, k, v);
        RBSpec.SortedSplit(InOrder(l'), x, InOrder(r));
        Node(l', x, w, r)
      else
        var r' := Insert(r, k, v);
        RBSpec.SortedSplit(InOrder(l), x, InOrder(r'));
        Node(l, x, w, r')
  }

  /** The least key of a non-empty tree and the tree without it. */
  function RemoveMin<V>(t: Bst<V>): (r: (int, V, Bst<V>))
    requires t.Node?
    ensures InOrder(t) == [r.0] + InOrder(r.2)
  {
    if t.left.Leaf? then (t.key, t.value, t.right)
    else
      var (m, mv, l') := RemoveMin(t.left);
      (m, mv, Node(l', t.key, t.value, t.right))
  }

  /** `remove(node)`: the tree without key k. */
  function Remove<V>(t: Bst<V>, k: int): (r: Bst<V>)
    requires IsBst(t)
    ensures IsBst(r)
    ensures forall x :: x in InOrder(r) <==> x in InOrder(t) && x != k
    ensures |InOrder(r)| == |InOrder(t)| - (if k in InOrder(t) then 1 else 0)
  {
    match t
    case Leaf => Leaf
    case Node(l, x, w, r) =>
      BstNode(t);
      if k < x then
        var l' := Remove(l, k);
        RBSpec.SortedSplit(InOrder(l'), x, InOrder(r));
        Node(l', x, w, r)
      else if x < k then
        var r' := Remove(r, k);
        RBSpec.SortedSplit(InOrder(l), x, InOrder(r'));
        Node(l, x, w, r')
      else if r.Leaf? then
        assert InOrder(t) == InOrder(l) + [x];
        l
      else
        var (m, mv, r') := RemoveMin(r);
        SortedJoin(InOrder(l), x, InOrder(r));
        assert InOrder(Node(l, m, mv, r')) == InOrder(l) + InOrder(r);
        Node(l, m, mv, r')
  }

  /* ---------------------------------------------------------------------
     lower_bound / upper_bound
     --------------------------------------------------------------------- */

  /** Reference: the first key in iteration order that is not less than key,
      or `end()`. */
  function FirstAtLeast(s: seq<int>, key: int): Iter
  {
    if |s| == 0 then End
    else if !(s[0] < key) then At(s[0])
    else FirstAtLeast(s[1..], key)
  }

  /** Reference: the first key in iteration order that is greater than key,
      or `end()`. */
  function FirstAbove(s: seq<int>, key: int): Iter
  {
    if |s| == 0 then End
    else if key < s[0] then At(s[0])
    else FirstAbove(s[1..], key)
  }

  /** In a sorted sequence, FirstAtLeast is the least element not less than
      key, and `end()` exactly when every element is less than key. */
  lemma {:induction false} FirstAtLeastLeast(s: seq<int>, key: int)
    requires RBSpec.Sorted(s)
    ensures FirstAtLeast(s, key).At? ==>
      FirstAtLeast(s, key).key in s && FirstAtLeast(s, key).key >= key
      && forall x :: x in s && x >= key ==> FirstAtLeast(s, key).key <= x
    ensures FirstAtLeast(s, key).End? <==> forall x :: x in s ==> x < key
  {
    if |s| > 0 {
      assert RBSpec.Sorted(s[1..]);
      FirstAtLeastLeast(s[1..], key);
      assert s == [s[0]] + s[1..];
      forall x | x in s[1..]
        ensures s[0] < x
      {
        var i :| 1 <= i < |s| && s[i] == x;
      }
    }
  }

  /** In a sorted sequence, FirstAbove is the least element greater than key,
      and `end()` exactly when no element is greater than key. */
  lemma {:induction false} FirstAboveLeast(s: seq<int>, key: int)
    requires RBSpec.Sorted(s)
    ensures FirstAbove(s, key).At? ==>
      FirstAbove(s, key).key in s && FirstAbove(s, key).key > key
      && forall x :: x in s && x > key ==> FirstAbove(s, key).key <= x
    ensures FirstAbove(s, key).End? <==> forall x :: x in s ==> x <= key
  {
    if |s| > 0 {
      assert RBSpec.Sorted(s[1..]);
      FirstAboveLeast(s[1..], key);
      assert s == [s[0]] + s[1..];
      forall x | x in s[1..]
        ensures s[0] < x
      {
        var i :| 1 <= i < |s| && s[i] == x;
      }
    }
  }

  /** An answer with the least-element property is FirstAtLeast. */
  lemma {:induction false} IsFirstAtLeast(s: seq<int>, key: int, res: Iter)
    requires RBSpec.Sorted(s)
    requires res.At? ==> res.key in s && res.key >= key
    requires forall x :: x in s && x >= key ==> res.At? && res.key <= x
    ensures res == FirstAtLeast(s, key)
  {
    if |s| > 0 {
      assert s[0] in s;
      assert forall x :: x in s[1..] ==> x in s;
      if !(s[0] < key) {
        SortedHeadLeast(s);
      } else {
        assert RBSpec.Sorted(s[1..]);
        assert res.At? ==> res.key in s[1..] by {
          if res.At? {
            var i :| 0 <= i < |s| && s[i] == res.key;
            assert s[i] == s[1..][i - 1];
          }
        }
        IsFirstAtLeast(s[1..], key, res);
      }
    }
  }

  /** An answer with the least-greater-element property is FirstAbove. */
  lemma {:induction false} IsFirstAbove(s: seq<int>, key: int, res: Iter)
    requires RBSpec.Sorted(s)
    requires res.At? ==> res.key in s && res.key > key
    requires forall x :: x in s && x > key ==> res.At? && res.key <= x
    ensures res == FirstAbove(s, key)
  {
    if |s| > 0 {
      assert s[0] in s;
      assert forall x :: x in s[1..] ==> x in s;
      if key < s[0] {
        SortedHeadLeast(s);
      } else {
        assert RBSpec.Sorted(s[1..]);
        assert res.At? ==> res.key in s[1..] by {
          if res.At? {
            var i :| 0 <= i < |s| && s[i] == res.key;
            assert s[i] == s[1..][i - 1];
          }
        }
        IsFirstAbove(s[1..], key, res);
      }
    }
  }

  /** With key absent, lower and upper bound coincide. */
  lemma {:induction false} FirstAtLeastAbsent(s: seq<int>, key: int)
    requires key !in s
    ensures FirstAtLeast(s, key) == FirstAbove(s, key)
  {
    if |s| > 0 {
      assert s[0] != key;
      assert s == [s[0]] + s[1..];
      FirstAtLeastAbsent(s[1..], key);
    }
  }

  /** Whether x lies past key: at or above it for `lower_bound` (strict is
      false), strictly above it for `upper_bound`. */
  predicate Beyond(x: int, key: int, strict: bool)
  {
    if strict then key < x else !(x < key)
  }

  /** The loop state of a descent at node n with remembered answer res:
      every key of t past key is either still below n or not less than res,
      and res (if any) is a key of t past key that exceeds every key below n. */
  ghost predicate Descent<V>(t: Bst<V>, n: Bst<V>, key: int, strict: bool, res: Iter)
  {
    n.Node? && IsBst(n)
    && (forall x :: x in InOrder(n) ==> x in InOrder(t))
    && (res.At? ==> res.key in InOrder(t) && Beyond(res.key, key, strict))
    && (res.At? ==> forall y :: y in InOrder(n) ==> y < res.key)
    && (forall x :: x in InOrder(t) && Beyond(x, key, strict) ==>
          x in InOrder(n) || (res.At? && res.key <= x))
  }

  /** The answer of a finished descent: the least key of t past key. */
  ghost predicate Answer<V>(t: Bst<V>, key: int, strict: bool, res: Iter)
  {
    (res.At? ==> res.key in InOrder(t) && Beyond(res.key, key, strict))
    && (forall x :: x in InOrder(t) && Beyond(x, key, strict) ==> res.At? && res.key <= x)
  }

  lemma DescentStart<V>(t: Bst<V>, key: int, strict: bool)
    requires IsBst(t) && t.Node?
    ensures Descent(t, t, key, strict, End)
  {
  }

  /** A node past key becomes the answer and the descent goes left. */
  lemma DescentLeft<V>(t: Bst<V>, n: Bst<V>, key: int, strict: bool, res: Iter)
    requires Descent(t, n, key, strict, res) && Beyond(n.key, key, strict) && n.left.Node?
    ensures Descent(t, n.left, key, strict, At(n.key))
  {
    BstNode(n);
    assert InOrder(n) == InOrder(n.left) + [n.key] + InOrder(n.right);
    assert n.key in InOrder(n);
  }

  /** A node not past key is skipped and the descent goes right. */
  lemma DescentRight<V>(t: Bst<V>, n: Bst<V>, key: int, strict: bool, res: Iter)
    requires Descent(t, n, key, strict, res) && !Beyond(n.key, key, strict) && n.right.Node?
    ensures Descent(t, n.right, key, strict, res)
  {
    BstNode(n);
    assert InOrder(n) == InOrder(n.left) + [n.key] + InOrder(n.right);
    forall y | y in InOrder(n.right)
      ensures y in InOrder(n)
    {
    }
  }

  /** A node past key without a left child is the answer. */
  lemma DescentEndLeft<V>(t: Bst<V>, n: Bst<V>, key: int, strict: bool, res: Iter)
    requires Descent(t, n, key, strict, res) && Beyond(n.key, key, strict) && n.left.Leaf?
    ensures Answer(t, key, strict, At(n.key))
  {
    BstNode(n);
    assert InOrder(n) == [n.key] + InOrder(n.right);
    assert n.key in InOrder(n);
  }

  /** Below a node not past key without a right child there is nothing past
      key, so the remembered node is the answer. */
  lemma DescentEndRight<V>(t: Bst<V>, n: Bst<V>, key: int, strict: bool, res: Iter)
    requires Descent(t, n, key, strict, res) && !Beyond(n.key, key, strict) && n.right.Leaf?
    ensures Answer(t, key, strict, res)
  {
    BstNode(n);
    assert InOrder(n) == InOrder(n.left) + [n.key];
    assert forall x :: x in InOrder(n) ==> !Beyond(x, key, strict);
  }

  /** For `lower_bound`, a node equal to key is the answer. */
  lemma DescentEndEqual<V>(t: Bst<V>, n: Bst<V>, key: int, res: Iter)
    requires Descent(t, n, key, false, res) && n.key == key
    ensures Answer(t, key, false, At(n.key))
  {
    assert n.key in InOrder(n);
  }

  /** The `lower_bound` descent from the root of a non-empty tree: an equal
      key ends it; a greater key is remembered before going left; a smaller
      key sends it right; a missing child ends it. */
  method LowerBound<V>(t: Bst<V>, key: int) returns (it: Iter)
    requires IsBst(t) && t.Node?
    ensures it == FirstAtLeast(InOrder(t), key)
  {
    var res := End;
    var n := t;
    DescentStart(t, key, false);
    while true
      invariant Descent(t, n, key, false, res)
      decreases n
    {
      if n.key == key {
        DescentEndEqual(t, n, key, res);
        res := At(n.key);
        break;
      } else if !(n.key < key) {
        ghost var prev := res;
        res := At(n.key);
        if n.left.Leaf? {
          DescentEndLeft(t, n, key, false, prev);
          break;
        }
        DescentLeft(t, n, key, false, prev);
        n := n.left;
      } else {
        if n.right.Leaf? {
          DescentEndRight(t, n, key, false, res);
          break;
        }
        DescentRight(t, n, key, false, res);
        n := n.right;
      }
    }
    IsFirstAtLeast(InOrder(t), key, res);
    it := res;
  }

  /** The `upper_bound` descent: an equal key sends it right; a greater key
      is remembered before going left; a smaller key sends it right; a
      missing child ends it. */
  method UpperBound<V>(t: Bst<V>, key: int) returns (it: Iter)
    requires IsBst(t) && t.Node?
    ensures it == FirstAbove(InOrder(t), key)
  {
    var res := End;
    var n := t;
    DescentStart(t, key, true);
    while true
      invariant Descent(t, n, key, true, res)
      decreases n
    {
      if n.key == key {
        if n.right.Leaf? {
          DescentEndRight(t, n, key, true, res);
          break;
        }
        DescentRight(t, n, key, true, res);
        n := n.right;
      } else if !(n.key < key) {
        ghost var prev := res;
        res := At(n.key);
        if n.left.Leaf? {
          DescentEndLeft(t, n, key, true, prev);
          break;
        }
        DescentLeft(t, n, key, true, prev);
        n := n.left;
      } else {
        if n.right.Leaf? {
          DescentEndRight(t, n, key, true, res);
          break;
        }
        DescentRight(t, n, key, true, res);
        n := n.right;
      }
    }
    IsFirstAbove(InOrder(t), key, res);
    it := res;
  }
}
