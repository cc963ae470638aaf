/** Abstract red-black trees: the ghost image of the node arena kept by RBTree.
    A node carries its colour, its key and the arena index ("id") of the
    RBNode it stands for. Zipper contexts (Ctx) locate a node inside a tree,
    which is how the bottom-up insertion fix-up is specified. */
module RBSpec {

  /** The source stores the colour in an int8_t: 1 is red, 0 is black, and no
      other value is ever written. */
  datatype Color = Black | Red

  datatype Tree = Leaf | Node(color: Color, left: Tree, key: int, id: nat, right: Tree)

  /** In-order key sequence (the order a tree iterator visits the nodes). */
  function Keys(t: Tree): seq<int>
  {
    match t
    case Leaf => []
    case Node(_, l, k, _, r) => Keys(l) + [k] + Keys(r)
  }

  function Ids(t: Tree): set<nat>
  {
    match t
    case Leaf => {}
    case Node(_, l, _, id, r) => Ids(l) + {id} + Ids(r)
  }

  /** No arena index occurs twice in the tree. */
  ghost predicate Distinct(t: Tree)
  {
    match t
    case Leaf => true
    case Node(_, l, _, id, r) =>
      Distinct(l) && Distinct(r) && id !in Ids(l) && id !in Ids(r) && Ids(l) !! Ids(r)
  }

  /** Strictly increasing: binary-search-tree order when applied to Keys. */
  ghost predicate Sorted(s: seq<int>)
  {
    forall i, j :: 0 <= i < j < |s| ==> s[i] < s[j]
  }

  predicate IsRed(t: Tree)
  {
    t.Node? && t.color == Red
  }

  /** No red node has a red child. */
  ghost predicate RedOk(t: Tree)
  {
    match t
    case Leaf => true
    case Node(c, l, _, _, r) => RedOk(l) && RedOk(r) && (c == Red ==> !IsRed(l) && !IsRed(r))
  }

  /** Number of black nodes on the leftmost path to a null link. */
  function BlackHeight(t: Tree): nat
  {
    match t
    case Leaf => 0
    case Node(c, l, _, _, _) => BlackHeight(l) + (if c == Black then 1 else 0)
  }

  /** Every path from a node down to a null link has the same number of black nodes. */
  ghost predicate Balanced(t: Tree)
  {
    match t
    case Leaf => true
    case Node(_, l, _, _, r) => Balanced(l) && Balanced(r) && BlackHeight(l) == BlackHeight(r)
  }

  ghost predicate IsRedBlack(t: Tree)
  {
    RedOk(t) && Balanced(t) && !IsRed(t)
  }

  /** A tree with one hole: the path from the root down to a position. */
  datatype Ctx =
    | Top
    | InLeft(up: Ctx, color: Color, key: int, id: nat, right: Tree)
    | InRight(up: Ctx, color: Color, left: Tree, key: int, id: nat)

  function Plug(c: Ctx, t: Tree): Tree
  {
    match c
    case Top => t
    case InLeft(up, col, k, id, r) => Plug(up, Node(col, t, k, id, r))
    case InRight(up, col, l, k, id) => Plug(up, Node(col, l, k, id, t))
  }

  function CtxIds(c: Ctx): set<nat>
  {
    match c
    case Top => {}
    case InLeft(up, _, _, id, r) => CtxIds(up) + {id} + Ids(r)
    case InRight(up, _, l, _, id) => CtxIds(up) + {id} + Ids(l)
  }

  /** Plugging a tree of black height h into c gives a balanced tree. */
  ghost predicate CtxBalanced(c: Ctx, h: nat)
  {
    match c
    case Top => true
    case InLeft(up, col, _, _, r) =>
      Balanced(r) && BlackHeight(r) == h && CtxBalanced(up, h + if col == Black then 1 else 0)
    case InRight(up, col, l, _, _) =>
      Balanced(l) && BlackHeight(l) == h && CtxBalanced(up, h + if col == Black then 1 else 0)
  }

  /** The context has no red-red edge, given whether the plugged tree has a red root. */
  ghost predicate CtxRedOk(c: Ctx, holeRed: bool)
  {
    match c
    case Top => true
    case InLeft(up, col, _, _, r) =>
      RedOk(r) && (col == Red ==> !holeRed && !IsRed(r)) && CtxRedOk(up, col == Red)
    case InRight(up, col, l, _, _) =>
      RedOk(l) && (col == Red ==> !holeRed && !IsRed(l)) && CtxRedOk(up, col == Red)
  }

  /** The root of the plugged tree is black, given whether the plugged tree has a red root. */
  ghost predicate CtxRootBlack(c: Ctx, holeRed: bool)
  {
    match c
    case Top => !holeRed
    case InLeft(up, col, _, _, _) => CtxRootBlack(up, col == Red)
    case InRight(up, col, _, _, _) => CtxRootBlack(up, col == Red)
  }

  /** What the insertion fix-up needs at the red node s sitting in context c:
      the only possible violation is a red parent above s. */
  ghost predicate FixupInvariant(c: Ctx, s: Tree)
  {
    s.Node? && s.color == Red && RedOk(s) && Balanced(s) &&
    CtxBalanced(c, BlackHeight(s)) && CtxRedOk(c, false) && CtxRootBlack(c, false)
  }

  // ---------------------------------------------------------------------
  // Plugging into a context

  lemma {:induction false} PlugBalanced(c: Ctx, t: Tree)
    ensures Balanced(Plug(c, t)) <==> Balanced(t) && CtxBalanced(c, BlackHeight(t))
    decreases c
  {
    match c
    case Top =>
    case InLeft(up, col, k, id, r) => PlugBalanced(up, Node(col, t, k, id, r));
    case InRight(up, col, l, k, id) => PlugBalanced(up, Node(col, l, k, id, t));
  }

  lemma {:induction false} PlugRedOk(c: Ctx, t: Tree)
    ensures RedOk(Plug(c, t)) <==> RedOk(t) && CtxRedOk(c, IsRed(t))
    decreases c
  {
    match c
    case Top =>
    case InLeft(up, col, k, id, r) => PlugRedOk(up, Node(col, t, k, id, r));
    case InRight(up, col, l, k, id) => PlugRedOk(up, Node(col, l, k, id, t));
  }

  lemma {:induction false} PlugRootBlack(c: Ctx, t: Tree)
    ensures !IsRed(Plug(c, t)) <==> CtxRootBlack(c, IsRed(t))
    decreases c
  {
    match c
    case Top =>
    case InLeft(up, col, k, id, r) => PlugRootBlack(up, Node(col, t, k, id, r));
    case InRight(up, col, l, k, id) => PlugRootBlack(up, Node(col, l, k, id, t));
  }

  /** A red-black tree with its hole filled by any black-rooted tree of the right
      black height stays red-black. */
  lemma PlugRedBlack(c: Ctx, t: Tree)
    ensures IsRedBlack(Plug(c, t)) <==>
      RedOk(t) && Balanced(t) && CtxBalanced(c, BlackHeight(t)) &&
      CtxRedOk(c, IsRed(t)) && CtxRootBlack(c, IsRed(t))
  {
    PlugBalanced(c, t);
    PlugRedOk(c, t);
    PlugRootBlack(c, t);
  }

  lemma {:induction false} PlugKeys(c: Ctx, t: Tree, t': Tree)
    requires Keys(t) == Keys(t')
    ensures Keys(Plug(c, t)) == Keys(Plug(c, t'))
    decreases c
  {
    match c
    case Top =>
    case InLeft(up, col, k, id, r) => PlugKeys(up, Node(col, t, k, id, r), Node(col, t', k, id, r));
    case InRight(up, col, l, k, id) => PlugKeys(up, Node(col, l, k, id, t), Node(col, l, k, id, t'));
  }

  lemma {:induction false} PlugIds(c: Ctx, t: Tree)
    ensures Ids(Plug(c, t)) == CtxIds(c) + Ids(t)
    decreases c
  {
    match c
    case Top =>
    case InLeft(up, col, k, id, r) => PlugIds(up, Node(col, t, k, id, r));
    case InRight(up, col, l, k, id) => PlugIds(up, Node(col, l, k, id, t));
  }

  lemma {:induction false} PlugDistinct(c: Ctx, t: Tree)
    requires Distinct(Plug(c, t))
    ensures Distinct(t) && Ids(t) !! CtxIds(c)
    decreases c
  {
    match c
    case Top =>
    case InLeft(up, col, k, id, r) => PlugDistinct(up, Node(col, t, k, id, r));
    case InRight(up, col, l, k, id) => PlugDistinct(up, Node(col, l, k, id, t));
  }

  /** Replacing the plugged tree by a distinct tree whose indices the context does
      not use keeps the whole tree free of repeated indices. */
  lemma {:induction false} PlugDistinctReplace(c: Ctx, t: Tree, t': Tree)
    requires Distinct(Plug(c, t)) && Distinct(t') && Ids(t') !! CtxIds(c)
    ensures Distinct(Plug(c, t'))
    decreases c
  {
    match c
    case Top =>
    case InLeft(up, col, k, id, r) =>
      PlugDistinct(up, Node(col, t, k, id, r));
      PlugDistinctReplace(up, Node(col, t, k, id, r), Node(col, t', k, id, r));
    case InRight(up, col, l, k, id) =>
      PlugDistinct(up, Node(col, l, k, id, t));
      PlugDistinctReplace(up, Node(col, l, k, id, t), Node(col, l, k, id, t'));
  }

  // ---------------------------------------------------------------------
  // Rotations

  function RotateLeftTree(t: Tree): (r: Tree)
    requires t.Node? && t.right.Node?
    ensures r.Node? && r.left.Node? && r.id == t.right.id && r.left.id == t.id
  {
    Node(t.right.color, Node(t.color, t.left, t.key, t.id, t.right.left), t.right.key, t.right.id, t.right.right)
  }

  function RotateRightTree(t: Tree): (r: Tree)
    requires t.Node? && t.left.Node?
    ensures r.Node? && r.right.Node? && r.id == t.left.id && r.right.id == t.id
  {
    Node(t.left.color, t.left.left, t.left.key, t.left.id, Node(t.color, t.left.right, t.key, t.id, t.right))
  }

  /** A rotation keeps the in-order sequence and the set of nodes of the whole tree. */
  lemma RotateLeftKeeps(c: Ctx, t: Tree)
    requires t.Node? && t.right.Node?
    requires Distinct(Plug(c, t))
    ensures Keys(Plug(c, RotateLeftTree(t))) == Keys(Plug(c, t))
    ensures Ids(Plug(c, RotateLeftTree(t))) == Ids(Plug(c, t))
    ensures Distinct(Plug(c, RotateLeftTree(t)))
  {
    var r := RotateLeftTree(t);
    assert Keys(r) == Keys(t) by {
      calc {
        Keys(r);
        Keys(t.left) + [t.key] + Keys(t.right.left) + [t.right.key] + Keys(t.right.right);
        Keys(t);
      }
    }
    PlugKeys(c, t, r);
    PlugDistinct(c, t);
    assert Ids(r) == Ids(t);
    PlugDistinctReplace(c, t, r);
    PlugIds(c, t);
    PlugIds(c, r);
  }

  lemma RotateRightKeeps(c: Ctx, t: Tree)
    requires t.Node? && t.left.Node?
    requires Distinct(Plug(c, t))
    ensures Keys(Plug(c, RotateRightTree(t))) == Keys(Plug(c, t))
    ensures Ids(Plug(c, RotateRightTree(t))) == Ids(Plug(c, t))
    ensures Distinct(Plug(c, RotateRightTree(t)))
  {
    var r := RotateRightTree(t);
    assert Keys(r) == Keys(t) by {
      calc {
        Keys(r);
        Keys(t.left.left) + [t.left.key] + Keys(t.left.right) + [t.key] + Keys(t.right);
        Keys(t);
      }
    }
    PlugKeys(c, t, r);
    PlugDistinct(c, t);
    assert Ids(r) == Ids(t);
    PlugDistinctReplace(c, t, r);
    PlugIds(c, t);
    PlugIds(c, r);
  }

  // ---------------------------------------------------------------------
  // The insertion fix-up, one step at a time

  /** t with its top node repainted (a leaf stays a leaf). */
  function Paint(t: Tree, col: Color): (r: Tree)
    ensures Ids(r) == Ids(t) && Keys(r) == Keys(t)
    ensures r.Node? <==> t.Node?
  {
    match t
    case Leaf => Leaf
    case Node(_, l, k, id, rt) => Node(col, l, k, id, rt)
  }

  /** The node at the top of a non-empty context, with t in its hole. */
  function Fill(c: Ctx, t: Tree): (r: Tree)
    requires !c.Top?
    ensures r.Node? && r.id == c.id && r.key == c.key && r.color == c.color
  {
    match c
    case InLeft(_, col, k, id, rt) => Node(col, t, k, id, rt)
    case InRight(_, col, l, k, id) => Node(col, l, k, id, t)
  }

  /** The other child of the node at the top of c. */
  function Sibling(c: Ctx): Tree
    requires !c.Top?
  {
    if c.InLeft? then c.right else c.left
  }

  /** The context of Sibling(c) once the hole of c holds t. */
  function SiblingCtx(c: Ctx, t: Tree): (r: Ctx)
    requires !c.Top?
    ensures !r.Top? && r.up == c.up && r.id == c.id && r.key == c.key && r.color == c.color
  {
    match c
    case InLeft(up, col, k, id, rt) => InRight(up, col, t, k, id)
    case InRight(up, col, l, k, id) => InLeft(up, col, k, id, t)
  }

  /** Filling a context is one step of plugging. */
  lemma FillPlug(c: Ctx, t: Tree)
    requires !c.Top?
    ensures Plug(c.up, Fill(c, t)) == Plug(c, t)
  {
  }

  /** The sibling's context fills to the same node, and plugs to the same tree. */
  lemma SiblingPlug(c: Ctx, t: Tree)
    requires !c.Top?
    ensures Fill(SiblingCtx(c, t), Sibling(c)) == Fill(c, t)
    ensures Plug(SiblingCtx(c, t), Sibling(c)) == Plug(c, t)
  {
    match c
    case InLeft(up, col, k, id, r) =>
      assert Plug(SiblingCtx(c, t), r) == Plug(up, Node(col, t, k, id, r));
    case InRight(up, col, l, k, id) =>
      assert Plug(SiblingCtx(c, t), l) == Plug(up, Node(col, l, k, id, t));
  }

  /** Case 1 of the fix-up: a red node at the root is made black and the tree is
      red-black. */
  lemma FixupAtRoot(s: Tree)
    requires FixupInvariant(Top, s)
    ensures IsRedBlack(Paint(s, Black))
  {
    assert RedOk(s.left) && RedOk(s.right);
  }

  /** A red node under a black parent leaves nothing to repair. */
  lemma FixupBlackParent(c: Ctx, s: Tree)
    requires FixupInvariant(c, s) && !c.Top? && c.color == Black
    ensures IsRedBlack(Plug(c, s))
  {
    PlugRedBlack(c, s);
    assert CtxRedOk(c, true) == CtxRedOk(c, false);
    assert CtxRootBlack(c, true) == CtxRootBlack(c, false);
  }

  /** Under a red parent the parent is not the root and the grandparent is black. */
  lemma FixupRedParent(c: Ctx, s: Tree)
    requires FixupInvariant(c, s) && !c.Top? && c.color == Red
    ensures !c.up.Top? && c.up.color == Black
  {
    assert CtxRedOk(c.up, true) && CtxRootBlack(c.up, true);
  }

  /** Case 3: parent and uncle red. Blackening both and reddening the grandparent
      moves the only possible violation two levels up. */
  lemma FixupRecolor(c: Ctx, s: Tree)
    requires FixupInvariant(c, s) && !c.Top? && c.color == Red && !c.up.Top? && IsRed(Sibling(c.up))
    ensures var p := Paint(Fill(c, s), Black);
      FixupInvariant(c.up.up, Paint(Fill(SiblingCtx(c.up, p), Paint(Sibling(c.up), Black)), Red))
  {
    FixupRedParent(c, s);
    var p := Paint(Fill(c, s), Black);
    var u := Paint(Sibling(c.up), Black);
    var g := Paint(Fill(SiblingCtx(c.up, p), u), Red);
    var h := BlackHeight(s);
    assert CtxBalanced(c, h) && CtxRedOk(c, false);
    assert Balanced(Sibling(c)) && BlackHeight(Sibling(c)) == h && RedOk(Sibling(c)) && !IsRed(Sibling(c));
    assert CtxBalanced(c.up, h) && CtxRedOk(c.up, true) && CtxRootBlack(c.up, true);
    assert Balanced(Sibling(c.up)) && BlackHeight(Sibling(c.up)) == h && RedOk(Sibling(c.up));
    assert CtxBalanced(c.up.up, h + 1) && CtxRedOk(c.up.up, false) && CtxRootBlack(c.up.up, false);
    assert RedOk(p) && Balanced(p) && BlackHeight(p) == h + 1;
    assert RedOk(u) && Balanced(u) && BlackHeight(u) == h + 1;
    if c.up.InLeft? {
      assert g == Node(Red, p, c.up.key, c.up.id, u);
    } else {
      assert g == Node(Red, u, c.up.key, c.up.id, p);
    }
    assert BlackHeight(g) == h + 1;
    assert Balanced(g);
    assert RedOk(g);
  }

  /** Case 4, zig-zag to the left: s is the right child of a red parent; rotating
      the parent left puts the parent below s as a red left child, and the fix-up
      invariant holds there. */
  lemma FixupZigZagLeft(c: Ctx, s: Tree)
    requires FixupInvariant(c, s) && c.InRight? && c.color == Red
    ensures var r := RotateLeftTree(Fill(c, s));
      FixupInvariant(InLeft(c.up, r.color, r.key, r.id, r.right), r.left) && r.color == Red
  {
    assert BlackHeight(c.left) == BlackHeight(s);
    assert CtxRedOk(c.up, true);
  }

  /** Case 4, zig-zag to the right (the mirror image). */
  lemma FixupZigZagRight(c: Ctx, s: Tree)
    requires FixupInvariant(c, s) && c.InLeft? && c.color == Red
    ensures var r := RotateRightTree(Fill(c, s));
      FixupInvariant(InRight(c.up, r.color, r.left, r.key, r.id), r.right) && r.color == Red
  {
    assert BlackHeight(c.right) == BlackHeight(s);
    assert CtxRedOk(c.up, true);
  }

  /** Case 5, left-left: with a black uncle, blackening the parent, reddening the
      grandparent and rotating the grandparent right leaves a red-black tree. */
  lemma FixupRotateRight(c: Ctx, s: Tree)
    requires FixupInvariant(c, s) && c.InLeft? && c.color == Red && c.up.InLeft? && !IsRed(c.up.right)
    ensures IsRedBlack(Plug(c.up.up, RotateRightTree(Paint(Fill(c.up, Paint(Fill(c, s), Black)), Red))))
  {
    FixupRedParent(c, s);
    var InLeft(up, cp, kp, p, sib) := c;
    var InLeft(up2, cg, kg, g, u) := up;
    var h := BlackHeight(s);
    assert cp == Red && cg == Black;
    assert CtxBalanced(c, h) && CtxRedOk(c, false);
    assert Balanced(sib) && BlackHeight(sib) == h && RedOk(sib) && !IsRed(sib);
    assert CtxBalanced(up, h + 0) && CtxRedOk(up, true) && CtxRootBlack(up, true);
    assert Balanced(u) && BlackHeight(u) == h && RedOk(u);
    assert CtxBalanced(up2, h + 1) && CtxRedOk(up2, false) && CtxRootBlack(up2, false);
    var t := RotateRightTree(Paint(Fill(c.up, Paint(Fill(c, s), Black)), Red));
    var n := Node(Red, sib, kg, g, u);
    assert t == Node(Black, s, kp, p, n);
    assert RedOk(s) && Balanced(s) && !IsRed(u);
    assert RedOk(n) && Balanced(n) && BlackHeight(n) == h;
    assert RedOk(t) && Balanced(t) && BlackHeight(t) == h + 1;
    PlugRedBlack(up2, t);
  }

  /** Case 5, right-right (the mirror image). */
  lemma FixupRotateLeft(c: Ctx, s: Tree)
    requires FixupInvariant(c, s) && c.InRight? && c.color == Red && c.up.InRight? && !IsRed(c.up.left)
    ensures IsRedBlack(Plug(c.up.up, RotateLeftTree(Paint(Fill(c.up, Paint(Fill(c, s), Black)), Red))))
  {
    FixupRedParent(c, s);
    var InRight(up, cp, sib, kp, p) := c;
    var InRight(up2, cg, u, kg, g) := up;
    var h := BlackHeight(s);
    assert cp == Red && cg == Black;
    assert CtxBalanced(c, h) && CtxRedOk(c, false);
    assert Balanced(sib) && BlackHeight(sib) == h && RedOk(sib) && !IsRed(sib);
    assert CtxBalanced(up, h + 0) && CtxRedOk(up, true) && CtxRootBlack(up, true);
    assert Balanced(u) && BlackHeight(u) == h && RedOk(u);
    assert CtxBalanced(up2, h + 1) && CtxRedOk(up2, false) && CtxRootBlack(up2, false);
    var t := RotateLeftTree(Paint(Fill(c.up, Paint(Fill(c, s), Black)), Red));
    var n := Node(Red, u, kg, g, sib);
    assert t == Node(Black, n, kp, p, s);
    assert RedOk(s) && Balanced(s) && !IsRed(u);
    assert RedOk(n) && Balanced(n) && BlackHeight(n) == h;
    assert RedOk(t) && Balanced(t) && BlackHeight(t) == h + 1;
    PlugRedBlack(up2, t);
  }

  // ---------------------------------------------------------------------
  // Ordered insertion of a leaf

  /** The tree binaryInsert builds: the new red leaf x takes the null slot reached
      by descending with `<`; if a node with an equal key is met first, the new
      leaf takes over that node's slot (and the node's subtree falls out). */
  function BstInsert(t: Tree, k: int, x: nat): Tree
  {
    match t
    case Leaf => Node(Red, Leaf, k, x, Leaf)
    case Node(c, l, key, id, r) =>
      if k == key then Node(Red, Leaf, k, x, Leaf)
      else if k < key then Node(c, BstInsert(l, k, x), key, id, r)
      else Node(c, l, key, id, BstInsert(r, k, x))
  }

  /** The subtree rooted at the node binaryInsert stops at for key k (Leaf if none). */
  function SubtreeAt(t: Tree, k: int): Tree
  {
    match t
    case Leaf => Leaf
    case Node(_, l, key, _, r) =>
      if k == key then t else if k < key then SubtreeAt(l, k) else SubtreeAt(r, k)
  }

  lemma SortedSplit(a: seq<int>, k: int, b: seq<int>)
    ensures Sorted(a + [k] + b) <==>
      Sorted(a) && Sorted(b) && (forall v :: v in a ==> v < k) && (forall v :: v in b ==> k < v)
  {
    var s := a + [k] + b;
    if Sorted(s) {
      assert Sorted(a) by {
        forall i, j | 0 <= i < j < |a| ensures a[i] < a[j] { assert s[i] == a[i] && s[j] == a[j]; }
      }
      assert Sorted(b) by {
        forall i, j | 0 <= i < j < |b| ensures b[i] < b[j] {
          assert s[|a| + 1 + i] == b[i] && s[|a| + 1 + j] == b[j];
        }
      }
      forall v | v in a ensures v < k {
        var i :| 0 <= i < |a| && a[i] == v;
        assert s[i] == v && s[|a|] == k;
      }
      forall v | v in b ensures k < v {
        var i :| 0 <= i < |b| && b[i] == v;
        assert s[|a| + 1 + i] == v && s[|a|] == k;
      }
    }
    if Sorted(a) && Sorted(b) && (forall v :: v in a ==> v < k) && (forall v :: v in b ==> k < v) {
      forall i, j | 0 <= i < j < |s| ensures s[i] < s[j] {
        if j < |a| {
          assert s[i] == a[i] && s[j] == a[j];
        } else if j == |a| {
          assert s[i] == a[i] && a[i] in a;
        } else if i < |a| {
          assert s[i] == a[i] && a[i] in a && s[j] == b[j - |a| - 1] && b[j - |a| - 1] in b;
        } else if i == |a| {
          assert s[j] == b[j - |a| - 1] && b[j - |a| - 1] in b;
        } else {
          assert s[i] == b[i - |a| - 1] && s[j] == b[j - |a| - 1];
        }
      }
    }
  }

  /** Inserting a fresh key into a search tree keeps it a search tree, and the
      key set grows by exactly that key. */
  lemma {:induction false} BstInsertFresh(t: Tree, k: int, x: nat)
    requires Sorted(Keys(t)) && k !in Keys(t)
    ensures Sorted(Keys(BstInsert(t, k, x)))
    ensures forall v :: v in Keys(BstInsert(t, k, x)) <==> v in Keys(t) || v == k
    ensures |Keys(BstInsert(t, k, x))| == |Keys(t)| + 1
  {
    match t
    case Leaf =>
    case Node(c, l, key, id, r) =>
      SortedSplit(Keys(l), key, Keys(r));
      if k < key {
        BstInsertFresh(l, k, x);
        SortedSplit(Keys(BstInsert(l, k, x)), key, Keys(r));
      } else {
        BstInsertFresh(r, k, x);
        SortedSplit(Keys(l), key, Keys(BstInsert(r, k, x)));
      }
  }

  /** With a key that is already present, the equal node and everything below
      it leave the tree: only the new leaf keeps key k. */
  lemma {:induction false} BstInsertDuplicate(t: Tree, k: int, x: nat)
    requires Sorted(Keys(t)) && k in Keys(t)
    ensures SubtreeAt(t, k).Node? && SubtreeAt(t, k).key == k
    ensures forall v :: v in Keys(BstInsert(t, k, x)) <==>
      v == k || (v in Keys(t) && v !in Keys(SubtreeAt(t, k)))
  {
    match t
    case Leaf =>
    case Node(c, l, key, id, r) =>
      SortedSplit(Keys(l), key, Keys(r));
      if k == key {
      } else if k < key {
        BstInsertDuplicate(l, k, x);
        SubtreeAtWithin(l, k);
      } else {
        BstInsertDuplicate(r, k, x);
        SubtreeAtWithin(r, k);
      }
  }

  lemma {:induction false} SubtreeAtWithin(t: Tree, k: int)
    ensures forall v :: v in Keys(SubtreeAt(t, k)) ==> v in Keys(t)
  {
    match t
    case Leaf =>
    case Node(_, l, key, _, r) =>
      if k < key { SubtreeAtWithin(l, k); } else if k > key { SubtreeAtWithin(r, k); }
  }

  /** binaryInsert meets no equal key when the key is absent. */
  lemma SubtreeAtAbsent(t: Tree, k: int)
    requires k !in Keys(t)
    ensures SubtreeAt(t, k) == Leaf
  {
    SubtreeAtWithin(t, k);
    SubtreeAtKey(t, k);
  }

  lemma {:induction false} SubtreeAtKey(t: Tree, k: int)
    ensures SubtreeAt(t, k).Node? ==> SubtreeAt(t, k).key == k
  {
    match t
    case Leaf =>
    case Node(_, l, key, _, r) =>
      if k < key { SubtreeAtKey(l, k); } else if k > key { SubtreeAtKey(r, k); }
  }

  /** Concrete instance: inserting 2 again into the tree 1 <- 2 -> 3 leaves only 2. */
  lemma DuplicateInsertDropsKeys()
    ensures var t := Node(Black, Node(Red, Leaf, 1, 1, Leaf), 2, 0, Node(Red, Leaf, 3, 2, Leaf));
      Keys(t) == [1, 2, 3] && Keys(BstInsert(t, 2, 3)) == [2]
  {
  }
}
