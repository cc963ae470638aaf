/** RBTree: a red-black tree of int keys whose nodes are linked by parent,
    left and right pointers. Nodes live in the arena `nodes` (see RBNodes);
    the ghost field `tree` is the abstract tree the arena represents. */
module RBTrees {
  import opened RBSpec
  import opened RBNodes

  class RBTree {
    var nodes: seq<RBNode>
    var root: int
    ghost var tree: Tree

    /** The arena stores `tree` exactly, from `root` down. */
    ghost predicate Linked()
      reads this
    {
      WellFormed(nodes) && root == Ptr(tree) && Rep(tree, NIL, nodes) && Distinct(tree)
    }

    /** A linked red-black search tree. */
    ghost predicate Valid()
      reads this
    {
      Linked() && Sorted(Keys(tree)) && IsRedBlack(tree)
    }

    constructor()
      ensures Valid() && tree == Leaf && nodes == []
    {
      nodes := [];
      root := NIL;
      tree := Leaf;
    }

    // -------------------------------------------------------------------
    // Field setters of RBNode

    method SetParent(x: int, p: int)
      requires 0 <= x < |nodes|
      modifies this
      ensures nodes == old(nodes)[x := old(nodes)[x].(parent := p)]
      ensures root == old(root) && tree == old(tree)
    {
      nodes := nodes[x := nodes[x].(parent := p)];
    }

    method SetLeft(x: int, l: int)
      requires 0 <= x < |nodes|
      modifies this
      ensures nodes == old(nodes)[x := old(nodes)[x].(left := l)]
      ensures root == old(root) && tree == old(tree)
    {
      nodes := nodes[x := nodes[x].(left := l)];
    }

    method SetRight(x: int, r: int)
      requires 0 <= x < |nodes|
      modifies this
      ensures nodes == old(nodes)[x := old(nodes)[x].(right := r)]
      ensures root == old(root) && tree == old(tree)
    {
      nodes := nodes[x := nodes[x].(right := r)];
    }

    method SetData(x: int, d: int)
      requires 0 <= x < |nodes|
      modifies this
      ensures nodes == old(nodes)[x := old(nodes)[x].(data := d)]
      ensures root == old(root) && tree == old(tree)
    {
      nodes := nodes[x := nodes[x].(data := d)];
    }

    /** setColor on a node of the tree: the node at the top of t is repainted. */
    method SetColor(x: int, col: Color, ghost c: Ctx, ghost t: Tree)
      requires Linked() && tree == Plug(c, t) && t.Node? && t.id == x
      modifies this
      ensures Linked() && tree == Plug(c, Paint(t, col)) && root == old(root)
      ensures Keys(tree) == old(Keys(tree)) && |nodes| == old(|nodes|)
    {
      PlugRep(c, t, nodes, root);
      ghost var h := nodes;
      WellFormedUpdate(nodes, x, nodes[x].(color := col));
      nodes := nodes[x := nodes[x].(color := col)];
      RecolorRep(c, t, col, h, nodes, root);
      PlugKeys(c, t, Paint(t, col));
      PlugDistinct(c, t);
      PlugDistinctReplace(c, t, Paint(t, col));
      tree := Plug(c, Paint(t, col));
    }

    // -------------------------------------------------------------------
    // Tree operations

    /** createNode: a fresh red node with no links, appended to the arena. */
    method CreateNode(data: int) returns (x: int)
      requires Linked()
      modifies this
      ensures Linked() && tree == old(tree) && root == old(root)
      ensures nodes == old(nodes) + [NewNode(data)] && x == |old(nodes)|
      ensures x !in Ids(tree)
    {
      RepIds(tree, NIL, nodes);
      RepExtend(tree, NIL, nodes, NewNode(data));
      WellFormedExtend(nodes, NewNode(data));
      nodes := nodes + [NewNode(data)];
      x := |nodes| - 1;
    }

    /** binaryInsert, as written: descend from the root with `<` and store x in
        the null slot reached. When a node with an equal key is met, its data is
        overwritten and the descent stops, but x is still stored in the slot that
        holds that node, and x's parent link is set to the node it displaced. */
    method BinaryInsert(x: int) returns (ghost c: Ctx)
      requires Linked() && 0 <= x < |nodes| && x !in Ids(tree)
      requires nodes[x] == NewNode(nodes[x].data)
      modifies this
      ensures |nodes| == |old(nodes)| && nodes[x].data == old(nodes[x].data)
      ensures tree == BstInsert(old(tree), nodes[x].data, x)
      ensures tree == Plug(c, Node(Red, Leaf, nodes[x].data, x, Leaf))
      ensures SubtreeAt(old(tree), nodes[x].data).Leaf? ==> Linked() && old(tree) == Plug(c, Leaf)
      ensures SubtreeAt(old(tree), nodes[x].data).Node? ==>
        nodes[x].parent == SubtreeAt(old(tree), nodes[x].data).id &&
        WellFormed(nodes) && root == Ptr(tree) && Distinct(tree) &&
        Rep(tree, NIL, nodes[x := nodes[x].(parent := CtxPtr(c))])
    {
      ghost var t0, h0, root0 := tree, nodes, root;
      var owner, ownerLeft, parent := NIL, false, NIL;
      var cur := root;
      c := Top;
      ghost var sub := tree;
      while cur != NIL
        invariant nodes == h0 && root == root0 && tree == t0
        invariant Plug(c, sub) == t0 && cur == Ptr(sub)
        invariant owner == CtxPtr(c) && parent == CtxPtr(c) && (ownerLeft <==> c.InLeft?)
        invariant CtxRep(c, cur, nodes, root) && Rep(sub, CtxPtr(c), nodes)
        invariant BstInsert(t0, nodes[x].data, x) == Plug(c, BstInsert(sub, nodes[x].data, x))
        invariant SubtreeAt(t0, nodes[x].data) == SubtreeAt(sub, nodes[x].data)
        decreases sub
      {
        parent := cur;
        if nodes[x].data == nodes[parent].data {
          SetData(parent, nodes[x].data);
          assert nodes == h0;
          break;
        } else if nodes[x].data < nodes[parent].data {
          owner, ownerLeft := parent, true;
          c, sub := InLeft(c, sub.color, sub.key, sub.id, sub.right), sub.left;
          cur := nodes[parent].left;
        } else {
          owner, ownerLeft := parent, false;
          c, sub := InRight(c, sub.color, sub.left, sub.key, sub.id), sub.right;
          cur := nodes[parent].right;
        }
      }
      ghost var k := nodes[x].data;
      BinaryInsertLink(t0, c, sub, h0, root0, x, k, owner, ownerLeft, parent);
      // *current = x
      if owner == NIL {
        root := x;
      } else if ownerLeft {
        SetLeft(owner, x);
      } else {
        SetRight(owner, x);
      }
      SetParent(x, parent);
      assert (nodes, root) == LinkedAt(h0, root0, owner, ownerLeft, x, parent);
      tree := Plug(c, Node(Red, Leaf, k, x, Leaf));
    }

    /** binaryInsert as its REPLACE comment intends: when a node with an equal key
        is met, its data is overwritten and x is not linked at all (found is
        true); otherwise x is stored in the null slot reached, as before. */
    method BinaryInsertOrReplace(x: int) returns (found: bool, ghost c: Ctx)
      requires Linked() && 0 <= x < |nodes| && x !in Ids(tree)
      requires nodes[x] == NewNode(nodes[x].data)
      modifies this
      ensures Linked() && |nodes| == |old(nodes)| && nodes[x].data == old(nodes[x].data)
      ensures found <==> SubtreeAt(old(tree), nodes[x].data).Node?
      ensures found ==> nodes == old(nodes) && tree == old(tree) && root == old(root)
      ensures !found ==>
                tree == BstInsert(old(tree), nodes[x].data, x) &&
                tree == Plug(c, Node(Red, Leaf, nodes[x].data, x, Leaf)) && old(tree) == Plug(c, Leaf)
    {
      ghost var t0, h0, root0 := tree, nodes, root;
      var owner, ownerLeft, parent := NIL, false, NIL;
      var cur := root;
      c := Top;
      ghost var sub := tree;
      found := false;
      while cur != NIL
        invariant nodes == h0 && root == root0 && tree == t0 && !found
        invariant Plug(c, sub) == t0 && cur == Ptr(sub)
        invariant owner == CtxPtr(c) && parent == CtxPtr(c) && (ownerLeft <==> c.InLeft?)
        invariant CtxRep(c, cur, nodes, root) && Rep(sub, CtxPtr(c), nodes)
        invariant BstInsert(t0, nodes[x].data, x) == Plug(c, BstInsert(sub, nodes[x].data, x))
        invariant SubtreeAt(t0, nodes[x].data) == SubtreeAt(sub, nodes[x].data)
        decreases sub
      {
        parent := cur;
        if nodes[x].data == nodes[parent].data {
          SetData(parent, nodes[x].data);
          assert nodes == h0;
          return true, c;
        } else if nodes[x].data < nodes[parent].data {
          owner, ownerLeft := parent, true;
          c, sub := InLeft(c, sub.color, sub.key, sub.id, sub.right), sub.left;
          cur := nodes[parent].left;
        } else {
          owner, ownerLeft := parent, false;
          c, sub := InRight(c, sub.color, sub.left, sub.key, sub.id), sub.right;
          cur := nodes[parent].right;
        }
      }
      ghost var k := nodes[x].data;
      BinaryInsertLink(t0, c, sub, h0, root0, x, k, owner, ownerLeft, parent);
      if owner == NIL {
        root := x;
      } else if ownerLeft {
        SetLeft(owner, x);
      } else {
        SetRight(owner, x);
      }
      SetParent(x, parent);
      assert (nodes, root) == LinkedAt(h0, root0, owner, ownerLeft, x, parent);
      tree := Plug(c, Node(Red, Leaf, k, x, Leaf));
    }

    /** rotateLeft at x: x's right child y takes x's place and x becomes y's
        left child. */
    method RotateLeft(x: int, ghost c: Ctx, ghost s: Tree)
      requires Linked() && tree == Plug(c, s) && s.Node? && s.id == x && s.right.Node?
      modifies this
      ensures Linked() && tree == Plug(c, RotateLeftTree(s))
      ensures Keys(tree) == old(Keys(tree)) && |nodes| == old(|nodes|)
    {
      ghost var h, root0 := nodes, root;
      RotateLeftRep(c, s, nodes, root);
      RotateLeftView(c, s, nodes, root);
      var y := nodes[x].right;
      SetRight(x, nodes[y].left);
      if nodes[y].left != NIL {
        SetParent(nodes[y].left, x);
      }
      SetParent(y, nodes[x].parent);
      if nodes[x].parent == NIL {
        root := y;
      } else if x == nodes[nodes[x].parent].left {
        SetLeft(nodes[x].parent, y);
      } else {
        SetRight(nodes[x].parent, y);
      }
      SetLeft(y, x);
      SetParent(x, y);
      assert (nodes, root) == LeftRotated(h, x, root0);
      RotateLeftKeeps(c, s);
      tree := Plug(c, RotateLeftTree(s));
    }

    /** rotateRight at x: the mirror image of rotateLeft. */
    method RotateRight(x: int, ghost c: Ctx, ghost s: Tree)
      requires Linked() && tree == Plug(c, s) && s.Node? && s.id == x && s.left.Node?
      modifies this
      ensures Linked() && tree == Plug(c, RotateRightTree(s))
      ensures Keys(tree) == old(Keys(tree)) && |nodes| == old(|nodes|)
    {
      ghost var h, root0 := nodes, root;
      RotateRightRep(c, s, nodes, root);
      RotateRightView(c, s, nodes, root);
      var y := nodes[x].left;
      SetLeft(x, nodes[y].right);
      if nodes[y].right != NIL {
        SetParent(nodes[y].right, x);
      }
      SetParent(y, nodes[x].parent);
      if nodes[x].parent == NIL {
        root := y;
      } else if x == nodes[nodes[x].parent].right {
        SetRight(nodes[x].parent, y);
      } else {
        SetLeft(nodes[x].parent, y);
      }
      SetRight(y, x);
      SetParent(x, y);
      assert (nodes, root) == RightRotated(h, x, root0);
      RotateRightKeeps(c, s);
      tree := Plug(c, RotateRightTree(s));
    }

    /** fixTree: restores the red-black properties above the red node x, whose
        only possible violation is a red parent. setColor changes no link, so
        the parent, grandparent and uncle (and the left/right tests) are read
        before the colours are set; that reads the same nodes. */
    method FixTree(x: int, ghost c: Ctx, ghost s: Tree)
      requires Linked() && tree == Plug(c, s) && s.Node? && s.id == x && FixupInvariant(c, s)
      modifies this
      ensures Linked() && IsRedBlack(tree)
      ensures Keys(tree) == old(Keys(tree)) && |nodes| == old(|nodes|)
      decreases c
    {
      FixView(c, s, nodes, root);
      if IsRoot(nodes, x) {
        // case 1
        SetColor(x, Black, c, s);
        FixupAtRoot(s);
      } else if IsRedNode(nodes, nodes[x].parent) {
        FixupRedParent(c, s);
        var u := GetUncle(nodes, x);
        if u != NIL && IsRedNode(nodes, u) {
          // case 3: red uncle
          ghost var p0 := Fill(c, s);
          FillPlug(c, s);
          ghost var uncle := Sibling(c.up);
          var p := nodes[x].parent;
          var g := GetGrandParent(nodes, x);
          SetColor(p, Black, c.up, p0);
          ghost var p1 := Paint(p0, Black);
          SiblingPlug(c.up, p1);
          SetColor(u, Black, SiblingCtx(c.up, p1), uncle);
          ghost var g0 := Fill(SiblingCtx(c.up, p1), Paint(uncle, Black));
          FillPlug(SiblingCtx(c.up, p1), Paint(uncle, Black));
          SetColor(g, Red, c.up.up, g0);
          FixupRecolor(c, s);
          FixTree(g, c.up.up, Paint(g0, Red));
        } else {
          FixBlackUncle(x, c, s);
        }
      } else {
        // case 2: black parent
        FixupBlackParent(c, s);
      }
    }

    /** Cases 4 and 5 of fixTree: a red parent and a black (or null) uncle. A
        zig-zag is first turned into a straight line by rotating at the parent;
        then the parent is made black, the grandparent red, and the grandparent
        is rotated so that the parent takes its place. */
    method FixBlackUncle(x: int, ghost c: Ctx, ghost s: Tree)
      requires Linked() && tree == Plug(c, s) && s.Node? && s.id == x && FixupInvariant(c, s)
      requires !c.Top? && c.color == Red && !c.up.Top? && !IsRed(Sibling(c.up))
      modifies this
      ensures Linked() && IsRedBlack(tree)
      ensures Keys(tree) == old(Keys(tree)) && |nodes| == old(|nodes|)
    {
      FixView(c, s, nodes, root);
      FixupRedParent(c, s);
      ghost var p0 := Fill(c, s);
      FillPlug(c, s);
      // case 4: black uncle; a zig-zag is first turned into a straight line
      var y := x;
      ghost var c1, s1 := c, s;
      if IsRight(nodes, x) && IsLeft(nodes, nodes[x].parent) {
        RotateLeft(nodes[x].parent, c.up, p0);
        FixupZigZagLeft(c, s);
        ghost var r := RotateLeftTree(p0);
        c1, s1 := InLeft(c.up, r.color, r.key, r.id, r.right), r.left;
        FixView(c1, s1, nodes, root);
        y := nodes[y].left;
      } else if IsLeft(nodes, x) && IsRight(nodes, nodes[x].parent) {
        RotateRight(nodes[x].parent, c.up, p0);
        FixupZigZagRight(c, s);
        ghost var r := RotateRightTree(p0);
        c1, s1 := InRight(c.up, r.color, r.left, r.key, r.id), r.right;
        FixView(c1, s1, nodes, root);
        y := nodes[y].right;
      }
      // case 5
      ghost var q0 := Fill(c1, s1);
      FillPlug(c1, s1);
      var p := nodes[y].parent;
      var g := GetGrandParent(nodes, y);
      var leftLeft := IsLeft(nodes, y) && IsLeft(nodes, p);
      SetColor(p, Black, c1.up, q0);
      ghost var q1 := Paint(q0, Black);
      FillPlug(c1.up, q1);
      SetColor(g, Red, c1.up.up, Fill(c1.up, q1));
      ghost var g1 := Paint(Fill(c1.up, q1), Red);
      if leftLeft {
        RotateRight(g, c1.up.up, g1);
        FixupRotateRight(c1, s1);
      } else {
        RotateLeft(g, c1.up.up, g1);
        FixupRotateLeft(c1, s1);
      }
    }

    /** insert: a fresh key is linked in as a red leaf and the tree is repaired.
        The result is again a red-black search tree holding exactly one more key. */
    method Insert(data: int)
      requires Valid() && data !in Keys(tree)
      modifies this
      ensures Valid()
      ensures forall v :: v in Keys(tree) <==> v in old(Keys(tree)) || v == data
      ensures |Keys(tree)| == |old(Keys(tree))| + 1
    {
      ghost var t0 := tree;
      var entry := CreateNode(data);
      SubtreeAtAbsent(tree, data);
      ghost var c := BinaryInsert(entry);
      BstInsertFresh(t0, data, entry);
      PlugRedBlack(c, Leaf);
      FixTree(entry, c, Node(Red, Leaf, data, entry, Leaf));
    }

    /** insert with the intended replace semantics: an absent key is linked in
        and the tree repaired; a present key leaves the tree as it was. Either
        way the result is a red-black search tree whose key set is the old one
        plus data. */
    method InsertOrReplace(data: int) returns (found: bool)
      requires Valid()
      modifies this
      ensures Valid()
      ensures found <==> data in old(Keys(tree))
      ensures forall v :: v in Keys(tree) <==> v in old(Keys(tree)) || v == data
      ensures found ==> Keys(tree) == old(Keys(tree))
      ensures !found ==> |Keys(tree)| == |old(Keys(tree))| + 1
    {
      ghost var t0 := tree;
      var entry := CreateNode(data);
      ghost var c;
      found, c := BinaryInsertOrReplace(entry);
      if data in Keys(t0) {
        BstInsertDuplicate(t0, data, entry);
      } else {
        SubtreeAtAbsent(t0, data);
      }
      if !found {
        BstInsertFresh(t0, data, entry);
        PlugRedBlack(c, Leaf);
        FixTree(entry, c, Node(Red, Leaf, data, entry, Leaf));
      }
    }
  }
}
