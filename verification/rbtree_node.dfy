/** The node arena of RBTree: every RBNode the tree allocates is an entry of a
    sequence, and a pointer is an index into it (NIL for nullptr). The
    navigation helpers of RBNode are functions over the arena; Rep ties the
    arena to the ghost Tree of RBSpec. */
module RBNodes {
  import opened RBSpec

  const NIL: int := -1

  /** One RBNode: its three links, its colour and its data. */
  datatype RBNode = RBNode(parent: int, left: int, right: int, color: Color, data: int)

  type Heap = seq<RBNode>

  predicate IsPtr(h: Heap, p: int)
  {
    p == NIL || 0 <= p < |h|
  }

  /** Every link of node i is null or points at a node of the arena. */
  ghost predicate NodeOk(h: Heap, i: int)
    requires 0 <= i < |h|
  {
    IsPtr(h, h[i].parent) && IsPtr(h, h[i].left) && IsPtr(h, h[i].right)
  }

  /** Every link of every node is null or points at a node of the arena. The
      quantifier is instantiated only where NodeOk is mentioned. */
  ghost predicate WellFormed(h: Heap)
  {
    forall i {:trigger NodeOk(h, i)} :: 0 <= i < |h| ==> NodeOk(h, i)
  }

  /** A fresh node: red, no parent and no children. */
  function NewNode(data: int): (n: RBNode)
    ensures n.parent == NIL && n.left == NIL && n.right == NIL && n.color == Red && n.data == data
  {
    RBNode(NIL, NIL, NIL, Red, data)
  }

  // ---------------------------------------------------------------------
  // Navigation helpers of RBNode

  predicate IsRoot(h: Heap, x: int)
    requires 0 <= x < |h|
  {
    h[x].parent == NIL
  }

  predicate IsLeft(h: Heap, x: int)
    requires WellFormed(h) && 0 <= x < |h|
  {
    assert NodeOk(h, x);
    h[x].parent != NIL && h[h[x].parent].left == x
  }

  predicate IsRight(h: Heap, x: int)
    requires WellFormed(h) && 0 <= x < |h|
  {
    assert NodeOk(h, x);
    h[x].parent != NIL && h[h[x].parent].right == x
  }

  predicate IsRedNode(h: Heap, x: int)
    requires 0 <= x < |h|
  {
    h[x].color == Red
  }

  function GetSibling(h: Heap, x: int): (r: int)
    requires WellFormed(h) && 0 <= x < |h|
    ensures IsPtr(h, r)
    ensures IsRoot(h, x) ==> r == NIL
  {
    assert NodeOk(h, x);
    if IsRoot(h, x) then NIL
    else
      assert NodeOk(h, h[x].parent);
      if IsLeft(h, x) then h[h[x].parent].right else h[h[x].parent].left
  }

  function GetUncle(h: Heap, x: int): (r: int)
    requires WellFormed(h) && 0 <= x < |h|
    ensures IsPtr(h, r)
    ensures IsRoot(h, x) ==> r == NIL
  {
    assert NodeOk(h, x);
    if IsRoot(h, x) then NIL else GetSibling(h, h[x].parent)
  }

  function GetGrandParent(h: Heap, x: int): (r: int)
    requires WellFormed(h) && 0 <= x < |h|
    ensures IsPtr(h, r)
    ensures IsRoot(h, x) ==> r == NIL
  {
    assert NodeOk(h, x);
    if IsRoot(h, x) then NIL else assert NodeOk(h, h[x].parent); h[h[x].parent].parent
  }

  // ---------------------------------------------------------------------
  // Representation of abstract trees in the arena

  function Ptr(t: Tree): int
  {
    if t.Leaf? then NIL else t.id
  }

  /** The pointer of the node whose child slot is the hole of c. */
  function CtxPtr(c: Ctx): int
  {
    if c.Top? then NIL else c.id
  }

  /** t is stored in h below a node whose index is p: each node of t is the
      arena entry at its id, with exactly the parent, children, colour and key
      that t gives it. */
  ghost predicate Rep(t: Tree, p: int, h: Heap)
  {
    match t
    case Leaf => true
    case Node(c, l, k, id, r) =>
      id < |h| && h[id] == RBNode(p, Ptr(l), Ptr(r), c, k) && Rep(l, id, h) && Rep(r, id, h)
  }

  /** The context c is stored in h, its hole slot holds the pointer hole and the
      whole tree hangs from root. */
  ghost predicate CtxRep(c: Ctx, hole: int, h: Heap, root: int)
  {
    match c
    case Top => root == hole
    case InLeft(up, col, k, id, r) =>
      id < |h| && h[id] == RBNode(CtxPtr(up), hole, Ptr(r), col, k) && Rep(r, id, h) && CtxRep(up, id, h, root)
    case InRight(up, col, l, k, id) =>
      id < |h| && h[id] == RBNode(CtxPtr(up), Ptr(l), hole, col, k) && Rep(l, id, h) && CtxRep(up, id, h, root)
  }

  /** h and h' hold the same nodes at the indices in s. */
  ghost predicate Agree(h: Heap, h': Heap, s: set<nat>)
  {
    forall i :: i in s ==> i < |h| && i < |h'| && h[i] == h'[i]
  }

  lemma {:induction false} RepIds(t: Tree, p: int, h: Heap)
    requires Rep(t, p, h)
    ensures forall i :: i in Ids(t) ==> i < |h|
  {
    match t
    case Leaf =>
    case Node(_, l, _, id, r) => RepIds(l, id, h); RepIds(r, id, h);
  }

  lemma {:induction false} CtxRepIds(c: Ctx, hole: int, h: Heap, root: int)
    requires CtxRep(c, hole, h, root)
    ensures forall i :: i in CtxIds(c) ==> i < |h|
  {
    match c
    case Top =>
    case InLeft(up, _, _, id, r) => RepIds(r, id, h); CtxRepIds(up, id, h, root);
    case InRight(up, _, l, _, id) => RepIds(l, id, h); CtxRepIds(up, id, h, root);
  }

  lemma {:induction false} RepFrame(t: Tree, p: int, h: Heap, h': Heap)
    requires Rep(t, p, h) && Agree(h, h', Ids(t))
    ensures Rep(t, p, h')
  {
    match t
    case Leaf =>
    case Node(_, l, _, id, r) => RepFrame(l, id, h, h'); RepFrame(r, id, h, h');
  }

  lemma {:induction false} CtxRepFrame(c: Ctx, hole: int, h: Heap, h': Heap, root: int)
    requires CtxRep(c, hole, h, root) && Agree(h, h', CtxIds(c))
    ensures CtxRep(c, hole, h', root)
  {
    match c
    case Top =>
    case InLeft(up, _, _, id, r) => RepFrame(r, id, h, h'); CtxRepFrame(up, id, h, h', root);
    case InRight(up, _, l, _, id) => RepFrame(l, id, h, h'); CtxRepFrame(up, id, h, h', root);
  }

  /** A stored subtree whose top node gets a new parent link, nothing else changing. */
  lemma RepReparent(t: Tree, p: int, p': int, h: Heap, h': Heap)
    requires Rep(t, p, h) && Distinct(t) && t.Node?
    requires t.id < |h'| && h'[t.id] == h[t.id].(parent := p')
    requires Agree(h, h', Ids(t) - {t.id})
    ensures Rep(t, p', h')
  {
    assert Ids(t.left) <= Ids(t) - {t.id} && Ids(t.right) <= Ids(t) - {t.id};
    assert Agree(h, h', Ids(t.left)) && Agree(h, h', Ids(t.right));
    RepFrame(t.left, t.id, h, h');
    RepFrame(t.right, t.id, h, h');
  }

  /** The hole slot of a stored context is redirected to a new pointer. */
  lemma CtxRepRelink(c: Ctx, hole: int, hole': int, h: Heap, h': Heap, root: int, root': int)
    requires CtxRep(c, hole, h, root)
    requires c.Top? ==> root' == hole'
    requires c.InLeft? ==> root' == root && c.id < |h'| && h'[c.id] == h[c.id].(left := hole')
    requires c.InRight? ==> root' == root && c.id < |h'| && h'[c.id] == h[c.id].(right := hole')
    requires c.InLeft? ==> Agree(h, h', CtxIds(c.up) + Ids(c.right))
    requires c.InRight? ==> Agree(h, h', CtxIds(c.up) + Ids(c.left))
    ensures CtxRep(c, hole', h', root')
  {
    match c
    case Top =>
    case InLeft(up, _, _, id, r) => RepFrame(r, id, h, h'); CtxRepFrame(up, id, h, h', root);
    case InRight(up, _, l, _, id) => RepFrame(l, id, h, h'); CtxRepFrame(up, id, h, h', root);
  }

  /** A whole stored tree splits into its stored context and its stored subtree. */
  lemma {:induction false} PlugRep(c: Ctx, t: Tree, h: Heap, root: int)
    ensures (root == Ptr(Plug(c, t)) && Rep(Plug(c, t), NIL, h)) <==>
            (CtxRep(c, Ptr(t), h, root) && Rep(t, CtxPtr(c), h))
    decreases c
  {
    match c
    case Top =>
    case InLeft(up, col, k, id, r) => PlugRep(up, Node(col, t, k, id, r), h, root);
    case InRight(up, col, l, k, id) => PlugRep(up, Node(col, l, k, id, t), h, root);
  }

  lemma WellFormedUpdate(h: Heap, i: int, n: RBNode)
    requires WellFormed(h) && 0 <= i < |h|
    requires IsPtr(h, n.parent) && IsPtr(h, n.left) && IsPtr(h, n.right)
    ensures WellFormed(h[i := n])
  {
    var h' := h[i := n];
    forall j | 0 <= j < |h'|
      ensures NodeOk(h', j)
    {
      if j != i { assert NodeOk(h, j); }
    }
  }

  /** Appending a node whose links are null keeps the arena well formed. */
  lemma WellFormedExtend(h: Heap, n: RBNode)
    requires WellFormed(h) && n.parent == NIL && n.left == NIL && n.right == NIL
    ensures WellFormed(h + [n])
  {
    var h' := h + [n];
    forall j | 0 <= j < |h'|
      ensures NodeOk(h', j)
    {
      if j < |h| { assert NodeOk(h, j); }
    }
  }

  /** Appending a node to the arena disturbs no stored tree. */
  lemma RepExtend(t: Tree, p: int, h: Heap, n: RBNode)
    requires Rep(t, p, h)
    ensures Rep(t, p, h + [n])
  {
    RepIds(t, p, h);
    RepFrame(t, p, h, h + [n]);
  }

  /** Repainting the node at the top of a plugged subtree. */
  lemma RecolorRep(c: Ctx, t: Tree, col: Color, h: Heap, h': Heap, root: int)
    requires Distinct(Plug(c, t)) && t.Node?
    requires root == Ptr(Plug(c, t)) && Rep(Plug(c, t), NIL, h)
    requires t.id < |h| && h' == h[t.id := h[t.id].(color := col)]
    ensures root == Ptr(Plug(c, Paint(t, col))) && Rep(Plug(c, Paint(t, col)), NIL, h')
  {
    PlugRep(c, t, h, root);
    PlugDistinct(c, t);
    CtxRepIds(c, t.id, h, root);
    CtxRepFrame(c, t.id, h, h', root);
    RepIds(t, CtxPtr(c), h);
    RepFrame(t.left, t.id, h, h');
    RepFrame(t.right, t.id, h, h');
    PlugRep(c, Paint(t, col), h', root);
  }

  /** The arena and root after binaryInsert stores x in the child slot of owner
      (left or right as ownerLeft says; the root when owner is null) and sets the
      parent link of x to parent. */
  ghost function LinkedAt(h: Heap, root: int, owner: int, ownerLeft: bool, x: int, parent: int): (Heap, int)
    requires 0 <= x < |h| && IsPtr(h, owner)
  {
    var (h1, root1) :=
      if owner == NIL then (h, x)
      else if ownerLeft then (h[owner := h[owner].(left := x)], root)
      else (h[owner := h[owner].(right := x)], root);
    (h1[x := h1[x].(parent := parent)], root1)
  }

  /** Linking the new red leaf x into the hole of c: the owner's slot now points at
      x, x's parent link at the owner, and nothing else changed. */
  lemma LinkLeafRep(c: Ctx, hole: int, h: Heap, root: int, x: nat, k: int, owner: int, ownerLeft: bool)
    requires Distinct(Plug(c, Node(Red, Leaf, k, x, Leaf)))
    requires WellFormed(h) && CtxRep(c, hole, h, root) && x < |h| && h[x] == NewNode(k)
    requires owner == CtxPtr(c) && (ownerLeft <==> c.InLeft?)
    ensures IsPtr(h, owner)
    ensures var (h', root') := LinkedAt(h, root, owner, ownerLeft, x, CtxPtr(c));
      WellFormed(h') && root' == Ptr(Plug(c, Node(Red, Leaf, k, x, Leaf))) &&
      Rep(Plug(c, Node(Red, Leaf, k, x, Leaf)), NIL, h')
  {
    var t := Node(Red, Leaf, k, x, Leaf);
    CtxRepIds(c, hole, h, root);
    PlugDistinct(c, t);
    if !c.Top? {
      assert c.id in CtxIds(c);
      PlugDistinct(c.up, Fill(c, t));
    }
    var (h', root') := LinkedAt(h, root, owner, ownerLeft, x, CtxPtr(c));
    assert Unchanged(h, h', {x, CtxPtr(c)}) && h'[x] == RBNode(CtxPtr(c), NIL, NIL, Red, k);
    CtxRepRelink(c, hole, x, h, h', root, root');
    PlugRep(c, t, h', root');
    WellFormedChanged(h, h', {x, CtxPtr(c)});
  }

  /** The end of binaryInsert: the descent stopped at sub, in context c, either at
      a null link or at a node whose key equals k; x is linked in as described by
      LinkedAt. When the key was new the arena stores BstInsert exactly; when it
      was present, only the parent link of x differs from the stored tree. */
  lemma BinaryInsertLink(t0: Tree, c: Ctx, sub: Tree, h: Heap, root: int, x: nat, k: int,
                         owner: int, ownerLeft: bool, parent: int)
    requires WellFormed(h) && Distinct(t0) && x !in Ids(t0) && x < |h| && h[x] == NewNode(k)
    requires Plug(c, sub) == t0 && CtxRep(c, Ptr(sub), h, root) && Rep(sub, CtxPtr(c), h)
    requires BstInsert(t0, k, x) == Plug(c, BstInsert(sub, k, x)) && SubtreeAt(t0, k) == SubtreeAt(sub, k)
    requires owner == CtxPtr(c) && (ownerLeft <==> c.InLeft?)
    requires sub.Leaf? ==> parent == CtxPtr(c)
    requires sub.Node? ==> sub.key == k && parent == sub.id
    ensures IsPtr(h, owner)
    ensures var (h', root') := LinkedAt(h, root, owner, ownerLeft, x, parent);
      var t := Plug(c, Node(Red, Leaf, k, x, Leaf));
      |h'| == |h| && h'[x].data == k && BstInsert(t0, k, x) == t &&
      (SubtreeAt(t0, k).Leaf? ==>
        WellFormed(h') && root' == Ptr(t) && Rep(t, NIL, h') && Distinct(t) && t0 == Plug(c, Leaf)) &&
      (SubtreeAt(t0, k).Node? ==>
        h'[x].parent == SubtreeAt(t0, k).id && WellFormed(h') && root' == Ptr(t) && Distinct(t) &&
        Rep(t, NIL, h'[x := h'[x].(parent := CtxPtr(c))]))
  {
    var leaf := Node(Red, Leaf, k, x, Leaf);
    PlugIds(c, sub);
    PlugDistinctReplace(c, sub, leaf);
    CtxRepIds(c, Ptr(sub), h, root);
    RepIds(sub, CtxPtr(c), h);
    LinkLeafRep(c, Ptr(sub), h, root, x, k, owner, ownerLeft);
    if sub.Node? {
      var h2 := LinkedAt(h, root, owner, ownerLeft, x, CtxPtr(c)).0;
      var h' := LinkedAt(h, root, owner, ownerLeft, x, parent).0;
      assert h' == h2[x := h'[x]] && h2 == h'[x := h'[x].(parent := CtxPtr(c))];
      WellFormedUpdate(h2, x, h'[x]);
    }
  }

  /** h' differs from h at most at the indices in m. */
  ghost predicate Unchanged(h: Heap, h': Heap, m: set<int>)
  {
    |h'| == |h| && forall i :: 0 <= i < |h| && i !in m ==> h'[i] == h[i]
  }

  /** Rewriting some nodes with links that stay inside the arena keeps it well formed. */
  lemma WellFormedChanged(h: Heap, h': Heap, m: set<int>)
    requires WellFormed(h) && Unchanged(h, h', m)
    requires forall i :: i in m && 0 <= i < |h| ==>
      IsPtr(h, h'[i].parent) && IsPtr(h, h'[i].left) && IsPtr(h, h'[i].right)
    ensures WellFormed(h')
  {
    forall j | 0 <= j < |h'|
      ensures NodeOk(h', j)
    {
      if j !in m { assert NodeOk(h, j); }
    }
  }

  lemma UnchangedAgree(h: Heap, h': Heap, m: set<int>, s: set<nat>)
    requires Unchanged(h, h', m)
    requires forall i :: i in s ==> i < |h| && i !in m
    ensures Agree(h, h', s)
  {
  }

  /** The context part of a rotation: the slot that held x now holds y. */
  lemma RelinkCtx(c: Ctx, s: Tree, x: nat, y: int, h: Heap, h': Heap, root: int, root': int, m: set<int>)
    requires Distinct(Plug(c, s)) && s.Node? && s.id == x
    requires CtxRep(c, x, h, root) && Unchanged(h, h', m)
    requires forall i :: i in m ==> i == CtxPtr(c) || i in Ids(s) || i == NIL
    requires c.Top? ==> root' == y
    requires c.InLeft? ==> root' == root && c.id < |h| && h'[c.id] == h[c.id].(left := y)
    requires c.InRight? ==> root' == root && c.id < |h| && h'[c.id] == h[c.id].(right := y)
    ensures CtxRep(c, y, h', root')
  {
    CtxRepIds(c, x, h, root);
    PlugDistinct(c, s);
    if !c.Top? {
      PlugDistinct(c.up, Fill(c, s));
      var rest := CtxIds(c.up) + Ids(Sibling(c));
      assert forall i :: i in rest ==> i in CtxIds(c) && i != c.id;
      UnchangedAgree(h, h', m, rest);
    }
    CtxRepRelink(c, x, y, h, h', root, root');
  }

  /** The subtree part of rotateLeft. */
  lemma RotateLeftSubRep(s: Tree, p: int, h: Heap, h': Heap, m: set<int>)
    requires Distinct(s) && s.Node? && s.right.Node? && Rep(s, p, h)
    requires p !in Ids(s)
    requires m == {s.id, s.right.id, Ptr(s.right.left), p}
    requires Unchanged(h, h', m) && s.id < |h| && s.right.id < |h|
    requires h'[s.id] == h[s.id].(parent := s.right.id, right := Ptr(s.right.left))
    requires h'[s.right.id] == h[s.right.id].(parent := p, left := s.id)
    requires s.right.left.Node? ==> s.right.left.id < |h| && h'[s.right.left.id] == h[s.right.left.id].(parent := s.id)
    ensures Rep(RotateLeftTree(s), p, h')
  {
    var Node(_, a, _, x, Node(_, b, _, y, d)) := s;
    RepIds(s, p, h);
    assert forall i :: i in Ids(a) ==> i < |h| && i !in m;
    UnchangedAgree(h, h', m, Ids(a));
    RepFrame(a, x, h, h');
    assert forall i :: i in Ids(d) ==> i < |h| && i !in m;
    UnchangedAgree(h, h', m, Ids(d));
    RepFrame(d, y, h, h');
    if b.Node? {
      assert forall i :: i in Ids(b) - {b.id} ==> i < |h| && i !in m;
      UnchangedAgree(h, h', m, Ids(b) - {b.id});
      RepReparent(b, y, x, h, h');
    }
  }

  /** The subtree part of rotateRight. */
  lemma RotateRightSubRep(s: Tree, p: int, h: Heap, h': Heap, m: set<int>)
    requires Distinct(s) && s.Node? && s.left.Node? && Rep(s, p, h)
    requires p !in Ids(s)
    requires m == {s.id, s.left.id, Ptr(s.left.right), p}
    requires Unchanged(h, h', m) && s.id < |h| && s.left.id < |h|
    requires h'[s.id] == h[s.id].(parent := s.left.id, left := Ptr(s.left.right))
    requires h'[s.left.id] == h[s.left.id].(parent := p, right := s.id)
    requires s.left.right.Node? ==> s.left.right.id < |h| && h'[s.left.right.id] == h[s.left.right.id].(parent := s.id)
    ensures Rep(RotateRightTree(s), p, h')
  {
    var Node(_, Node(_, a, _, y, b), _, x, d) := s;
    RepIds(s, p, h);
    assert forall i :: i in Ids(a) ==> i < |h| && i !in m;
    UnchangedAgree(h, h', m, Ids(a));
    RepFrame(a, y, h, h');
    assert forall i :: i in Ids(d) ==> i < |h| && i !in m;
    UnchangedAgree(h, h', m, Ids(d));
    RepFrame(d, x, h, h');
    if b.Node? {
      assert forall i :: i in Ids(b) - {b.id} ==> i < |h| && i !in m;
      UnchangedAgree(h, h', m, Ids(b) - {b.id});
      RepReparent(b, y, x, h, h');
    }
  }

  /** What rotateLeft reads at the top node x of s: its right child y, y's left
      child, x's parent and which child of the parent x is. The nodes it relinks
      are pairwise different. */
  lemma RotateLeftView(c: Ctx, s: Tree, h: Heap, root: int)
    requires WellFormed(h) && root == Ptr(Plug(c, s)) && Rep(Plug(c, s), NIL, h) && Distinct(Plug(c, s))
    requires s.Node? && s.right.Node?
    ensures s.id < |h| && s.right.id < |h| && IsPtr(h, Ptr(s.right.left))
    ensures h[s.id].right == s.right.id && h[s.id].parent == CtxPtr(c)
    ensures h[s.right.id].left == Ptr(s.right.left)
    ensures !c.Top? ==> c.id < |h| && (h[c.id].left == s.id <==> c.InLeft?)
    ensures s.id != s.right.id && Ptr(s.right.left) != s.id && Ptr(s.right.left) != s.right.id
    ensures CtxPtr(c) != s.id && CtxPtr(c) != s.right.id && (!c.Top? ==> c.id != Ptr(s.right.left))
  {
    NavigationAgrees(c, s, h, root);
    PlugRep(c, s, h, root);
    PlugDistinct(c, s);
    if !c.Top? { assert c.id in CtxIds(c); }
    assert NodeOk(h, s.right.id);
  }

  /** What rotateRight reads, the mirror image of RotateLeftView. */
  lemma RotateRightView(c: Ctx, s: Tree, h: Heap, root: int)
    requires WellFormed(h) && root == Ptr(Plug(c, s)) && Rep(Plug(c, s), NIL, h) && Distinct(Plug(c, s))
    requires s.Node? && s.left.Node?
    ensures s.id < |h| && s.left.id < |h| && IsPtr(h, Ptr(s.left.right))
    ensures h[s.id].left == s.left.id && h[s.id].parent == CtxPtr(c)
    ensures h[s.left.id].right == Ptr(s.left.right)
    ensures !c.Top? ==> c.id < |h| && (h[c.id].right == s.id <==> c.InRight?)
    ensures s.id != s.left.id && Ptr(s.left.right) != s.id && Ptr(s.left.right) != s.left.id
    ensures CtxPtr(c) != s.id && CtxPtr(c) != s.left.id && (!c.Top? ==> c.id != Ptr(s.left.right))
  {
    NavigationAgrees(c, s, h, root);
    PlugRep(c, s, h, root);
    PlugDistinct(c, s);
    if !c.Top? { assert c.id in CtxIds(c); }
    assert NodeOk(h, s.left.id);
  }

  /** The arena and root after rotateLeft's link updates at x, in the order the
      source makes them (y is the right child of x). */
  ghost function LeftRotated(h: Heap, x: int, root: int): (Heap, int)
    requires WellFormed(h) && 0 <= x < |h| && h[x].right != NIL
  {
    assert NodeOk(h, x);
    var y := h[x].right;
    assert NodeOk(h, y);
    var h1 := h[x := h[x].(right := h[y].left)];
    var h2 := if h1[y].left != NIL then h1[h1[y].left := h1[h1[y].left].(parent := x)] else h1;
    var h3 := h2[y := h2[y].(parent := h2[x].parent)];
    var p := h3[x].parent;
    var h4 := if p == NIL then h3
              else if x == h3[p].left then h3[p := h3[p].(left := y)]
              else h3[p := h3[p].(right := y)];
    var h5 := h4[y := h4[y].(left := x)];
    (h5[x := h5[x].(parent := y)], if p == NIL then y else root)
  }

  /** The arena and root after rotateRight's link updates at x, the mirror image. */
  ghost function RightRotated(h: Heap, x: int, root: int): (Heap, int)
    requires WellFormed(h) && 0 <= x < |h| && h[x].left != NIL
  {
    assert NodeOk(h, x);
    var y := h[x].left;
    assert NodeOk(h, y);
    var h1 := h[x := h[x].(left := h[y].right)];
    var h2 := if h1[y].right != NIL then h1[h1[y].right := h1[h1[y].right].(parent := x)] else h1;
    var h3 := h2[y := h2[y].(parent := h2[x].parent)];
    var p := h3[x].parent;
    var h4 := if p == NIL then h3
              else if x == h3[p].right then h3[p := h3[p].(right := y)]
              else h3[p := h3[p].(left := y)];
    var h5 := h4[y := h4[y].(right := x)];
    (h5[x := h5[x].(parent := y)], if p == NIL then y else root)
  }

  /** Which nodes rotateLeft rewrites, and how. */
  lemma LeftRotatedPoints(c: Ctx, s: Tree, h: Heap, root: int)
    requires WellFormed(h) && root == Ptr(Plug(c, s)) && Rep(Plug(c, s), NIL, h) && Distinct(Plug(c, s))
    requires s.Node? && s.right.Node?
    ensures s.id < |h| && s.right.id < |h| && h[s.id].right != NIL
    ensures var (h', root') := LeftRotated(h, s.id, root);
      Unchanged(h, h', {s.id, s.right.id, Ptr(s.right.left), CtxPtr(c)}) &&
      h'[s.id] == h[s.id].(parent := s.right.id, right := Ptr(s.right.left)) &&
      h'[s.right.id] == h[s.right.id].(parent := CtxPtr(c), left := s.id) &&
      (s.right.left.Node? ==>
        s.right.left.id < |h| && h'[s.right.left.id] == h[s.right.left.id].(parent := s.id)) &&
      (c.Top? ==> root' == s.right.id) &&
      (c.InLeft? ==> root' == root && c.id < |h| && h'[c.id] == h[c.id].(left := s.right.id)) &&
      (c.InRight? ==> root' == root && c.id < |h| && h'[c.id] == h[c.id].(right := s.right.id))
  {
    RotateLeftView(c, s, h, root);
  }

  /** Which nodes rotateRight rewrites, and how. */
  lemma RightRotatedPoints(c: Ctx, s: Tree, h: Heap, root: int)
    requires WellFormed(h) && root == Ptr(Plug(c, s)) && Rep(Plug(c, s), NIL, h) && Distinct(Plug(c, s))
    requires s.Node? && s.left.Node?
    ensures s.id < |h| && s.left.id < |h| && h[s.id].left != NIL
    ensures var (h', root') := RightRotated(h, s.id, root);
      Unchanged(h, h', {s.id, s.left.id, Ptr(s.left.right), CtxPtr(c)}) &&
      h'[s.id] == h[s.id].(parent := s.left.id, left := Ptr(s.left.right)) &&
      h'[s.left.id] == h[s.left.id].(parent := CtxPtr(c), right := s.id) &&
      (s.left.right.Node? ==>
        s.left.right.id < |h| && h'[s.left.right.id] == h[s.left.right.id].(parent := s.id)) &&
      (c.Top? ==> root' == s.left.id) &&
      (c.InLeft? ==> root' == root && c.id < |h| && h'[c.id] == h[c.id].(left := s.left.id)) &&
      (c.InRight? ==> root' == root && c.id < |h| && h'[c.id] == h[c.id].(right := s.left.id))
  {
    RotateRightView(c, s, h, root);
  }

  /** rotateLeft at the top node x of s, with y its right child and b the left
      child of y: x takes b as its right child, y takes x as its left child and
      takes x's place under the context. */
  lemma RotateLeftRep(c: Ctx, s: Tree, h: Heap, root: int)
    requires WellFormed(h) && root == Ptr(Plug(c, s)) && Rep(Plug(c, s), NIL, h) && Distinct(Plug(c, s))
    requires s.Node? && s.right.Node?
    ensures s.id < |h| && h[s.id].right != NIL
    ensures var (h', root') := LeftRotated(h, s.id, root);
      WellFormed(h') && root' == Ptr(Plug(c, RotateLeftTree(s))) && Rep(Plug(c, RotateLeftTree(s)), NIL, h')
  {
    RotateLeftView(c, s, h, root);
    LeftRotatedPoints(c, s, h, root);
    var (h', root') := LeftRotated(h, s.id, root);
    var m := {s.id, s.right.id, Ptr(s.right.left), CtxPtr(c)};
    PlugRep(c, s, h, root);
    PlugDistinct(c, s);
    assert CtxPtr(c) !in Ids(s) by {
      if !c.Top? { assert c.id in CtxIds(c); }
    }
    assert NodeOk(h, s.id) && NodeOk(h, s.right.id);
    if !c.Top? { assert NodeOk(h, c.id); }
    if s.right.left.Node? { assert NodeOk(h, s.right.left.id); }
    RotateLeftSubRep(s, CtxPtr(c), h, h', m);
    RelinkCtx(c, s, s.id, s.right.id, h, h', root, root', m);
    PlugRep(c, RotateLeftTree(s), h', root');
    WellFormedChanged(h, h', m);
  }

  /** rotateRight, the mirror image of rotateLeft. */
  lemma RotateRightRep(c: Ctx, s: Tree, h: Heap, root: int)
    requires WellFormed(h) && root == Ptr(Plug(c, s)) && Rep(Plug(c, s), NIL, h) && Distinct(Plug(c, s))
    requires s.Node? && s.left.Node?
    ensures s.id < |h| && h[s.id].left != NIL
    ensures var (h', root') := RightRotated(h, s.id, root);
      WellFormed(h') && root' == Ptr(Plug(c, RotateRightTree(s))) && Rep(Plug(c, RotateRightTree(s)), NIL, h')
  {
    RotateRightView(c, s, h, root);
    RightRotatedPoints(c, s, h, root);
    var (h', root') := RightRotated(h, s.id, root);
    var m := {s.id, s.left.id, Ptr(s.left.right), CtxPtr(c)};
    PlugRep(c, s, h, root);
    PlugDistinct(c, s);
    assert CtxPtr(c) !in Ids(s) by {
      if !c.Top? { assert c.id in CtxIds(c); }
    }
    assert NodeOk(h, s.id) && NodeOk(h, s.left.id);
    if !c.Top? { assert NodeOk(h, c.id); }
    if s.left.right.Node? { assert NodeOk(h, s.left.right.id); }
    RotateRightSubRep(s, CtxPtr(c), h, h', m);
    RelinkCtx(c, s, s.id, s.left.id, h, h', root, root', m);
    PlugRep(c, RotateRightTree(s), h', root');
    WellFormedChanged(h, h', m);
  }

  // ---------------------------------------------------------------------
  // The navigation helpers agree with the abstract position of a node

  /** For the node s.id sitting in context c of a stored tree: isRoot, isLeft
      and isRight tell which kind of context it is (so at most one of isLeft
      and isRight holds), and getSibling / getGrandParent return the sibling
      and the grandparent the context records (null at the root). */
  lemma NavigationAgrees(c: Ctx, s: Tree, h: Heap, root: int)
    requires WellFormed(h) && root == Ptr(Plug(c, s)) && Rep(Plug(c, s), NIL, h) && Distinct(Plug(c, s))
    requires s.Node?
    ensures s.id < |h| && h[s.id] == RBNode(CtxPtr(c), Ptr(s.left), Ptr(s.right), s.color, s.key)
    ensures IsRoot(h, s.id) <==> c.Top?
    ensures IsLeft(h, s.id) <==> c.InLeft?
    ensures IsRight(h, s.id) <==> c.InRight?
    ensures c.Top? ==> GetSibling(h, s.id) == NIL && GetGrandParent(h, s.id) == NIL
    ensures !c.Top? ==> c.id < |h| && GetSibling(h, s.id) == Ptr(Sibling(c)) && GetGrandParent(h, s.id) == CtxPtr(c.up)
  {
    NodeAndParent(c, s, h, root);
    NavigationFromLinks(c, s, h);
  }

  /** The navigation helpers, read off the links of s.id and of its parent. */
  lemma NavigationFromLinks(c: Ctx, s: Tree, h: Heap)
    requires WellFormed(h) && s.Node?
    requires s.id < |h| && h[s.id] == RBNode(CtxPtr(c), Ptr(s.left), Ptr(s.right), s.color, s.key)
    requires !c.Top? ==> c.id < |h| && s.id != c.id && s.id != Ptr(Sibling(c))
    requires c.InLeft? ==> h[c.id] == RBNode(CtxPtr(c.up), s.id, Ptr(Sibling(c)), c.color, c.key)
    requires c.InRight? ==> h[c.id] == RBNode(CtxPtr(c.up), Ptr(Sibling(c)), s.id, c.color, c.key)
    ensures IsRoot(h, s.id) <==> c.Top?
    ensures IsLeft(h, s.id) <==> c.InLeft?
    ensures IsRight(h, s.id) <==> c.InRight?
    ensures c.Top? ==> GetSibling(h, s.id) == NIL && GetGrandParent(h, s.id) == NIL
    ensures !c.Top? ==> GetSibling(h, s.id) == Ptr(Sibling(c)) && GetGrandParent(h, s.id) == CtxPtr(c.up)
  {
  }

  /** The arena entries of s.id and of its parent, as the context records them;
      the sibling is a different node from s. */
  lemma NodeAndParent(c: Ctx, s: Tree, h: Heap, root: int)
    requires root == Ptr(Plug(c, s)) && Rep(Plug(c, s), NIL, h) && Distinct(Plug(c, s))
    requires s.Node?
    ensures s.id < |h| && h[s.id] == RBNode(CtxPtr(c), Ptr(s.left), Ptr(s.right), s.color, s.key)
    ensures !c.Top? ==> c.id < |h| && s.id != c.id && s.id != Ptr(Sibling(c))
    ensures c.InLeft? ==> h[c.id] == RBNode(CtxPtr(c.up), s.id, Ptr(Sibling(c)), c.color, c.key)
    ensures c.InRight? ==> h[c.id] == RBNode(CtxPtr(c.up), Ptr(Sibling(c)), s.id, c.color, c.key)
  {
    PlugRep(c, s, h, root);
    PlugDistinct(c, s);
    if !c.Top? {
      var sib := Sibling(c);
      assert c.id in CtxIds(c) && Ids(sib) <= CtxIds(c);
      assert s.id != c.id && s.id !in Ids(sib);
    }
  }

  /** Everything fixTree reads about the node s.id in context c: whether it is the
      root, which child it is, the colour and side of its parent, its grandparent,
      its uncle and the uncle's colour. */
  lemma FixView(c: Ctx, s: Tree, h: Heap, root: int)
    requires WellFormed(h) && root == Ptr(Plug(c, s)) && Rep(Plug(c, s), NIL, h) && Distinct(Plug(c, s))
    requires s.Node?
    ensures s.id < |h| && h[s.id].parent == CtxPtr(c)
    ensures IsRoot(h, s.id) <==> c.Top?
    ensures IsLeft(h, s.id) <==> c.InLeft?
    ensures IsRight(h, s.id) <==> c.InRight?
    ensures !c.Top? ==>
              c.id < |h| && (IsRedNode(h, c.id) <==> c.color == Red) &&
              (IsLeft(h, c.id) <==> c.up.InLeft?) && (IsRight(h, c.id) <==> c.up.InRight?) &&
              GetGrandParent(h, s.id) == CtxPtr(c.up) &&
              (c.InLeft? ==> h[c.id].left == s.id) && (c.InRight? ==> h[c.id].right == s.id)
    ensures !c.Top? && !c.up.Top? ==>
              GetUncle(h, s.id) == Ptr(Sibling(c.up)) &&
              (Sibling(c.up).Node? ==>
                 Sibling(c.up).id < |h| && (IsRedNode(h, Sibling(c.up).id) <==> IsRed(Sibling(c.up))))
  {
    NavigationAgrees(c, s, h, root);
    if !c.Top? {
      ParentView(c, s, h, root);
      FillPlug(c, s);
      assert Fill(c, s).id == c.id;
      NavigationAgrees(c.up, Fill(c, s), h, root);
      if !c.up.Top? {
        UncleAgrees(c, s, h, root);
        if Sibling(c.up).Node? {
          UncleView(c, s, h, root);
        }
      }
    }
  }

  lemma ParentView(c: Ctx, s: Tree, h: Heap, root: int)
    requires WellFormed(h) && root == Ptr(Plug(c, s)) && Rep(Plug(c, s), NIL, h) && Distinct(Plug(c, s))
    requires s.Node? && !c.Top?
    ensures c.id < |h| && h[c.id].color == c.color
    ensures c.InLeft? ==> h[c.id].left == s.id
    ensures c.InRight? ==> h[c.id].right == s.id
  {
    PlugRep(c, s, h, root);
    assert CtxRep(c, s.id, h, root);
  }

  lemma UncleView(c: Ctx, s: Tree, h: Heap, root: int)
    requires WellFormed(h) && root == Ptr(Plug(c, s)) && Rep(Plug(c, s), NIL, h) && Distinct(Plug(c, s))
    requires s.Node? && !c.Top? && !c.up.Top? && Sibling(c.up).Node?
    ensures Sibling(c.up).id < |h| && h[Sibling(c.up).id].color == Sibling(c.up).color
  {
    FillPlug(c, s);
    SiblingPlug(c.up, Fill(c, s));
    NavigationAgrees(SiblingCtx(c.up, Fill(c, s)), Sibling(c.up), h, root);
  }

  /** getUncle returns the sibling of the parent: null when the node or its
      parent is the root. */
  lemma UncleAgrees(c: Ctx, s: Tree, h: Heap, root: int)
    requires WellFormed(h) && root == Ptr(Plug(c, s)) && Rep(Plug(c, s), NIL, h) && Distinct(Plug(c, s))
    requires s.Node?
    ensures s.id < |h|
    ensures c.Top? ==> GetUncle(h, s.id) == NIL
    ensures !c.Top? && c.up.Top? ==> GetUncle(h, s.id) == NIL
    ensures !c.Top? && !c.up.Top? ==> GetUncle(h, s.id) == Ptr(Sibling(c.up))
  {
    if c.Top? {
      NavigationAgrees(c, s, h, root);
    } else {
      UncleIsParentSibling(c, s, h, root);
      ParentSiblingAgrees(c, s, h, root);
    }
  }

  lemma UncleIsParentSibling(c: Ctx, s: Tree, h: Heap, root: int)
    requires WellFormed(h) && root == Ptr(Plug(c, s)) && Rep(Plug(c, s), NIL, h) && Distinct(Plug(c, s))
    requires s.Node? && !c.Top?
    ensures s.id < |h| && c.id < |h|
    ensures GetUncle(h, s.id) == GetSibling(h, c.id)
  {
    NavigationAgrees(c, s, h, root);
    assert h[s.id].parent == c.id && !IsRoot(h, s.id);
  }

  lemma ParentSiblingAgrees(c: Ctx, s: Tree, h: Heap, root: int)
    requires WellFormed(h) && root == Ptr(Plug(c, s)) && Rep(Plug(c, s), NIL, h) && Distinct(Plug(c, s))
    requires s.Node? && !c.Top?
    ensures c.id < |h|
    ensures c.up.Top? ==> GetSibling(h, c.id) == NIL
    ensures !c.up.Top? ==> GetSibling(h, c.id) == Ptr(Sibling(c.up))
  {
    PlugRep(c, s, h, root);
    assert CtxRep(c, s.id, h, root);
  }
}
