/**
 * Insertion into the red-black tree of tree/RBTree/RBTree.h.
 *
 * The C++ nodes are heap records linked by left, right and parent pointers.
 * Here they live in an arena: a sequence of node records indexed by int,
 * with NIL standing for nullptr.  Every routine that rewrites fields has two
 * forms: a function that applies the routine's field assignments one after
 * another to the sequence (so two names for one node behave as two pointers
 * to one node do), and a method of the class RbTree that makes the same
 * assignments to its own fields and is proved to agree with that function.
 *
 * The code keeps no invariant on the parent links (the rotations leave the
 * moved middle subtree pointing at its old parent), so nothing here claims
 * that the nodes stay a red-black tree.  What is proved is what the code does
 * guarantee: what each routine changes, that a rotation keeps the in-order
 * listing, that the descent and attachment of insert agree with the plain
 * search-tree put of Bst, that the fix-up relinks and recolours without
 * touching a key or a value, and that a fix-up which finishes leaves a black
 * root.  Where the C++ code would fail an assert or follow nullptr, the
 * model stops with that Outcome instead.
 *
 * The mirror branch of insertFixUp reads the wrong uncle (see Variant).
 * FixBody, FixUp and Put model both readings; the class RbTree runs the
 * corrected one.
 */
module RedBlack {
  import opened Common
  import Bst

  /** nullptr. */
  const NIL := -1

  /** Color (RBTree.h:6-10); the unused COLER_BOTTOM is left out. */
  datatype Color = Red | Black

  /** RbNode (RBTree.h:12-29), with its three links as arena indices. */
  datatype RbNode<V> = RbNode(key: int, val: V, left: int, right: int, parent: int, color: Color)

  /** What the routines change: the node records and root_. */
  datatype Arena<V> = Arena(nodes: seq<RbNode<V>>, root: int)

  /** How a run ends: normally, at a failing assert, at a dereference of nullptr, or out of fuel. */
  datatype Outcome = Returned | AssertionFailed | NullDereference | OutOfFuel

  /** A finished run: the state it leaves and how it ended. */
  datatype Finished<V> = Finished(a: Arena<V>, outcome: Outcome)

  /** A link is nullptr or names a node of the arena. */
  predicate Link<V>(nodes: seq<RbNode<V>>, i: int)
  {
    i == NIL || 0 <= i < |nodes|
  }

  predicate LinksInRange<V>(nodes: seq<RbNode<V>>)
  {
    forall i :: 0 <= i < |nodes| ==>
      Link(nodes, nodes[i].left) && Link(nodes, nodes[i].right) && Link(nodes, nodes[i].parent)
  }

  /** Every pointer in the state is nullptr or a live node. */
  predicate Wf<V>(a: Arena<V>)
  {
    LinksInRange(a.nodes) && Link(a.nodes, a.root)
  }

  /** Two arenas hold the same keys and values at the same indices: only links and colours differ. */
  ghost predicate SamePayload<V>(m: seq<RbNode<V>>, n: seq<RbNode<V>>)
  {
    |m| == |n| && forall i :: 0 <= i < |m| ==> m[i].key == n[i].key && m[i].val == n[i].val
  }

  /** The keys stored anywhere in the arena. */
  ghost function StoredKeys<V>(nodes: seq<RbNode<V>>): set<int>
  {
    set i | 0 <= i < |nodes| :: nodes[i].key
  }

  /** isRed (RBTree.h:69): nullptr counts as black. */
  function IsRed<V>(nodes: seq<RbNode<V>>, x: int): (b: bool)
    requires Link(nodes, x)
    ensures x == NIL ==> !b
    ensures b ==> nodes[x].color == Red
  {
    x != NIL && nodes[x].color == Red
  }

  // ----- Field assignments -----

  /**
   * leftRotate (RBTree.h:162-180), whose asserts require a red right child y:
   * x takes y's left subtree, y takes x as its left child and x's colour and
   * parent, and x turns red and gets y as parent.  y's old left subtree keeps
   * its parent link.
   */
  function LeftRotated<V>(nodes: seq<RbNode<V>>, x: int): (r: seq<RbNode<V>>)
    requires LinksInRange(nodes) && 0 <= x < |nodes| && IsRed(nodes, nodes[x].right)
    ensures LinksInRange(r) && SamePayload(nodes, r)
    ensures forall j :: 0 <= j < |r| && j != x && j != nodes[x].right ==> r[j] == nodes[j]
    ensures var y := nodes[x].right;
      x != y ==>
        && r[x] == nodes[x].(right := nodes[y].left, color := Red, parent := y)
        && r[y] == nodes[y].(left := x, color := nodes[x].color, parent := nodes[x].parent)
  {
    var y := nodes[x].right;
    var n1 := nodes[x := nodes[x].(right := nodes[y].left)];
    var n2 := n1[y := n1[y].(left := x)];
    var n3 := n2[y := n2[y].(color := n2[x].color)];
    var n4 := n3[x := n3[x].(color := Red)];
    var n5 := n4[y := n4[y].(parent := n4[x].parent)];
    n5[x := n5[x].(parent := y)]
  }

  /** rightRotate (RBTree.h:184-202), the mirror image: it requires a red left child. */
  function RightRotated<V>(nodes: seq<RbNode<V>>, x: int): (r: seq<RbNode<V>>)
    requires LinksInRange(nodes) && 0 <= x < |nodes| && IsRed(nodes, nodes[x].left)
    ensures LinksInRange(r) && SamePayload(nodes, r)
    ensures forall j :: 0 <= j < |r| && j != x && j != nodes[x].left ==> r[j] == nodes[j]
    ensures var y := nodes[x].left;
      x != y ==>
        && r[x] == nodes[x].(left := nodes[y].right, color := Red, parent := y)
        && r[y] == nodes[y].(right := x, color := nodes[x].color, parent := nodes[x].parent)
  {
    var y := nodes[x].left;
    var n1 := nodes[x := nodes[x].(left := nodes[y].right)];
    var n2 := n1[y := n1[y].(right := x)];
    var n3 := n2[y := n2[y].(color := n2[x].color)];
    var n4 := n3[x := n3[x].(color := Red)];
    var n5 := n4[y := n4[y].(parent := n4[x].parent)];
    n5[x := n5[x].(parent := y)]
  }

  /**
   * leftRotateWithParent (RBTree.h:205-221): nothing for nullptr; otherwise
   * the rotated subtree goes where x hung, in root_ or in the slot of x's
   * parent that held x (the right slot whenever the left one did not).
   */
  function LeftRotatedWithParent<V>(a: Arena<V>, x: int): (r: Arena<V>)
    requires Wf(a) && Link(a.nodes, x) && (x != NIL ==> IsRed(a.nodes, a.nodes[x].right))
    ensures Wf(r) && SamePayload(a.nodes, r.nodes)
    ensures x == NIL ==> r == a
    ensures x != NIL ==>
      var p, y := a.nodes[x].parent, a.nodes[x].right;
      && (p == NIL ==> r.root == y && r.nodes == LeftRotated(a.nodes, x))
      && (p != NIL ==> r.root == a.root)
      && (p != NIL && a.nodes[p].left == x ==> r.nodes[p].left == y)
      && (p != NIL && a.nodes[p].left != x ==> r.nodes[p].right == y)
    ensures x != NIL && a.nodes[x].parent != NIL ==>
      forall j :: 0 <= j < |r.nodes| && j != a.nodes[x].parent ==> r.nodes[j] == LeftRotated(a.nodes, x)[j]
  {
    if x == NIL then a
    else
      var p := a.nodes[x].parent;
      var y := a.nodes[x].right;
      var n := LeftRotated(a.nodes, x);
      if p == NIL then Arena(n, y)
      else
        var q := if a.nodes[p].left == x then n[p].(left := y) else n[p].(right := y);
        Relinked(n, p, q);
        Arena(n[p := q], a.root)
  }

  /** rightRotateWithParent (RBTree.h:224-240), the mirror image. */
  function RightRotatedWithParent<V>(a: Arena<V>, x: int): (r: Arena<V>)
    requires Wf(a) && Link(a.nodes, x) && (x != NIL ==> IsRed(a.nodes, a.nodes[x].left))
    ensures Wf(r) && SamePayload(a.nodes, r.nodes)
    ensures x == NIL ==> r == a
    ensures x != NIL ==>
      var p, y := a.nodes[x].parent, a.nodes[x].left;
      && (p == NIL ==> r.root == y && r.nodes == RightRotated(a.nodes, x))
      && (p != NIL ==> r.root == a.root)
      && (p != NIL && a.nodes[p].left == x ==> r.nodes[p].left == y)
      && (p != NIL && a.nodes[p].left != x ==> r.nodes[p].right == y)
    ensures x != NIL && a.nodes[x].parent != NIL ==>
      forall j :: 0 <= j < |r.nodes| && j != a.nodes[x].parent ==> r.nodes[j] == RightRotated(a.nodes, x)[j]
  {
    if x == NIL then a
    else
      var p := a.nodes[x].parent;
      var y := a.nodes[x].left;
      var n := RightRotated(a.nodes, x);
      if p == NIL then Arena(n, y)
      else
        var q := if a.nodes[p].left == x then n[p].(left := y) else n[p].(right := y);
        Relinked(n, p, q);
        Arena(n[p := q], a.root)
  }

  /**
   * flipColor (RBTree.h:243-251), whose asserts require both children: x
   * turns red and its children black; no link and no other node changes.
   */
  function Flipped<V>(nodes: seq<RbNode<V>>, x: int): (r: seq<RbNode<V>>)
    requires LinksInRange(nodes) && 0 <= x < |nodes|
    requires nodes[x].left != NIL && nodes[x].right != NIL
    ensures LinksInRange(r) && SamePayload(nodes, r)
    ensures r[nodes[x].left].color == Black && r[nodes[x].right].color == Black
    ensures x != nodes[x].left && x != nodes[x].right ==> r[x].color == Red
    ensures forall j :: 0 <= j < |r| ==> r[j] == nodes[j].(color := r[j].color)
    ensures forall j :: 0 <= j < |r| && j != x && j != nodes[x].left && j != nodes[x].right ==> r[j] == nodes[j]
  {
    var n1 := nodes[x := nodes[x].(color := Red)];
    var l := n1[x].left;
    var n2 := n1[l := n1[l].(color := Black)];
    var rt := n2[x].right;
    var r := n2[rt := n2[rt].(color := Black)];
    assert forall j :: 0 <= j < |r| ==> r[j] == nodes[j].(color := r[j].color);
    RecoloredKeeps(nodes, r);
    r
  }

  /** A new colouring of the same nodes keeps every link and every key and value. */
  lemma RecoloredKeeps<V>(nodes: seq<RbNode<V>>, r: seq<RbNode<V>>)
    requires LinksInRange(nodes) && |r| == |nodes|
    requires forall j :: 0 <= j < |r| ==> r[j] == nodes[j].(color := r[j].color)
    ensures LinksInRange(r) && SamePayload(nodes, r)
  {
    forall i | 0 <= i < |r|
      ensures Link(r, r[i].left) && Link(r, r[i].right) && Link(r, r[i].parent)
    {
      assert r[i].left == nodes[i].left && r[i].right == nodes[i].right && r[i].parent == nodes[i].parent;
    }
  }

  /**
   * transplant (RBTree.h:146-158), which dereferences both nodes: v takes
   * u's place in root_ or in u's parent's slot, and u's parent link.
   */
  function Transplanted<V>(a: Arena<V>, u: int, v: int): (r: Arena<V>)
    requires Wf(a) && 0 <= u < |a.nodes| && 0 <= v < |a.nodes|
    ensures Wf(r) && SamePayload(a.nodes, r.nodes)
    ensures r.nodes[v].parent == a.nodes[u].parent
    ensures var p := a.nodes[u].parent;
      && (p == NIL ==> r.root == v)
      && (p != NIL ==> r.root == a.root)
      && (p != NIL && a.nodes[p].left == u ==> r.nodes[p].left == v)
      && (p != NIL && a.nodes[p].left != u ==> r.nodes[p].right == v)
    ensures forall j :: 0 <= j < |r.nodes| && j != v && j != a.nodes[u].parent ==> r.nodes[j] == a.nodes[j]
  {
    var p := a.nodes[u].parent;
    var b := (
      if p == NIL then Arena(a.nodes, v)
      else
        var q := if a.nodes[p].left == u then a.nodes[p].(left := v) else a.nodes[p].(right := v);
        Relinked(a.nodes, p, q);
        Arena(a.nodes[p := q], a.root));
    var w := b.nodes[v].(parent := b.nodes[u].parent);
    Relinked(b.nodes, v, w);
    Arena(b.nodes[v := w], b.root)
  }

  /** Overwriting one record with in-range links and the same key and value keeps both properties. */
  lemma Relinked<V>(nodes: seq<RbNode<V>>, i: int, n: RbNode<V>)
    requires LinksInRange(nodes) && 0 <= i < |nodes|
    requires n.key == nodes[i].key && n.val == nodes[i].val
    requires Link(nodes, n.left) && Link(nodes, n.right) && Link(nodes, n.parent)
    ensures LinksInRange(nodes[i := n]) && SamePayload(nodes, nodes[i := n])
  {
  }

  // ----- The tree the child links describe -----

  /** The shape of a subtree: which arena index sits at each position. */
  datatype Shape = Nil | Fork(at: int, left: Shape, right: Shape)

  ghost function Indices(s: Shape): set<int>
  {
    match s
    case Nil => {}
    case Fork(j, l, r) => {j} + Indices(l) + Indices(r)
  }

  ghost function Size(s: Shape): nat
  {
    match s
    case Nil => 0
    case Fork(_, l, r) => Size(l) + 1 + Size(r)
  }

  /** No index occurs twice: the child links form a tree, not a shared graph. */
  ghost predicate Distinct(s: Shape)
  {
    match s
    case Nil => true
    case Fork(j, l, r) =>
      j !in Indices(l) && j !in Indices(r) && Indices(l) !! Indices(r) && Distinct(l) && Distinct(r)
  }

  /** Following the left and right links from i gives exactly the shape s. */
  ghost predicate Spans<V>(nodes: seq<RbNode<V>>, i: int, s: Shape)
    decreases s
  {
    match s
    case Nil => i == NIL
    case Fork(j, l, r) =>
      && i == j && 0 <= j < |nodes|
      && Spans(nodes, nodes[j].left, l) && Spans(nodes, nodes[j].right, r)
  }

  /** The search tree (of Bst) that the subtree at i spells out. */
  ghost function Abs<V>(nodes: seq<RbNode<V>>, i: int, s: Shape): Bst.Tree<V>
    requires Spans(nodes, i, s)
    decreases s
  {
    match s
    case Nil => Bst.Leaf
    case Fork(j, l, r) =>
      Bst.Node(nodes[j].key, nodes[j].val, Abs(nodes, nodes[j].left, l), Abs(nodes, nodes[j].right, r))
  }

  /** Two records agree on everything Spans and Abs look at. */
  ghost predicate SameTreePart<V>(m: RbNode<V>, n: RbNode<V>)
  {
    m.key == n.key && m.val == n.val && m.left == n.left && m.right == n.right
  }

  lemma {:induction false} SpansWithin<V>(nodes: seq<RbNode<V>>, i: int, s: Shape)
    requires Spans(nodes, i, s)
    ensures forall j :: j in Indices(s) ==> 0 <= j < |nodes|
    decreases s
  {
    match s
    case Nil =>
    case Fork(j, l, r) =>
      SpansWithin(nodes, nodes[j].left, l);
      SpansWithin(nodes, nodes[j].right, r);
  }

  /** A subtree survives any change, or growth of the arena, that leaves its own nodes alone. */
  lemma {:induction false} SpansFrame<V>(nodes: seq<RbNode<V>>, nodes': seq<RbNode<V>>, i: int, s: Shape)
    requires Spans(nodes, i, s) && |nodes| <= |nodes'|
    requires forall j :: j in Indices(s) && 0 <= j < |nodes| ==> SameTreePart(nodes[j], nodes'[j])
    ensures Spans(nodes', i, s) && Abs(nodes', i, s) == Abs(nodes, i, s)
    decreases s
  {
    match s
    case Nil =>
    case Fork(j, l, r) =>
      assert SameTreePart(nodes[j], nodes'[j]);
      SpansFrame(nodes, nodes', nodes[j].left, l);
      SpansFrame(nodes, nodes', nodes[j].right, r);
  }

  /**
   * r links x and y as y(x(a, b), c) and leaves every other node as nodes
   * has it, so the subtrees a, b and c still hang below.
   */
  lemma LeftRelinked<V>(nodes: seq<RbNode<V>>, r: seq<RbNode<V>>, x: int, y: int,
                        ia: int, ib: int, ic: int, a: Shape, b: Shape, c: Shape)
    requires Spans(nodes, ia, a) && Spans(nodes, ib, b) && Spans(nodes, ic, c)
    requires |nodes| == |r| && 0 <= x < |r| && 0 <= y < |r| && x != y
    requires x !in Indices(a) + Indices(b) + Indices(c) && y !in Indices(a) + Indices(b) + Indices(c)
    requires forall j :: 0 <= j < |r| && j != x && j != y ==> r[j] == nodes[j]
    requires r[x].left == ia && r[x].right == ib && r[y].left == x && r[y].right == ic
    ensures Spans(r, y, Fork(y, Fork(x, a, b), c))
    ensures Abs(r, y, Fork(y, Fork(x, a, b), c))
      == Bst.Node(r[y].key, r[y].val, Bst.Node(r[x].key, r[x].val, Abs(nodes, ia, a), Abs(nodes, ib, b)), Abs(nodes, ic, c))
  {
    SpansWithin(nodes, ia, a);
    SpansWithin(nodes, ib, b);
    SpansWithin(nodes, ic, c);
    SpansFrame(nodes, r, ia, a);
    SpansFrame(nodes, r, ib, b);
    SpansFrame(nodes, r, ic, c);
  }

  /** r links x and y as y(a, x(b, c)) and leaves every other node alone. */
  lemma RightRelinked<V>(nodes: seq<RbNode<V>>, r: seq<RbNode<V>>, x: int, y: int,
                         ia: int, ib: int, ic: int, a: Shape, b: Shape, c: Shape)
    requires Spans(nodes, ia, a) && Spans(nodes, ib, b) && Spans(nodes, ic, c)
    requires |nodes| == |r| && 0 <= x < |r| && 0 <= y < |r| && x != y
    requires x !in Indices(a) + Indices(b) + Indices(c) && y !in Indices(a) + Indices(b) + Indices(c)
    requires forall j :: 0 <= j < |r| && j != x && j != y ==> r[j] == nodes[j]
    requires r[y].left == ia && r[y].right == x && r[x].left == ib && r[x].right == ic
    ensures Spans(r, y, Fork(y, a, Fork(x, b, c)))
    ensures Abs(r, y, Fork(y, a, Fork(x, b, c)))
      == Bst.Node(r[y].key, r[y].val, Abs(nodes, ia, a), Bst.Node(r[x].key, r[x].val, Abs(nodes, ib, b), Abs(nodes, ic, c)))
  {
    SpansWithin(nodes, ia, a);
    SpansWithin(nodes, ib, b);
    SpansWithin(nodes, ic, c);
    SpansFrame(nodes, r, ia, a);
    SpansFrame(nodes, r, ib, b);
    SpansFrame(nodes, r, ic, c);
  }

  /** Rotating a shape keeps its nodes distinct. */
  lemma RotatedDistinct(x: int, y: int, a: Shape, b: Shape, c: Shape)
    requires Distinct(Fork(x, a, Fork(y, b, c)))
    ensures Distinct(Fork(y, Fork(x, a, b), c))
  {
  }

  /** A rotation of a search tree lists the same pairs in order. */
  lemma RotatedInOrder<V>(kx: int, vx: V, ky: int, vy: V, A: Bst.Tree<V>, B: Bst.Tree<V>, C: Bst.Tree<V>)
    ensures Bst.InOrder(Bst.Node(ky, vy, Bst.Node(kx, vx, A, B), C)) == Bst.InOrder(Bst.Node(kx, vx, A, Bst.Node(ky, vy, B, C)))
  {
    assert Bst.InOrder(Bst.Node(ky, vy, Bst.Node(kx, vx, A, B), C))
      == Bst.InOrder(A) + [(kx, vx)] + Bst.InOrder(B) + [(ky, vy)] + Bst.InOrder(C);
  }

  /**
   * leftRotate keeps the in-order listing: the subtree x(a, y(b, c)) becomes
   * y(x(a, b), c) over the same nodes, still a tree; y takes x's colour and
   * x turns red.
   */
  lemma LeftRotatedListing<V>(nodes: seq<RbNode<V>>, x: int, y: int, a: Shape, b: Shape, c: Shape)
    requires LinksInRange(nodes) && 0 <= x < |nodes| && nodes[x].right == y && IsRed(nodes, y)
    requires Spans(nodes, x, Fork(x, a, Fork(y, b, c))) && Distinct(Fork(x, a, Fork(y, b, c)))
    ensures var r := LeftRotated(nodes, x);
      && Spans(r, y, Fork(y, Fork(x, a, b), c)) && Distinct(Fork(y, Fork(x, a, b), c))
      && Bst.InOrder(Abs(r, y, Fork(y, Fork(x, a, b), c))) == Bst.InOrder(Abs(nodes, x, Fork(x, a, Fork(y, b, c))))
      && r[y].color == nodes[x].color && r[x].color == Red
  {
    var r := LeftRotated(nodes, x);
    var ia, ib, ic := nodes[x].left, nodes[y].left, nodes[y].right;
    RotatedDistinct(x, y, a, b, c);
    LeftRelinked(nodes, r, x, y, ia, ib, ic, a, b, c);
    RotatedInOrder(nodes[x].key, nodes[x].val, nodes[y].key, nodes[y].val, Abs(nodes, ia, a), Abs(nodes, ib, b), Abs(nodes, ic, c));
  }

  /** rightRotate keeps the in-order listing: x(y(a, b), c) becomes y(a, x(b, c)). */
  lemma RightRotatedListing<V>(nodes: seq<RbNode<V>>, x: int, y: int, a: Shape, b: Shape, c: Shape)
    requires LinksInRange(nodes) && 0 <= x < |nodes| && nodes[x].left == y && IsRed(nodes, y)
    requires Spans(nodes, x, Fork(x, Fork(y, a, b), c)) && Distinct(Fork(x, Fork(y, a, b), c))
    ensures var r := RightRotated(nodes, x);
      && Spans(r, y, Fork(y, a, Fork(x, b, c))) && Distinct(Fork(y, a, Fork(x, b, c)))
      && Bst.InOrder(Abs(r, y, Fork(y, a, Fork(x, b, c)))) == Bst.InOrder(Abs(nodes, x, Fork(x, Fork(y, a, b), c)))
      && r[y].color == nodes[x].color && r[x].color == Red
  {
    var r := RightRotated(nodes, x);
    var ia, ib, ic := nodes[y].left, nodes[y].right, nodes[x].right;
    RotatedDistinct(y, x, a, b, c);
    RightRelinked(nodes, r, x, y, ia, ib, ic, a, b, c);
    RotatedInOrder(nodes[y].key, nodes[y].val, nodes[x].key, nodes[x].val, Abs(nodes, ia, a), Abs(nodes, ib, b), Abs(nodes, ic, c));
  }

  // ----- Counting nodes -----

  lemma {:induction false} IndicesCount(s: Shape)
    requires Distinct(s)
    ensures |Indices(s)| == Size(s)
  {
    match s
    case Nil =>
    case Fork(j, l, r) =>
      IndicesCount(l);
      IndicesCount(r);
      assert Indices(s) == {j} + (Indices(l) + Indices(r));
  }

  /** A set of indices below n has at most n members. */
  lemma {:induction false} BoundedCount(indices: set<int>, n: nat)
    requires forall j :: j in indices ==> 0 <= j < n
    ensures |indices| <= n
  {
    if n == 0 {
      assert indices == {} by {
        forall j | j in indices ensures false { }
      }
    } else {
      BoundedCount(indices - {n - 1}, n - 1);
    }
  }

  /** A tree over the arena has at most as many nodes as the arena. */
  lemma SizeBound<V>(nodes: seq<RbNode<V>>, i: int, s: Shape)
    requires Spans(nodes, i, s) && Distinct(s)
    ensures Size(s) <= |nodes|
  {
    SpansWithin(nodes, i, s);
    IndicesCount(s);
    BoundedCount(Indices(s), |nodes|);
  }

  // ----- minimum and maximum -----

  /** minimum (RBTree.h:111-126): the end of the left links from x; nullptr for nullptr. */
  function Minimum<V>(nodes: seq<RbNode<V>>, x: int, ghost s: Shape): (m: int)
    requires Spans(nodes, x, s)
    ensures m == NIL <==> x == NIL
    ensures m != NIL ==> 0 <= m < |nodes| && nodes[m].left == NIL
    decreases s
  {
    if x == NIL then NIL
    else if nodes[x].left == NIL then x
    else Minimum(nodes, nodes[x].left, s.left)
  }

  /** maximum (RBTree.h:128-143): the end of the right links from x; nullptr for nullptr. */
  function Maximum<V>(nodes: seq<RbNode<V>>, x: int, ghost s: Shape): (m: int)
    requires Spans(nodes, x, s)
    ensures m == NIL <==> x == NIL
    ensures m != NIL ==> 0 <= m < |nodes| && nodes[m].right == NIL
    decreases s
  {
    if x == NIL then NIL
    else if nodes[x].right == NIL then x
    else Maximum(nodes, nodes[x].right, s.right)
  }

  /**
   * minimum finds the pair the search tree's smallest node holds; when the
   * keys are ordered, its key is the smallest key below x.
   */
  lemma {:induction false} MinimumAgrees<V>(nodes: seq<RbNode<V>>, x: int, s: Shape)
    requires Spans(nodes, x, s) && x != NIL
    ensures var m, t := Minimum(nodes, x, s), Bst.MinNode(Abs(nodes, x, s));
      && t.Node? && t.key == nodes[m].key && t.value == nodes[m].val
      && (Bst.Ordered(Abs(nodes, x, s)) ==> forall k :: k in Bst.Keys(Abs(nodes, x, s)) ==> nodes[m].key <= k)
    decreases s
  {
    if nodes[x].left != NIL {
      MinimumAgrees(nodes, nodes[x].left, s.left);
    }
  }

  /** maximum finds the pair of the search tree's largest node. */
  lemma {:induction false} MaximumAgrees<V>(nodes: seq<RbNode<V>>, x: int, s: Shape)
    requires Spans(nodes, x, s) && x != NIL
    ensures var m, t := Maximum(nodes, x, s), Bst.MaxNode(Abs(nodes, x, s));
      && t.Node? && t.key == nodes[m].key && t.value == nodes[m].val
      && (Bst.Ordered(Abs(nodes, x, s)) ==> forall k :: k in Bst.Keys(Abs(nodes, x, s)) ==> k <= nodes[m].key)
    decreases s
  {
    if nodes[x].right != NIL {
      MaximumAgrees(nodes, nodes[x].right, s.right);
    }
  }

  // ----- insert: the descent and the new node -----

  /** Where the descent of insert stops. */
  datatype Found = Present(at: int) | Absent(parent: int) | Lost

  /**
   * The loop of insert (RBTree.h:290-303) from the cursor cur, par being the
   * last node visited: it stops at a node holding key, or at nullptr below
   * par.  fuel bounds the number of nodes visited; Lost means it ran out.
   */
  function Descend<V>(nodes: seq<RbNode<V>>, cur: int, par: int, key: int, fuel: nat): (f: Found)
    requires LinksInRange(nodes) && Link(nodes, cur) && Link(nodes, par)
    ensures f.Present? ==> 0 <= f.at < |nodes| && nodes[f.at].key == key
    ensures f.Absent? ==> Link(nodes, f.parent)
    decreases fuel
  {
    if cur == NIL then Absent(par)
    else if fuel == 0 then Lost
    else if key > nodes[cur].key then Descend(nodes, nodes[cur].right, cur, key, fuel - 1)
    else if key < nodes[cur].key then Descend(nodes, nodes[cur].left, cur, key, fuel - 1)
    else Present(cur)
  }

  /**
   * The rest of insert before its fix-up (RBTree.h:305-316): a new red node
   * at index |nodes| whose parent is par, hung as root_ when par is nullptr,
   * else as par's left child when key is below par's key and as its right
   * child otherwise.  No other node changes.
   */
  function Attach<V>(a: Arena<V>, key: int, val: V, par: int): (r: Arena<V>)
    requires Wf(a) && Link(a.nodes, par)
    ensures Wf(r) && |r.nodes| == |a.nodes| + 1
    ensures r.nodes[|a.nodes|] == RbNode(key, val, NIL, NIL, par, Red)
    ensures par == NIL ==> r.root == |a.nodes|
    ensures par != NIL ==>
      && r.root == a.root
      && (key < a.nodes[par].key ==> r.nodes[par] == a.nodes[par].(left := |a.nodes|))
      && (key >= a.nodes[par].key ==> r.nodes[par] == a.nodes[par].(right := |a.nodes|))
    ensures forall j :: 0 <= j < |a.nodes| && j != par ==> r.nodes[j] == a.nodes[j]
  {
    var n := |a.nodes|;
    var nodes := a.nodes + [RbNode(key, val, NIL, NIL, NIL, Red)];
    var nodes := nodes[n := nodes[n].(parent := par)];
    if par == NIL then Arena(nodes, n)
    else if key < nodes[par].key then Arena(nodes[par := nodes[par].(left := n)], a.root)
    else Arena(nodes[par := nodes[par].(right := n)], a.root)
  }

  /** Lines 299-301: the node holding key gets the new value, nothing else changes. */
  function Overwritten<V>(a: Arena<V>, i: int, val: V): (r: Arena<V>)
    requires Wf(a) && 0 <= i < |a.nodes|
    ensures Wf(r) && |r.nodes| == |a.nodes| && r.root == a.root
    ensures r.nodes[i] == a.nodes[i].(val := val)
    ensures forall j :: 0 <= j < |a.nodes| && j != i ==> r.nodes[j] == a.nodes[j]
  {
    Arena(a.nodes[i := a.nodes[i].(val := val)], a.root)
  }

  /** The shape the subtree at i takes once a node at index n holding key hangs where the descent ends. */
  ghost function Grown<V>(nodes: seq<RbNode<V>>, i: int, s: Shape, key: int, n: int): Shape
    requires Spans(nodes, i, s)
    decreases s
  {
    match s
    case Nil => Fork(n, Nil, Nil)
    case Fork(j, l, r) =>
      if key > nodes[j].key then Fork(j, l, Grown(nodes, nodes[j].right, r, key, n))
      else if key < nodes[j].key then Fork(j, Grown(nodes, nodes[j].left, l, key, n), r)
      else s
  }

  /** A descent through a tree of at most fuel nodes never runs out of fuel. */
  lemma {:induction false} DescendEnds<V>(nodes: seq<RbNode<V>>, cur: int, par: int, s: Shape, key: int, fuel: nat)
    requires LinksInRange(nodes) && Link(nodes, par) && Spans(nodes, cur, s) && Size(s) <= fuel
    ensures Link(nodes, cur) && !Descend(nodes, cur, par, key, fuel).Lost?
    decreases s
  {
    match s
    case Nil =>
    case Fork(j, l, r) =>
      if key > nodes[j].key {
        DescendEnds(nodes, nodes[j].right, j, r, key, fuel - 1);
      } else if key < nodes[j].key {
        DescendEnds(nodes, nodes[j].left, j, l, key, fuel - 1);
      }
  }

  /**
   * When the descent finds key at i, overwriting i's value is what put does
   * to the search tree: the same shape, only key's value new, no node added.
   */
  lemma {:induction false} OverwriteAgrees<V>(a: Arena<V>, cur: int, par: int, s: Shape, key: int, val: V, fuel: nat, i: int)
    requires Wf(a) && Link(a.nodes, par) && Spans(a.nodes, cur, s) && Distinct(s)
    requires Link(a.nodes, cur) && Descend(a.nodes, cur, par, key, fuel) == Present(i)
    ensures var r := Overwritten(a, i, val).nodes; var e := Bst.Insert(Abs(a.nodes, cur, s), key, val);
      && i in Indices(s) && Spans(r, cur, s) && Abs(r, cur, s) == e.root && e.delta == 0
    decreases s
  {
    var r := Overwritten(a, i, val).nodes;
    match s
    case Fork(j, l, rt) =>
      var il, ir := a.nodes[j].left, a.nodes[j].right;
      SpansWithin(a.nodes, il, l);
      SpansWithin(a.nodes, ir, rt);
      if key > a.nodes[j].key {
        OverwriteAgrees(a, ir, j, rt, key, val, fuel - 1, i);
        SpansFrame(a.nodes, r, il, l);
      } else if key < a.nodes[j].key {
        OverwriteAgrees(a, il, j, l, key, val, fuel - 1, i);
        SpansFrame(a.nodes, r, ir, rt);
      } else {
        SpansFrame(a.nodes, r, il, l);
        SpansFrame(a.nodes, r, ir, rt);
      }
  }

  /** The descent ends below par when cur is nullptr, and otherwise at a node of the subtree. */
  lemma {:induction false} DescendParent<V>(nodes: seq<RbNode<V>>, cur: int, par: int, s: Shape, key: int, fuel: nat, p: int)
    requires LinksInRange(nodes) && Link(nodes, par) && Spans(nodes, cur, s)
    requires Link(nodes, cur) && Descend(nodes, cur, par, key, fuel) == Absent(p)
    ensures s == Nil ==> p == par
    ensures s != Nil ==> p in Indices(s)
    ensures s.Fork? && s.left == Nil && key < nodes[cur].key ==> p == cur
    ensures s.Fork? && s.right == Nil && key > nodes[cur].key ==> p == cur
    decreases s
  {
    match s
    case Nil =>
    case Fork(j, l, r) =>
      if key > nodes[j].key {
        DescendParent(nodes, nodes[j].right, j, r, key, fuel - 1, p);
      } else if key < nodes[j].key {
        DescendParent(nodes, nodes[j].left, j, l, key, fuel - 1, p);
      }
  }

  /** Growing a tree by a fresh index n keeps its indices distinct. */
  lemma {:induction false} GrownDistinct<V>(nodes: seq<RbNode<V>>, i: int, s: Shape, key: int, n: int)
    requires Spans(nodes, i, s) && Distinct(s) && n !in Indices(s)
    ensures Distinct(Grown(nodes, i, s, key, n))
    ensures Indices(Grown(nodes, i, s, key, n)) <= Indices(s) + {n}
    decreases s
  {
    match s
    case Nil =>
    case Fork(j, l, r) =>
      GrownDistinct(nodes, nodes[j].left, l, key, n);
      GrownDistinct(nodes, nodes[j].right, r, key, n);
  }

  /**
   * r is nodes with a new node n = |nodes| hung below p (the second
   * requires); a subtree whose nodes avoid p reads the same in r.
   */
  ghost predicate HungBelow<V>(nodes: seq<RbNode<V>>, r: seq<RbNode<V>>, key: int, val: V, p: int)
    requires Link(nodes, p)
  {
    && |r| == |nodes| + 1 && r[|nodes|] == RbNode(key, val, NIL, NIL, p, Red)
    && (forall j :: 0 <= j < |nodes| && j != p ==> r[j] == nodes[j])
    && (p != NIL ==> r[p] == if key < nodes[p].key then nodes[p].(left := |nodes|) else nodes[p].(right := |nodes|))
  }

  /** One step of HungAgrees: the new node went into the right subtree of j. */
  lemma HungRight<V>(nodes: seq<RbNode<V>>, r: seq<RbNode<V>>, j: int, l: Shape, rt: Shape, key: int, val: V, p: int)
    requires Link(nodes, p) && HungBelow(nodes, r, key, val, p)
    requires Spans(nodes, j, Fork(j, l, rt)) && Distinct(Fork(j, l, rt)) && key > nodes[j].key
    requires rt == Nil ==> p == j
    requires rt != Nil ==> p in Indices(rt)
    requires var ir := nodes[j].right; var ir' := if ir == NIL then |nodes| else ir;
      && Spans(r, ir', Grown(nodes, ir, rt, key, |nodes|))
      && Abs(r, ir', Grown(nodes, ir, rt, key, |nodes|)) == Bst.Insert(Abs(nodes, ir, rt), key, val).root
    ensures Spans(r, j, Grown(nodes, j, Fork(j, l, rt), key, |nodes|))
    ensures Abs(r, j, Grown(nodes, j, Fork(j, l, rt), key, |nodes|)) == Bst.Insert(Abs(nodes, j, Fork(j, l, rt)), key, val).root
  {
    var il := nodes[j].left;
    SpansWithin(nodes, il, l);
    assert p !in Indices(l);
    SpansFrame(nodes, r, il, l);
    assert r[j].left == il;
  }

  /** One step of HungAgrees: the new node went into the left subtree of j. */
  lemma HungLeft<V>(nodes: seq<RbNode<V>>, r: seq<RbNode<V>>, j: int, l: Shape, rt: Shape, key: int, val: V, p: int)
    requires Link(nodes, p) && HungBelow(nodes, r, key, val, p)
    requires Spans(nodes, j, Fork(j, l, rt)) && Distinct(Fork(j, l, rt)) && key < nodes[j].key
    requires l == Nil ==> p == j
    requires l != Nil ==> p in Indices(l)
    requires var il := nodes[j].left; var il' := if il == NIL then |nodes| else il;
      && Spans(r, il', Grown(nodes, il, l, key, |nodes|))
      && Abs(r, il', Grown(nodes, il, l, key, |nodes|)) == Bst.Insert(Abs(nodes, il, l), key, val).root
    ensures Spans(r, j, Grown(nodes, j, Fork(j, l, rt), key, |nodes|))
    ensures Abs(r, j, Grown(nodes, j, Fork(j, l, rt), key, |nodes|)) == Bst.Insert(Abs(nodes, j, Fork(j, l, rt)), key, val).root
  {
    var ir := nodes[j].right;
    SpansWithin(nodes, ir, rt);
    assert p !in Indices(rt);
    SpansFrame(nodes, r, ir, rt);
    assert r[j].right == ir;
  }

  /**
   * r is the arena after the new node n = |nodes| is hung below p: the
   * subtree at cur, grown by n, is what put makes of it.
   */
  lemma {:induction false} HungAgrees<V>(nodes: seq<RbNode<V>>, r: seq<RbNode<V>>, cur: int, par: int, s: Shape,
                                         key: int, val: V, fuel: nat, p: int)
    requires LinksInRange(nodes) && Link(nodes, par) && Spans(nodes, cur, s) && Distinct(s)
    requires Link(nodes, cur) && Descend(nodes, cur, par, key, fuel) == Absent(p)
    requires HungBelow(nodes, r, key, val, p)
    ensures var n := |nodes|;
      && Spans(r, if cur == NIL then n else cur, Grown(nodes, cur, s, key, n))
      && Abs(r, if cur == NIL then n else cur, Grown(nodes, cur, s, key, n)) == Bst.Insert(Abs(nodes, cur, s), key, val).root
    decreases s
  {
    match s
    case Nil =>
    case Fork(j, l, rt) =>
      if key > nodes[j].key {
        HungAgrees(nodes, r, nodes[j].right, j, rt, key, val, fuel - 1, p);
        DescendParent(nodes, nodes[j].right, j, rt, key, fuel - 1, p);
        HungRight(nodes, r, j, l, rt, key, val, p);
      } else {
        HungAgrees(nodes, r, nodes[j].left, j, l, key, val, fuel - 1, p);
        DescendParent(nodes, nodes[j].left, j, l, key, fuel - 1, p);
        HungLeft(nodes, r, j, l, rt, key, val, p);
      }
  }

  /** A key that the descent does not find makes put add a node. */
  lemma {:induction false} AbsentAdds<V>(nodes: seq<RbNode<V>>, cur: int, par: int, s: Shape, key: int, val: V, fuel: nat, p: int)
    requires LinksInRange(nodes) && Link(nodes, par) && Spans(nodes, cur, s)
    requires Link(nodes, cur) && Descend(nodes, cur, par, key, fuel) == Absent(p)
    ensures Bst.Insert(Abs(nodes, cur, s), key, val).delta == 1
    decreases s
  {
    match s
    case Nil =>
    case Fork(j, l, rt) =>
      if key > nodes[j].key {
        AbsentAdds(nodes, nodes[j].right, j, rt, key, val, fuel - 1, p);
      } else {
        AbsentAdds(nodes, nodes[j].left, j, l, key, val, fuel - 1, p);
      }
  }

  /**
   * When the descent ends at nullptr below p, attaching the new node there is
   * what put does to the search tree: one node more, holding key and val,
   * where the search for key ends, and still a tree.
   */
  lemma AttachAgrees<V>(a: Arena<V>, s: Shape, key: int, val: V, p: int)
    requires Wf(a) && Spans(a.nodes, a.root, s) && Distinct(s)
    requires Descend(a.nodes, a.root, NIL, key, |a.nodes|) == Absent(p)
    ensures var b, g := Attach(a, key, val, p), Grown(a.nodes, a.root, s, key, |a.nodes|);
      && Spans(b.nodes, b.root, g) && Distinct(g)
      && Abs(b.nodes, b.root, g) == Bst.Insert(Abs(a.nodes, a.root, s), key, val).root
      && Bst.Insert(Abs(a.nodes, a.root, s), key, val).delta == 1
  {
    var b := Attach(a, key, val, p);
    SpansWithin(a.nodes, a.root, s);
    DescendParent(a.nodes, a.root, NIL, s, key, |a.nodes|, p);
    GrownDistinct(a.nodes, a.root, s, key, |a.nodes|);
    HungAgrees(a.nodes, b.nodes, a.root, NIL, s, key, val, |a.nodes|, p);
    AbsentAdds(a.nodes, a.root, NIL, s, key, val, |a.nodes|, p);
  }

  // ----- insertFixUp (RBTree.h:253-285) -----

  /**
   * The two readings of the mirror branch (RBTree.h:269-280).  AsWritten
   * takes the uncle from the grandparent's right link (line 270), which is
   * the parent itself, and moves x up to its parent after the first rotation
   * (line 277), which is the grandparent by then.  Textbook is the mirror
   * image of the left branch (257-268): the uncle is the grandparent's left
   * child and x moves to its right child, the old parent.
   */
  datatype Variant = AsWritten | Textbook

  /** What one pass of the loop body leaves: go round again from x, or stop. */
  datatype Move = Continue(x: int) | Halt(outcome: Outcome)

  datatype Stepped<V> = Stepped(a: Arena<V>, move: Move)

  /**
   * The last statement of either branch (lines 267 and 279): rotate
   * x's grandparent, rightwards when toRight holds, and go round again
   * from the same x.  Following a nullptr x or parent of x is a crash; a
   * nullptr grandparent makes the WithParent rotation do nothing; otherwise
   * the rotation's assert wants a red child on the side it lifts.
   */
  function GrandparentRotated<V>(a: Arena<V>, x: int, toRight: bool): (st: Stepped<V>)
    requires Wf(a) && Link(a.nodes, x)
    ensures Wf(st.a) && SamePayload(a.nodes, st.a.nodes)
    ensures st.move.Continue? ==> st.move.x == x
    ensures st.move.Halt? ==> st.move.outcome != Returned
  {
    if x == NIL || a.nodes[x].parent == NIL then Stepped(a, Halt(NullDereference))
    else
      var g := a.nodes[a.nodes[x].parent].parent;
      if g == NIL then Stepped(a, Continue(x))
      else if toRight then
        if IsRed(a.nodes, a.nodes[g].left) then Stepped(RightRotatedWithParent(a, g), Continue(x))
        else Stepped(a, Halt(AssertionFailed))
      else
        if IsRed(a.nodes, a.nodes[g].right) then Stepped(LeftRotatedWithParent(a, g), Continue(x))
        else Stepped(a, Halt(AssertionFailed))
  }

  /**
   * One pass of the loop body of insertFixUp (lines 257-281), entered with
   * x's parent red.  A red uncle: flip the grandparent's colours and move x
   * up to it.  Otherwise: when x is the inner grandchild, rotate the parent
   * first (its assert wants x red) and move x; then rotate the grandparent.
   */
  function FixBody<V>(a: Arena<V>, x: int, variant: Variant): (st: Stepped<V>)
    requires Wf(a) && 0 <= x < |a.nodes| && IsRed(a.nodes, a.nodes[x].parent)
    ensures Wf(st.a) && SamePayload(a.nodes, st.a.nodes)
    ensures st.move.Continue? ==> Link(st.a.nodes, st.move.x)
    ensures st.move.Halt? ==> st.move.outcome != Returned
  {
    var n := a.nodes;
    var p := n[x].parent;
    var g := n[p].parent;
    if g == NIL then Stepped(a, Halt(NullDereference))
    else if p == n[g].left then
      if IsRed(n, n[g].right) then Stepped(Arena(Flipped(n, g), a.root), Continue(g))
      else if n[p].right == x then
        if IsRed(n, x) then
          var b := LeftRotatedWithParent(a, p);
          GrandparentRotated(b, b.nodes[x].left, true)
        else Stepped(a, Halt(AssertionFailed))
      else GrandparentRotated(a, x, true)
    else
      var uncle := if variant == AsWritten then n[g].right else n[g].left;
      if IsRed(n, uncle) then
        if n[g].left != NIL && n[g].right != NIL then Stepped(Arena(Flipped(n, g), a.root), Continue(g))
        else Stepped(a, Halt(AssertionFailed))
      else if n[p].left == x then
        if IsRed(n, x) then
          var b := RightRotatedWithParent(a, p);
          GrandparentRotated(b, if variant == AsWritten then b.nodes[x].parent else b.nodes[x].right, false)
        else Stepped(a, Halt(AssertionFailed))
      else GrandparentRotated(a, x, false)
  }

  /** Line 284: root_ turns black (a crash when root_ is nullptr). */
  function Finish<V>(a: Arena<V>): (f: Finished<V>)
    requires Wf(a)
    ensures Wf(f.a) && SamePayload(a.nodes, f.a.nodes)
    ensures f.outcome == Returned <==> a.root != NIL
    ensures f.outcome == Returned ==> f.a.root == a.root && f.a.nodes[f.a.root].color == Black
  {
    if a.root == NIL then Finished(a, NullDereference)
    else Finished(Arena(a.nodes[a.root := a.nodes[a.root].(color := Black)], a.root), Returned)
  }

  /**
   * insertFixUp from x: passes of the loop body while x's parent is red
   * (at most fuel of them), then root_ turns black.  Only links and colours
   * change, and a run that finishes leaves a black root.
   */
  function FixUp<V>(a: Arena<V>, x: int, fuel: nat, variant: Variant): (f: Finished<V>)
    requires Wf(a) && Link(a.nodes, x)
    ensures Wf(f.a) && SamePayload(a.nodes, f.a.nodes)
    ensures f.outcome == Returned ==> f.a.root != NIL && f.a.nodes[f.a.root].color == Black
    decreases fuel, 1
  {
    if x == NIL then Finished(a, NullDereference)
    else if !IsRed(a.nodes, a.nodes[x].parent) then Finish(a)
    else if fuel == 0 then Finished(a, OutOfFuel)
    else FixUpAfterPass(a, x, fuel, variant)
  }

  /** One pass of the loop body from x, then the rest of the loop with one pass fewer. */
  function FixUpAfterPass<V>(a: Arena<V>, x: int, fuel: nat, variant: Variant): (f: Finished<V>)
    requires Wf(a) && 0 <= x < |a.nodes| && IsRed(a.nodes, a.nodes[x].parent) && fuel > 0
    ensures Wf(f.a) && SamePayload(a.nodes, f.a.nodes)
    ensures f.outcome == Returned ==> f.a.root != NIL && f.a.nodes[f.a.root].color == Black
    decreases fuel, 0
  {
    var st := FixBody(a, x, variant);
    match st.move
    case Continue(y) => FixUp(st.a, y, fuel - 1, variant)
    case Halt(o) => Finished(st.a, o)
  }

  /** insertFixUp with its mirror branch corrected, run from x with at most fuel passes of its loop. */
  ghost function Run<V>(a: Arena<V>, x: int, fuel: nat): Finished<V>
    requires Wf(a) && Link(a.nodes, x)
  {
    FixUp(a, x, fuel, Textbook)
  }

  /** One pass of the loop, seen from FixUp: it goes on from where the pass leaves x, or stops there. */
  lemma FixUpPassed<V>(a: Arena<V>, x: int, fuel: nat, variant: Variant, b: Arena<V>, move: Move)
    requires Wf(a) && 0 <= x < |a.nodes| && IsRed(a.nodes, a.nodes[x].parent) && fuel > 0
    requires FixBody(a, x, variant) == Stepped(b, move)
    ensures move.Continue? ==> Wf(b) && Link(b.nodes, move.x)
    ensures move.Continue? ==> FixUp(a, x, fuel, variant) == FixUp(b, move.x, fuel - 1, variant)
    ensures move.Halt? ==> FixUp(a, x, fuel, variant) == Finished(b, move.outcome)
  {
  }

  // ----- One pass where the links around x are consistent -----

  /**
   * The shape the loop of insertFixUp expects at x: x is a red child of its
   * parent p, p is a child of its parent g, and x, p and g are three nodes.
   * In a red-black tree with consistent parent links every red node with a
   * red parent has this shape, since a red parent is never the root.
   */
  ghost predicate Grandchild<V>(nodes: seq<RbNode<V>>, x: int)
  {
    && 0 <= x < |nodes| && nodes[x].color == Red
    && (var p := nodes[x].parent;
        && 0 <= p < |nodes| && (nodes[p].left == x || nodes[p].right == x)
        && (var g := nodes[p].parent;
            && 0 <= g < |nodes| && (nodes[g].left == p || nodes[g].right == p)
            && x != p && p != g && x != g))
  }

  /** The left branch (lines 257-268) reads alike in both variants and always goes round again. */
  lemma LeftBranchContinues<V>(a: Arena<V>, x: int, variant: Variant)
    requires Wf(a) && Grandchild(a.nodes, x) && IsRed(a.nodes, a.nodes[x].parent)
    requires var p := a.nodes[x].parent; a.nodes[a.nodes[p].parent].left == p
    ensures var st, p := FixBody(a, x, variant), a.nodes[x].parent;
      st.move.Continue? && st.move.x in {x, p, a.nodes[p].parent}
  {
    var n := a.nodes;
    var p := n[x].parent;
    var g := n[p].parent;
    if !IsRed(n, n[g].right) && n[p].right == x {
      var b := LeftRotatedWithParent(a, p);
      var r := LeftRotated(n, p);
      assert r[x] == n[x].(left := p, color := n[p].color, parent := g);
      assert r[p].parent == x;
      assert b.nodes == r[g := r[g].(left := x)];
      assert b.nodes[x].left == p && b.nodes[p].parent == x && b.nodes[x].parent == g;
      assert IsRed(b.nodes, b.nodes[g].left);
    }
  }

  /** The corrected mirror branch always goes round again, like the left branch. */
  lemma MirrorBranchContinues<V>(a: Arena<V>, x: int)
    requires Wf(a) && Grandchild(a.nodes, x) && IsRed(a.nodes, a.nodes[x].parent)
    requires var p := a.nodes[x].parent; a.nodes[a.nodes[p].parent].left != p
    ensures var st, p := FixBody(a, x, Textbook), a.nodes[x].parent;
      st.move.Continue? && st.move.x in {x, p, a.nodes[p].parent}
  {
    var n := a.nodes;
    var p := n[x].parent;
    var g := n[p].parent;
    assert n[g].right == p;
    if !IsRed(n, n[g].left) && n[p].left == x {
      var b := RightRotatedWithParent(a, p);
      var r := RightRotated(n, p);
      assert r[x] == n[x].(right := p, color := n[p].color, parent := g);
      assert r[p].parent == x;
      assert b.nodes == r[g := r[g].(right := x)];
      assert b.nodes[x].right == p && b.nodes[p].parent == x && b.nodes[x].parent == g;
      assert IsRed(b.nodes, b.nodes[g].right);
    }
  }

  /**
   * With the links around x consistent, a pass of the corrected loop never
   * fails an assert and never follows nullptr: it goes round again from the
   * grandparent, the parent or x itself.
   */
  lemma TextbookPassContinues<V>(a: Arena<V>, x: int)
    requires Wf(a) && Grandchild(a.nodes, x) && IsRed(a.nodes, a.nodes[x].parent)
    ensures var st, p := FixBody(a, x, Textbook), a.nodes[x].parent;
      st.move.Continue? && st.move.x in {x, p, a.nodes[p].parent}
  {
    var p := a.nodes[x].parent;
    if a.nodes[a.nodes[p].parent].left == p {
      LeftBranchContinues(a, x, Textbook);
    } else {
      MirrorBranchContinues(a, x);
    }
  }

  /**
   * The mirror branch as written, with the links around x consistent: the
   * uncle it reads is the red parent itself, so it always takes the
   * flipColor case, which goes on from the grandparent when the grandparent
   * has a left child and fails flipColor's assert (line 246) when it has not.
   */
  lemma AsWrittenMirrorFlips<V>(a: Arena<V>, x: int)
    requires Wf(a) && Grandchild(a.nodes, x) && IsRed(a.nodes, a.nodes[x].parent)
    requires var p := a.nodes[x].parent; a.nodes[a.nodes[p].parent].left != p
    ensures var st, g := FixBody(a, x, AsWritten), a.nodes[a.nodes[x].parent].parent;
      && (st.move.Continue? <==> a.nodes[g].left != NIL)
      && (st.move.Continue? ==> st == Stepped(Arena(Flipped(a.nodes, g), a.root), Continue(g)))
      && (st.move.Halt? ==> st == Stepped(a, Halt(AssertionFailed)))
  {
    var p := a.nodes[x].parent;
    assert a.nodes[a.nodes[p].parent].right == p;
  }

  /**
   * A pass of the loop as written, with the links around x consistent, goes
   * round again exactly when x's parent is a left child or the grandparent
   * has a left child: insertFixUp as written fails flipColor's assert at the
   * first red right child whose parent has no left child.
   */
  lemma AsWrittenPassContinues<V>(a: Arena<V>, x: int)
    requires Wf(a) && Grandchild(a.nodes, x) && IsRed(a.nodes, a.nodes[x].parent)
    ensures var st, p := FixBody(a, x, AsWritten), a.nodes[x].parent;
      var g := a.nodes[p].parent;
      st.move.Continue? <==> a.nodes[g].left == p || a.nodes[g].left != NIL
  {
    var p := a.nodes[x].parent;
    if a.nodes[a.nodes[p].parent].left == p {
      LeftBranchContinues(a, x, AsWritten);
    } else {
      AsWrittenMirrorFlips(a, x);
    }
  }

  // ----- insert (RBTree.h:287-324) -----

  /**
   * insert(key, val): the descent, then either the new value in place or a
   * new red node followed by insertFixUp.  The descent may visit every node
   * once and the fix-up may make one pass per node.
   */
  function Put<V>(a: Arena<V>, key: int, val: V, variant: Variant): (f: Finished<V>)
    requires Wf(a)
    ensures Wf(f.a) && |a.nodes| <= |f.a.nodes| <= |a.nodes| + 1
    ensures forall j :: 0 <= j < |a.nodes| ==> f.a.nodes[j].key == a.nodes[j].key
    ensures forall j :: 0 <= j < |a.nodes| && a.nodes[j].key != key ==> f.a.nodes[j].val == a.nodes[j].val
    ensures f.outcome == Returned && |f.a.nodes| > |a.nodes| ==> f.a.root != NIL && f.a.nodes[f.a.root].color == Black
  {
    match Descend(a.nodes, a.root, NIL, key, |a.nodes|)
    case Lost => Finished(a, OutOfFuel)
    case Present(i) => Finished(Overwritten(a, i, val), Returned)
    case Absent(p) => FixUp(Attach(a, key, val, p), |a.nodes|, |a.nodes| + 1, variant)
  }

  /** Where the descent ends at p without the key, put is the run of the loop from the new node. */
  lemma PutAbsent<V>(a: Arena<V>, key: int, val: V, p: int)
    requires Wf(a) && Descend(a.nodes, a.root, NIL, key, |a.nodes|) == Absent(p)
    ensures Link(a.nodes, p)
    ensures Put(a, key, val, Textbook) == Run(Attach(a, key, val, p), |a.nodes|, |a.nodes| + 1)
  {
  }

  /**
   * On a tree, insert's descent and attachment do what put does to a search
   * tree: a present key gets the new value in place, an absent key a new
   * node where the search ends, and the result is a tree again.
   */
  lemma PutPlaces<V>(a: Arena<V>, s: Shape, key: int, val: V)
    requires Wf(a) && Spans(a.nodes, a.root, s) && Distinct(s)
    ensures var d, e := Descend(a.nodes, a.root, NIL, key, |a.nodes|), Bst.Insert(Abs(a.nodes, a.root, s), key, val);
      && !d.Lost?
      && (d.Present? ==>
            var b := Overwritten(a, d.at, val);
            e.delta == 0 && Spans(b.nodes, b.root, s) && Abs(b.nodes, b.root, s) == e.root)
      && (d.Absent? ==>
            var b, g := Attach(a, key, val, d.parent), Grown(a.nodes, a.root, s, key, |a.nodes|);
            e.delta == 1 && Spans(b.nodes, b.root, g) && Distinct(g) && Abs(b.nodes, b.root, g) == e.root)
  {
    SizeBound(a.nodes, a.root, s);
    DescendEnds(a.nodes, a.root, NIL, s, key, |a.nodes|);
    match Descend(a.nodes, a.root, NIL, key, |a.nodes|)
    case Present(i) => OverwriteAgrees(a, a.root, NIL, s, key, val, |a.nodes|, i);
    case Absent(p) => AttachAgrees(a, s, key, val, p);
  }

  /** Payload after an insert that found key at i: only i's value changes. */
  lemma PutPresentPayload<V>(a: Arena<V>, key: int, val: V, variant: Variant, i: int)
    requires Wf(a) && Descend(a.nodes, a.root, NIL, key, |a.nodes|) == Present(i)
    ensures var f := Put(a, key, val, variant);
      && |f.a.nodes| == |a.nodes| && f.a.nodes[i].key == key && f.a.nodes[i].val == val
      && (forall j :: 0 <= j < |a.nodes| && j != i ==> f.a.nodes[j] == a.nodes[j])
      && StoredKeys(f.a.nodes) == StoredKeys(a.nodes)
  {
    var f := Put(a, key, val, variant);
    assert forall j :: 0 <= j < |a.nodes| ==> f.a.nodes[j].key == a.nodes[j].key;
  }

  /** m with (key, val) appended, then relinked and recoloured into f. */
  lemma AppendedPayload<V>(m: seq<RbNode<V>>, b: seq<RbNode<V>>, f: seq<RbNode<V>>, key: int, val: V)
    requires |b| == |m| + 1 && b[|m|].key == key && b[|m|].val == val
    requires forall j :: 0 <= j < |m| ==> b[j].key == m[j].key && b[j].val == m[j].val
    requires SamePayload(b, f)
    ensures |f| == |m| + 1 && f[|m|].key == key && f[|m|].val == val
    ensures forall j :: 0 <= j < |m| ==> f[j].key == m[j].key && f[j].val == m[j].val
    ensures StoredKeys(f) == StoredKeys(m) + {key}
  {
    assert forall k :: k in StoredKeys(f) ==> k in StoredKeys(m) + {key};
    assert forall k :: k in StoredKeys(m) ==> k in StoredKeys(f);
  }

  /** Payload after an insert that added a node: the old pairs plus (key, val) at the end. */
  lemma PutAbsentPayload<V>(a: Arena<V>, key: int, val: V, variant: Variant, p: int)
    requires Wf(a) && Descend(a.nodes, a.root, NIL, key, |a.nodes|) == Absent(p)
    ensures var f, n := Put(a, key, val, variant), |a.nodes|;
      && |f.a.nodes| == n + 1 && f.a.nodes[n].key == key && f.a.nodes[n].val == val
      && (forall j :: 0 <= j < n ==> f.a.nodes[j].key == a.nodes[j].key && f.a.nodes[j].val == a.nodes[j].val)
      && StoredKeys(f.a.nodes) == StoredKeys(a.nodes) + {key}
  {
    var n := |a.nodes|;
    var b := Attach(a, key, val, p);
    var f := FixUp(b, n, n + 1, variant);
    assert Put(a, key, val, variant) == f;
    assert forall j :: 0 <= j < n ==> b.nodes[j].key == a.nodes[j].key && b.nodes[j].val == a.nodes[j].val;
    AppendedPayload(a.nodes, b.nodes, f.a.nodes, key, val);
  }

  /**
   * However the fix-up ends, insert into a tree keeps every old node's key,
   * keeps every value but key's, adds a node exactly when put adds one, and
   * holds key with val afterwards.
   */
  lemma PutPayload<V>(a: Arena<V>, s: Shape, key: int, val: V, variant: Variant)
    requires Wf(a) && Spans(a.nodes, a.root, s) && Distinct(s)
    ensures var f, e := Put(a, key, val, variant), Bst.Insert(Abs(a.nodes, a.root, s), key, val);
      && |f.a.nodes| == |a.nodes| + e.delta
      && (exists i :: 0 <= i < |f.a.nodes| && f.a.nodes[i].key == key && f.a.nodes[i].val == val)
      && (forall j :: 0 <= j < |a.nodes| && a.nodes[j].key != key ==>
            f.a.nodes[j].key == a.nodes[j].key && f.a.nodes[j].val == a.nodes[j].val)
      && StoredKeys(f.a.nodes) == StoredKeys(a.nodes) + {key}
  {
    PutPlaces(a, s, key, val);
    var d := Descend(a.nodes, a.root, NIL, key, |a.nodes|);
    if d.Present? {
      PutPresentPayload(a, key, val, variant, d.at);
      assert key in StoredKeys(a.nodes);
    } else {
      PutAbsentPayload(a, key, val, variant, d.parent);
    }
  }

  // ----- The tree object -----

  /** RbTree<Key, Value> (RBTree.h:31-74): the nodes, root_ and count_. */
  class RbTree<V> {
    var nodes: seq<RbNode<V>>
    var root: int
    var count: int

    /** Every pointer is nullptr or a live node, and count_ counts the nodes. */
    ghost predicate Valid()
      reads this
    {
      Wf(Arena(nodes, root)) && count == |nodes|
    }

    function State(): Arena<V>
      reads this
    {
      Arena(nodes, root)
    }

    /** RbTree() (RBTree.h:76-81). */
    constructor ()
      ensures Valid() && nodes == [] && root == NIL && count == 0
    {
      nodes := [];
      root := NIL;
      count := 0;
    }

    /** transplant (RBTree.h:145-158). */
    method Transplant(oldNode: int, newNode: int)
      requires Valid() && 0 <= oldNode < |nodes| && 0 <= newNode < |nodes|
      modifies this
      ensures State() == Transplanted(old(State()), oldNode, newNode)
      ensures Valid() && count == old(count)
    {
      var p := nodes[oldNode].parent;
      if p == NIL {
        root := newNode;
      } else if nodes[p].left == oldNode {
        nodes := nodes[p := nodes[p].(left := newNode)];
      } else {
        nodes := nodes[p := nodes[p].(right := newNode)];
      }
      nodes := nodes[newNode := nodes[newNode].(parent := nodes[oldNode].parent)];
    }

    /** leftRotate (RBTree.h:160-180): returns the new subtree root. */
    method LeftRotate(x: int) returns (newRoot: int)
      requires Valid() && 0 <= x < |nodes| && IsRed(nodes, nodes[x].right)
      modifies this
      ensures nodes == LeftRotated(old(nodes), x) && newRoot == old(nodes[x].right)
      ensures Valid() && count == old(count) && root == old(root)
    {
      var oldRoot := x;
      newRoot := nodes[x].right;
      nodes := nodes[oldRoot := nodes[oldRoot].(right := nodes[newRoot].left)];
      nodes := nodes[newRoot := nodes[newRoot].(left := oldRoot)];
      nodes := nodes[newRoot := nodes[newRoot].(color := nodes[oldRoot].color)];
      nodes := nodes[oldRoot := nodes[oldRoot].(color := Red)];
      nodes := nodes[newRoot := nodes[newRoot].(parent := nodes[oldRoot].parent)];
      nodes := nodes[oldRoot := nodes[oldRoot].(parent := newRoot)];
    }

    /** rightRotate (RBTree.h:182-202): returns the new subtree root. */
    method RightRotate(x: int) returns (newRoot: int)
      requires Valid() && 0 <= x < |nodes| && IsRed(nodes, nodes[x].left)
      modifies this
      ensures nodes == RightRotated(old(nodes), x) && newRoot == old(nodes[x].left)
      ensures Valid() && count == old(count) && root == old(root)
    {
      var oldRoot := x;
      newRoot := nodes[x].left;
      nodes := nodes[oldRoot := nodes[oldRoot].(left := nodes[newRoot].right)];
      nodes := nodes[newRoot := nodes[newRoot].(right := oldRoot)];
      nodes := nodes[newRoot := nodes[newRoot].(color := nodes[oldRoot].color)];
      nodes := nodes[oldRoot := nodes[oldRoot].(color := Red)];
      nodes := nodes[newRoot := nodes[newRoot].(parent := nodes[oldRoot].parent)];
      nodes := nodes[oldRoot := nodes[oldRoot].(parent := newRoot)];
    }

    /** leftRotateWithParent (RBTree.h:204-221). */
    method LeftRotateWithParent(x: int)
      requires Valid() && Link(nodes, x) && (x != NIL ==> IsRed(nodes, nodes[x].right))
      modifies this
      ensures State() == LeftRotatedWithParent(old(State()), x)
      ensures Valid() && count == old(count)
    {
      if x == NIL {
        return;
      }
      var p := nodes[x].parent;
      var wasLeft := p != NIL && nodes[p].left == x;
      var y := LeftRotate(x);
      if p == NIL {
        root := y;
      } else if wasLeft {
        nodes := nodes[p := nodes[p].(left := y)];
      } else {
        nodes := nodes[p := nodes[p].(right := y)];
      }
    }

    /** rightRotateWithParent (RBTree.h:223-240). */
    method RightRotateWithParent(x: int)
      requires Valid() && Link(nodes, x) && (x != NIL ==> IsRed(nodes, nodes[x].left))
      modifies this
      ensures State() == RightRotatedWithParent(old(State()), x)
      ensures Valid() && count == old(count)
    {
      if x == NIL {
        return;
      }
      var p := nodes[x].parent;
      var wasLeft := p != NIL && nodes[p].left == x;
      var y := RightRotate(x);
      if p == NIL {
        root := y;
      } else if wasLeft {
        nodes := nodes[p := nodes[p].(left := y)];
      } else {
        nodes := nodes[p := nodes[p].(right := y)];
      }
    }

    /** flipColor (RBTree.h:242-251). */
    method FlipColor(x: int)
      requires Valid() && 0 <= x < |nodes| && nodes[x].left != NIL && nodes[x].right != NIL
      modifies this
      ensures nodes == Flipped(old(nodes), x)
      ensures Valid() && count == old(count) && root == old(root)
    {
      nodes := nodes[x := nodes[x].(color := Red)];
      nodes := nodes[nodes[x].left := nodes[nodes[x].left].(color := Black)];
      nodes := nodes[nodes[x].right := nodes[nodes[x].right].(color := Black)];
    }

    /** Line 267 or 279: rotate x's grandparent, rightwards when toRight holds. */
    method RotateGrandparent(x: int, toRight: bool) returns (move: Move)
      requires Valid() && Link(nodes, x)
      modifies this
      ensures Stepped(State(), move) == GrandparentRotated(old(State()), x, toRight)
      ensures Valid() && count == old(count)
    {
      if x == NIL || nodes[x].parent == NIL {
        return Halt(NullDereference);
      }
      var g := nodes[nodes[x].parent].parent;
      if g == NIL {
        return Continue(x);
      }
      if toRight {
        if !IsRed(nodes, nodes[g].left) {
          return Halt(AssertionFailed);
        }
        RightRotateWithParent(g);
      } else {
        if !IsRed(nodes, nodes[g].right) {
          return Halt(AssertionFailed);
        }
        LeftRotateWithParent(g);
      }
      return Continue(x);
    }

    /** One pass of the loop body of insertFixUp (RBTree.h:257-281), with the mirror branch's uncle and step up corrected. */
    method FixUpPass(x: int) returns (move: Move)
      requires Valid() && 0 <= x < |nodes| && IsRed(nodes, nodes[x].parent)
      modifies this
      ensures Stepped(State(), move) == FixBody(old(State()), x, Textbook)
      ensures Valid() && count == old(count)
    {
      var p := nodes[x].parent;
      var g := nodes[p].parent;
      if g == NIL {
        return Halt(NullDereference);
      }
      if p == nodes[g].left {
        var uncle := nodes[g].right;
        if IsRed(nodes, uncle) {
          FlipColor(g);
          return Continue(g);
        }
        var y := x;
        if nodes[p].right == x {
          if !IsRed(nodes, x) {
            return Halt(AssertionFailed);
          }
          LeftRotateWithParent(p);
          y := nodes[x].left;
        }
        move := RotateGrandparent(y, true);
      } else {
        var uncle := nodes[g].left;
        if IsRed(nodes, uncle) {
          if nodes[g].left == NIL || nodes[g].right == NIL {
            return Halt(AssertionFailed);
          }
          FlipColor(g);
          return Continue(g);
        }
        var y := x;
        if nodes[p].left == x {
          if !IsRed(nodes, x) {
            return Halt(AssertionFailed);
          }
          RightRotateWithParent(p);
          y := nodes[x].right;
        }
        move := RotateGrandparent(y, false);
      }
    }

    /** Line 284: root_ turns black. */
    method BlackenRoot() returns (outcome: Outcome)
      requires Valid()
      modifies this
      ensures Finished(State(), outcome) == Finish(old(State()))
      ensures Valid() && count == old(count)
    {
      if root == NIL {
        return NullDereference;
      }
      nodes := nodes[root := nodes[root].(color := Black)];
      return Returned;
    }

    /**
     * insertFixUp (RBTree.h:253-285) from x.  The loop is bounded by one
     * pass per node; a run that would need more ends with OutOfFuel.
     */
    method InsertFixUp(x: int) returns (outcome: Outcome)
      requires Valid() && Link(nodes, x)
      modifies this
      ensures Finished(State(), outcome) == Run(old(State()), x, |old(nodes)|)
      ensures Valid() && count == old(count)
    {
      var y := x;
      var fuel: nat := |nodes|;
      ghost var target := Run(State(), x, fuel);
      while y != NIL && IsRed(nodes, nodes[y].parent) && fuel > 0
        invariant Valid() && Link(nodes, y) && count == old(count)
        invariant Run(State(), y, fuel) == target
        decreases fuel
      {
        var move := FixUpRound(y, fuel, target);
        if move.Halt? {
          return move.outcome;
        }
        y := move.x;
        fuel := fuel - 1;
      }
      outcome := LeaveFixUp(y, fuel, target);
    }

    /** One pass of the loop: the run from x with fuel passes left ends where the run from the next x does. */
    method FixUpRound(x: int, ghost fuel: nat, ghost target: Finished<V>) returns (move: Move)
      requires Valid() && 0 <= x < |nodes| && IsRed(nodes, nodes[x].parent) && fuel > 0
      requires Run(State(), x, fuel) == target
      modifies this
      ensures Valid() && count == old(count)
      ensures move.Continue? ==> Link(nodes, move.x) && Run(State(), move.x, fuel - 1) == target
      ensures move.Halt? ==> Finished(State(), move.outcome) == target
    {
      ghost var before := State();
      move := FixUpPass(x);
      FixUpPassed(before, x, fuel, Textbook, State(), move);
    }

    /** What insertFixUp does once its loop stops at x: the null case, the fuel bound, or line 284. */
    method LeaveFixUp(x: int, ghost fuel: nat, ghost target: Finished<V>) returns (outcome: Outcome)
      requires Valid() && Link(nodes, x)
      requires !(x != NIL && IsRed(nodes, nodes[x].parent) && fuel > 0)
      requires Run(State(), x, fuel) == target
      modifies this
      ensures Finished(State(), outcome) == target
      ensures Valid() && count == old(count)
    {
      if x == NIL {
        return NullDereference;
      }
      if IsRed(nodes, nodes[x].parent) {
        return OutOfFuel;
      }
      outcome := BlackenRoot();
    }

    /** insert(key, val) (RBTree.h:320-324), which runs insert(root_, key, val) (287-318). */
    method Insert(key: int, val: V) returns (outcome: Outcome)
      requires Valid()
      modifies this
      ensures Valid()
      ensures Finished(State(), outcome) == Put(old(State()), key, val, Textbook)
    {
      var par := NIL;
      var cur := root;
      var fuel: nat := |nodes|;
      while cur != NIL
        invariant Valid() && nodes == old(nodes) && root == old(root)
        invariant Link(nodes, cur) && Link(nodes, par)
        invariant Descend(nodes, cur, par, key, fuel) == Descend(nodes, root, NIL, key, |nodes|)
        decreases fuel
      {
        if fuel == 0 {
          return OutOfFuel;
        }
        par := cur;
        if key > nodes[cur].key {
          cur := nodes[cur].right;
        } else if key < nodes[cur].key {
          cur := nodes[cur].left;
        } else {
          nodes := nodes[cur := nodes[cur].(val := val)];
          return Returned;
        }
        fuel := fuel - 1;
      }
      var newNode := |nodes|;
      nodes := nodes + [RbNode(key, val, NIL, NIL, NIL, Red)];
      count := count + 1;
      nodes := nodes[newNode := nodes[newNode].(parent := par)];
      if par == NIL {
        root := newNode;
      } else if key < nodes[par].key {
        nodes := nodes[par := nodes[par].(left := newNode)];
      } else {
        nodes := nodes[par := nodes[par].(right := newNode)];
      }
      assert State() == Attach(old(State()), key, val, par);
      PutAbsent(old(State()), key, val, par);
      outcome := InsertFixUp(newNode);
    }
  }
}
