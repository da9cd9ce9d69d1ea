/**
 * The AVL tree map of tree/AVLTree/AVLTree.h.
 *
 * As in module Bst, each private recursive helper is a function from a Tree
 * value to an Edit (the new subtree root and its change to count_).  A node
 * also stores its height, which leftRotate, rightRotate and rebalance
 * recompute on the way back up.
 *
 * rebalance picks between a single and a double rotation by comparing the
 * heavy child's two subtrees.  The source takes the double rotation when
 * they are equally high; every function that rebalances takes an OnTie
 * parameter so that both that choice and the textbook one can be stated.
 * The map object AvlTree uses SingleRotation: with it every deletion keeps
 * the tree balanced, while with the source's choice a deletion can leave a
 * node whose subtrees differ in height by 2 (RemoveMaxUnbalances below).
 * For put the choice never matters (InsertTieIrrelevant).
 */
module Avl {
  import opened Common

  /** AVLTreeNode (AVLTree.h:14-29); a new node has height 1. */
  datatype Tree<V> = Leaf | Node(key: int, value: V, left: Tree<V>, right: Tree<V>, height: nat)

  /** What a recursive helper returns: the new subtree root and how much it changed count_ by. */
  datatype Edit<V> = Edit(root: Tree<V>, delta: int)

  /**
   * What rebalance does when the heavy child's two subtrees are equally high.
   * DoubleRotation is the source (the strict > at AVLTree.h:347 and 353);
   * SingleRotation is the textbook choice.
   */
  datatype OnTie = DoubleRotation | SingleRotation

  /** The larger of two heights. */
  function Max(a: int, b: int): int
  {
    if a < b then b else a
  }

  // ----- Abstractions -----

  function Keys<V>(t: Tree<V>): set<int>
  {
    match t
    case Leaf => {}
    case Node(k, _, l, r, _) => Keys(l) + {k} + Keys(r)
  }

  /** Number of nodes, which is what count_ tracks. */
  function NodeCount<V>(t: Tree<V>): nat
  {
    match t
    case Leaf => 0
    case Node(_, _, l, r, _) => NodeCount(l) + 1 + NodeCount(r)
  }

  /** The key-to-value map the tree stores (a node's own pair wins over its subtrees'). */
  function Content<V>(t: Tree<V>): (m: map<int, V>)
    ensures m.Keys == Keys(t)
  {
    match t
    case Leaf => map[]
    case Node(k, v, l, r, _) => (Content(l) + Content(r))[k := v]
  }

  /** The search-tree property (AVLTree.h:10). */
  ghost predicate Ordered<V>(t: Tree<V>)
  {
    match t
    case Leaf => true
    case Node(k, _, l, r, _) =>
      && (forall j :: j in Keys(l) ==> j < k)
      && (forall j :: j in Keys(r) ==> k < j)
      && Ordered(l) && Ordered(r)
  }

  /** The (key, value) pairs in the order inOrder (AVLTree.h:201-211) prints them. */
  ghost function InOrder<V>(t: Tree<V>): seq<(int, V)>
  {
    match t
    case Leaf => []
    case Node(k, v, l, r, _) => InOrder(l) + [(k, v)] + InOrder(r)
  }

  /** The true height: the number of nodes on a longest downward path. */
  function Height<V>(t: Tree<V>): nat
  {
    match t
    case Leaf => 0
    case Node(_, _, l, r, _) => 1 + (if Height(l) < Height(r) then Height(r) else Height(l))
  }

  /** Every stored height is the node's true height. */
  ghost predicate HeightsCorrect<V>(t: Tree<V>)
  {
    match t
    case Leaf => true
    case Node(_, _, l, r, h) => h == Height(t) && HeightsCorrect(l) && HeightsCorrect(r)
  }

  /** The balance condition of AVLTree.h:11-12 at every node. */
  ghost predicate Balanced<V>(t: Tree<V>)
  {
    match t
    case Leaf => true
    case Node(_, _, l, r, _) => -1 <= Height(l) - Height(r) <= 1 && Balanced(l) && Balanced(r)
  }

  /** The height bookkeeping of an AVL tree: correct stored heights and balance. */
  ghost predicate Sound<V>(t: Tree<V>)
  {
    HeightsCorrect(t) && Balanced(t)
  }

  /** An AVL tree (AVLTree.h:8-13). */
  ghost predicate IsAvl<V>(t: Tree<V>)
  {
    Ordered(t) && Sound(t)
  }

  // ----- Heights and rotations -----

  /** getNodeHeight(x) (AVLTree.h:93): 0 for an absent child, the stored height otherwise. */
  function NodeHeight<V>(t: Tree<V>): (h: nat)
    ensures t.Leaf? ==> h == 0
    ensures t.Node? ==> h == t.height
    ensures HeightsCorrect(t) ==> h == Height(t)
  {
    match t
    case Leaf => 0
    case Node(_, _, _, _, h) => h
  }

  /**
   * The height update after a rotation or a deletion (AVLTree.h:299-300,
   * 325-326, 359, 456): the node's height becomes one more than the higher
   * child's stored height.  Nothing else changes, and the height is correct
   * when the children's are.
   */
  function Refresh<V>(t: Tree<V>): (r: Tree<V>)
    requires t.Node?
    ensures r.Node? && r == t.(height := r.height)
    ensures HeightsCorrect(t.left) && HeightsCorrect(t.right) ==> HeightsCorrect(r)
  {
    var lh := NodeHeight(t.left);
    var rh := NodeHeight(t.right);
    t.(height := 1 + if lh < rh then rh else lh)
  }

  /**
   * leftRotate(root) (AVLTree.h:285-303): a no-op without a right child;
   * otherwise the right child becomes the root and both moved nodes get
   * their heights recomputed, the old root first.
   */
  function LeftRotate<V>(t: Tree<V>): (r: Tree<V>)
    ensures t.Leaf? || t.right.Leaf? ==> r == t
    ensures InOrder(r) == InOrder(t)
    ensures Keys(r) == Keys(t) && NodeCount(r) == NodeCount(t)
    ensures t.Node? && t.right.Node? && HeightsCorrect(t.left) && HeightsCorrect(t.right) ==> HeightsCorrect(r)
  {
    if t.Leaf? || t.right.Leaf? then t
    else
      var oldRoot := Refresh(t.(right := t.right.left));
      Refresh(t.right.(left := oldRoot))
  }

  /** rightRotate(root) (AVLTree.h:311-329): the mirror image of leftRotate. */
  function RightRotate<V>(t: Tree<V>): (r: Tree<V>)
    ensures t.Leaf? || t.left.Leaf? ==> r == t
    ensures InOrder(r) == InOrder(t)
    ensures Keys(r) == Keys(t) && NodeCount(r) == NodeCount(t)
    ensures t.Node? && t.left.Node? && HeightsCorrect(t.left) && HeightsCorrect(t.right) ==> HeightsCorrect(r)
  {
    if t.Leaf? || t.left.Leaf? then t
    else
      var oldRoot := Refresh(t.(left := t.left.right));
      Refresh(t.left.(right := oldRoot))
  }

  /**
   * LL(root) (AVLTree.h:231-236): one right rotation.  The in-order listing
   * is kept, and so are right stored heights when there is a left child.
   */
  function LL<V>(t: Tree<V>): (r: Tree<V>)
    ensures InOrder(r) == InOrder(t)
    ensures t.Node? && t.left.Node? && HeightsCorrect(t.left) && HeightsCorrect(t.right) ==> HeightsCorrect(r)
  {
    RightRotate(t)
  }

  /**
   * LR(root) (AVLTree.h:244-250): left-rotate the left child, then LL.  The
   * in-order listing is kept, and so are right stored heights when there is
   * a left child.
   */
  function LR<V>(t: Tree<V>): (r: Tree<V>)
    requires t.Node?
    ensures InOrder(r) == InOrder(t)
    ensures t.left.Node? && HeightsCorrect(t.left) && HeightsCorrect(t.right) ==> HeightsCorrect(r)
  {
    LL(t.(left := LeftRotate(t.left)))
  }

  /**
   * RR(root) (AVLTree.h:258-263): one left rotation.  The in-order listing
   * is kept, and so are right stored heights when there is a right child.
   */
  function RR<V>(t: Tree<V>): (r: Tree<V>)
    ensures InOrder(r) == InOrder(t)
    ensures t.Node? && t.right.Node? && HeightsCorrect(t.left) && HeightsCorrect(t.right) ==> HeightsCorrect(r)
  {
    LeftRotate(t)
  }

  /**
   * RL(root) (AVLTree.h:271-277): right-rotate the right child, then RR.  The
   * in-order listing is kept, and so are right stored heights when there is
   * a right child.
   */
  function RL<V>(t: Tree<V>): (r: Tree<V>)
    requires t.Node?
    ensures InOrder(r) == InOrder(t)
    ensures t.right.Node? && HeightsCorrect(t.left) && HeightsCorrect(t.right) ==> HeightsCorrect(r)
  {
    RR(t.(right := RightRotate(t.right)))
  }

  /**
   * The test of AVLTree.h:347 (and 353): whether the heavy child's outer
   * subtree is high enough for a single rotation.
   */
  function OuterHeavier(outer: nat, inner: nat, tie: OnTie): bool
  {
    outer > inner || (tie == SingleRotation && outer == inner)
  }

  /**
   * rebalance(x) (AVLTree.h:331-363): LL or LR when the left subtree is more
   * than one higher, RR or RL when the right one is, and otherwise only the
   * height is recomputed.
   */
  function Rebalance<V>(t: Tree<V>, tie: OnTie): (r: Tree<V>)
    ensures InOrder(r) == InOrder(t)
    ensures Keys(r) == Keys(t) && NodeCount(r) == NodeCount(t)
    ensures t.Node? && -1 <= NodeHeight(t.left) - NodeHeight(t.right) <= 1 ==> r == Refresh(t)
  {
    match t
    case Leaf => Leaf
    case Node(_, _, lc, rc, _) =>
      var lh := NodeHeight(lc);
      var rh := NodeHeight(rc);
      if lh - rh > 1 then
        (if OuterHeavier(NodeHeight(lc.left), NodeHeight(lc.right), tie) then LL(t) else LR(t))
      else if lh - rh < -1 then
        (if OuterHeavier(NodeHeight(rc.right), NodeHeight(rc.left), tie) then RR(t) else RL(t))
      else
        Refresh(t)
  }

  // ----- The private recursive helpers -----

  /** get(x, key) (AVLTree.h:121-138); nullptr is None. */
  function Lookup<V>(t: Tree<V>, key: int): (r: Option<V>)
    ensures Ordered(t) ==> r == if key in Content(t) then Some(Content(t)[key]) else None
  {
    match t
    case Leaf => None
    case Node(k, v, l, r, _) =>
      if k == key then Some(v)
      else if key < k then Lookup(l, key)
      else Lookup(r, key)
  }

  /** minimum(x) (AVLTree.h:140-153): the node at the end of the left spine, Leaf for an empty tree. */
  function MinNode<V>(t: Tree<V>): (m: Tree<V>)
    ensures t.Leaf? <==> m.Leaf?
    ensures m.Node? ==> m.left.Leaf? && m.key in Keys(t)
    ensures m.Node? && Ordered(t) ==>
      && Content(t)[m.key] == m.value
      && forall j :: j in Keys(t) ==> m.key <= j
  {
    match t
    case Leaf => Leaf
    case Node(_, _, l, _, _) => if l.Leaf? then t else MinNode(l)
  }

  /** maximum(x) (AVLTree.h:155-168): the node at the end of the right spine, Leaf for an empty tree. */
  function MaxNode<V>(t: Tree<V>): (m: Tree<V>)
    ensures t.Leaf? <==> m.Leaf?
    ensures m.Node? ==> m.right.Leaf? && m.key in Keys(t)
    ensures m.Node? && Ordered(t) ==>
      && Content(t)[m.key] == m.value
      && forall j :: j in Keys(t) ==> j <= m.key
  {
    match t
    case Leaf => Leaf
    case Node(_, _, _, r, _) => if r.Leaf? then t else MaxNode(r)
  }

  /** put(x, key, val) (AVLTree.h:365-387): every node on the way back up is rebalanced. */
  function Insert<V>(t: Tree<V>, key: int, val: V, tie: OnTie): (e: Edit<V>)
    ensures e.delta == 0 || e.delta == 1
  {
    match t
    case Leaf => Edit(Node(key, val, Leaf, Leaf, 1), 1)
    case Node(k, _, l, r, _) =>
      if key < k then
        var e := Insert(l, key, val, tie);
        Edit(Rebalance(t.(left := e.root), tie), e.delta)
      else if key > k then
        var e := Insert(r, key, val, tie);
        Edit(Rebalance(t.(right := e.root), tie), e.delta)
      else
        Edit(t.(value := val), 0)
  }

  /** deleteMin(x) (AVLTree.h:389-406). */
  function RemoveMin<V>(t: Tree<V>, tie: OnTie): (e: Edit<V>)
    ensures t.Leaf? ==> e == Edit(Leaf, 0)
    ensures t.Node? ==> e.delta == -1
    ensures NodeCount(e.root) == NodeCount(t) + e.delta
  {
    match t
    case Leaf => Edit(Leaf, 0)
    case Node(_, _, l, r, _) =>
      if l.Leaf? then Edit(r, -1)
      else
        var e := RemoveMin(l, tie);
        Edit(Rebalance(t.(left := e.root), tie), e.delta)
  }

  /** deleteMax(x) (AVLTree.h:408-425). */
  function RemoveMax<V>(t: Tree<V>, tie: OnTie): (e: Edit<V>)
    ensures t.Leaf? ==> e == Edit(Leaf, 0)
    ensures t.Node? ==> e.delta == -1
    ensures NodeCount(e.root) == NodeCount(t) + e.delta
  {
    match t
    case Leaf => Edit(Leaf, 0)
    case Node(_, _, l, r, _) =>
      if r.Leaf? then Edit(l, -1)
      else
        var e := RemoveMax(r, tie);
        Edit(Rebalance(t.(right := e.root), tie), e.delta)
  }

  /**
   * deleteKey(x, key) (AVLTree.h:427-464).  With two children a copy of the
   * right subtree's minimum takes the node's place: its right subtree is
   * deleteMin of the old right one, its height is recomputed (line 456) and
   * then it is rebalanced.
   */
  function Remove<V>(t: Tree<V>, key: int, tie: OnTie): (e: Edit<V>)
    ensures e.delta == 0 || e.delta == -1
    ensures NodeCount(e.root) == NodeCount(t) + e.delta
  {
    match t
    case Leaf => Edit(Leaf, 0)
    case Node(k, _, l, r, _) =>
      if key < k then
        var e := Remove(l, key, tie);
        Edit(Rebalance(t.(left := e.root), tie), e.delta)
      else if key > k then
        var e := Remove(r, key, tie);
        Edit(Rebalance(t.(right := e.root), tie), e.delta)
      else if l.Leaf? then Edit(r, -1)
      else if r.Leaf? then Edit(l, -1)
      else
        var e := RemoveMin(r, tie);
        Edit(Rebalance(Successor(l, r, tie), tie), e.delta)
  }

  /**
   * The successor copy of deleteKey's two-child case (AVLTree.h:452-456): the
   * right subtree's minimum, with the deleted node's left subtree, deleteMin
   * of its right subtree, and its height recomputed.
   */
  function Successor<V>(l: Tree<V>, r: Tree<V>, tie: OnTie): (s: Tree<V>)
    requires r.Node?
    ensures s.Node? && s.key == MinNode(r).key && s.value == MinNode(r).value
    ensures s.left == l && s.right == RemoveMin(r, tie).root
  {
    var m := MinNode(r);
    Refresh(m.(left := l, right := RemoveMin(r, tie).root))
  }

  // ----- The in-order listing and the search-tree property -----

  /** The in-order listing holds exactly the tree's keys. */
  lemma {:induction false} InOrderKeys<V>(t: Tree<V>)
    ensures KeysOf(InOrder(t)) == Keys(t)
  {
    match t
    case Leaf =>
    case Node(k, v, l, r, _) =>
      InOrderKeys(l);
      InOrderKeys(r);
      var s := InOrder(t);
      assert s == InOrder(l) + [(k, v)] + InOrder(r);
      assert forall p :: p in s <==> p in InOrder(l) || p == (k, v) || p in InOrder(r);
  }

  /** Every key of t is below k exactly when every listed key is. */
  lemma ListedBelow<V>(t: Tree<V>, k: int)
    ensures (forall j :: j in Keys(t) ==> j < k) <==> (forall p :: p in InOrder(t) ==> p.0 < k)
  {
    InOrderKeys(t);
    assert forall p :: p in InOrder(t) ==> p.0 in KeysOf(InOrder(t));
  }

  /** Every key of t is above k exactly when every listed key is. */
  lemma ListedAbove<V>(t: Tree<V>, k: int)
    ensures (forall j :: j in Keys(t) ==> k < j) <==> (forall p :: p in InOrder(t) ==> k < p.0)
  {
    InOrderKeys(t);
    assert forall p :: p in InOrder(t) ==> p.0 in KeysOf(InOrder(t));
  }

  /**
   * The search-tree property holds exactly when an in-order traversal lists
   * strictly increasing keys.
   */
  lemma {:induction false} OrderedIffIncreasing<V>(t: Tree<V>)
    ensures Ordered(t) <==> StrictlyIncreasing(InOrder(t))
  {
    match t
    case Leaf =>
    case Node(k, v, l, r, _) =>
      OrderedIffIncreasing(l);
      OrderedIffIncreasing(r);
      IncreasingConcat(InOrder(l), k, v, InOrder(r));
      ListedBelow(l, k);
      ListedAbove(r, k);
      assert InOrder(t) == InOrder(l) + [(k, v)] + InOrder(r);
      if Ordered(t) {
        assert forall p :: p in InOrder(l) ==> p.0 < k;
        assert forall q :: q in InOrder(r) ==> k < q.0;
      }
      if StrictlyIncreasing(InOrder(t)) {
        assert forall j :: j in Keys(l) ==> j < k;
        assert forall j :: j in Keys(r) ==> k < j;
      }
  }

  /** Two trees with the same in-order listing are search trees together. */
  lemma SameListing<V>(t: Tree<V>, u: Tree<V>)
    requires InOrder(t) == InOrder(u)
    ensures Ordered(t) <==> Ordered(u)
  {
    OrderedIffIncreasing(t);
    OrderedIffIncreasing(u);
  }

  // ----- Rotations keep the stored map -----

  /** leftRotate keeps the search-tree property and the key-to-value map. */
  lemma LeftRotateContent<V>(t: Tree<V>)
    requires Ordered(t)
    ensures Ordered(LeftRotate(t))
    ensures Content(LeftRotate(t)) == Content(t)
  {
    SameListing(t, LeftRotate(t));
    if t.Node? && t.right.Node? {
      var Node(k1, v1, a, y, _) := t;
      var Node(k2, v2, b, c, _) := y;
      assert k2 in Keys(y) && Keys(c) <= Keys(y);
      assert k1 < k2;
      assert forall j :: j in Keys(a) ==> j < k2;
      assert forall j :: j in Keys(c) ==> k1 < j;
      RotateMaps(Content(a), Content(b), Content(c), k1, v1, k2, v2);
    }
  }

  /** rightRotate keeps the search-tree property and the key-to-value map. */
  lemma RightRotateContent<V>(t: Tree<V>)
    requires Ordered(t)
    ensures Ordered(RightRotate(t))
    ensures Content(RightRotate(t)) == Content(t)
  {
    SameListing(t, RightRotate(t));
    if t.Node? && t.left.Node? {
      var Node(k1, v1, y, c, _) := t;
      var Node(k2, v2, a, b, _) := y;
      assert k2 in Keys(y) && Keys(a) <= Keys(y);
      assert k2 < k1;
      assert forall j :: j in Keys(a) ==> j < k1;
      assert forall j :: j in Keys(c) ==> k2 < j;
      RotateMaps(Content(a), Content(b), Content(c), k2, v2, k1, v1);
    }
  }

  /** rebalance keeps the search-tree property and the key-to-value map, whichever rotation it picks. */
  lemma RebalanceContent<V>(t: Tree<V>, tie: OnTie)
    requires Ordered(t)
    ensures Ordered(Rebalance(t, tie))
    ensures Content(Rebalance(t, tie)) == Content(t)
  {
    SameListing(t, Rebalance(t, tie));
    match t
    case Leaf =>
    case Node(_, _, l, r, _) =>
      var lh: int := NodeHeight(l);
      var rh: int := NodeHeight(r);
      if lh - rh > 1 {
        if OuterHeavier(NodeHeight(l.left), NodeHeight(l.right), tie) {
          RightRotateContent(t);
        } else {
          LeftRotateContent(l);
          var u := t.(left := LeftRotate(l));
          SameListing(t, u);
          RightRotateContent(u);
        }
      } else if lh - rh < -1 {
        if OuterHeavier(NodeHeight(r.right), NodeHeight(r.left), tie) {
          LeftRotateContent(t);
        } else {
          RightRotateContent(r);
          var u := t.(right := RightRotate(r));
          SameListing(t, u);
          LeftRotateContent(u);
        }
      }
  }

  // ----- What the helpers do to the stored map, under either choice at a tie -----

  /** put adds key to the key set, and count_ changes by exactly the number of nodes it adds. */
  lemma {:induction false} InsertKeys<V>(t: Tree<V>, key: int, val: V, tie: OnTie)
    ensures Keys(Insert(t, key, val, tie).root) == Keys(t) + {key}
    ensures NodeCount(Insert(t, key, val, tie).root) == NodeCount(t) + Insert(t, key, val, tie).delta
  {
    match t
    case Leaf =>
    case Node(k, _, l, r, _) =>
      if key < k {
        InsertKeys(l, key, val, tie);
      } else if key > k {
        InsertKeys(r, key, val, tie);
      }
  }

  /** put keeps the search-tree property. */
  lemma {:induction false} InsertOrdered<V>(t: Tree<V>, key: int, val: V, tie: OnTie)
    requires Ordered(t)
    ensures Ordered(Insert(t, key, val, tie).root)
  {
    match t
    case Leaf =>
    case Node(k, _, l, r, _) =>
      if key < k {
        InsertKeys(l, key, val, tie);
        InsertOrdered(l, key, val, tie);
        var u := t.(left := Insert(l, key, val, tie).root);
        assert Insert(t, key, val, tie).root == Rebalance(u, tie);
        assert forall j :: j in Keys(u.left) ==> j < k;
        NodeOrdered(u);
        RebalanceContent(u, tie);
      } else if key > k {
        InsertKeys(r, key, val, tie);
        InsertOrdered(r, key, val, tie);
        var u := t.(right := Insert(r, key, val, tie).root);
        assert Insert(t, key, val, tie).root == Rebalance(u, tie);
        assert forall j :: j in Keys(u.right) ==> k < j;
        NodeOrdered(u);
        RebalanceContent(u, tie);
      }
  }

  /** put stores val under key and leaves every other key's value alone. */
  lemma {:induction false} InsertContent<V>(t: Tree<V>, key: int, val: V, tie: OnTie)
    requires Ordered(t)
    ensures Content(Insert(t, key, val, tie).root) == Content(t)[key := val]
  {
    match t
    case Leaf =>
    case Node(k, v, l, r, h) =>
      if key < k {
        var l' := Insert(l, key, val, tie).root;
        var u := Node(k, v, l', r, h);
        assert u == t.(left := l');
        InsertOrdered(t, key, val, tie);
        InsertContent(l, key, val, tie);
        InsertLocal(t, key, val, tie);
        assert key !in Content(r);
        UpdateBelowLeft(Content(l), Content(r), k, v, key, val);
      } else if key > k {
        var r' := Insert(r, key, val, tie).root;
        var u := Node(k, v, l, r', h);
        assert u == t.(right := r');
        InsertContent(r, key, val, tie);
        InsertLocal(t, key, val, tie);
        UpdateBelowRight(Content(l), Content(r), k, v, key, val);
      }
  }

  /** One level of put: the node whose child put changed is rebalanced without changing its map. */
  lemma InsertLocal<V>(t: Tree<V>, key: int, val: V, tie: OnTie)
    requires Ordered(t) && t.Node? && key != t.key
    ensures key < t.key ==> Content(Insert(t, key, val, tie).root) == (Content(Insert(t.left, key, val, tie).root) + Content(t.right))[t.key := t.value]
    ensures key > t.key ==> Content(Insert(t, key, val, tie).root) == (Content(t.left) + Content(Insert(t.right, key, val, tie).root))[t.key := t.value]
  {
    if key < t.key {
      InsertBelow(t, key, val, tie);
    } else {
      InsertAbove(t, key, val, tie);
    }
  }

  /** put below the node's key rebalances the node over the new left subtree. */
  lemma InsertBelow<V>(t: Tree<V>, key: int, val: V, tie: OnTie)
    requires Ordered(t) && t.Node? && key < t.key
    ensures Content(Insert(t, key, val, tie).root) == (Content(Insert(t.left, key, val, tie).root) + Content(t.right))[t.key := t.value]
  {
    var l' := Insert(t.left, key, val, tie).root;
    InsertKeys(t.left, key, val, tie);
    InsertOrdered(t.left, key, val, tie);
    var u := t.(left := l');
    assert Insert(t, key, val, tie).root == Rebalance(u, tie);
    assert forall j :: j in Keys(l') ==> j < t.key;
    NodeOrdered(u);
    RebalanceContent(u, tie);
  }

  /** put above the node's key rebalances the node over the new right subtree. */
  lemma InsertAbove<V>(t: Tree<V>, key: int, val: V, tie: OnTie)
    requires Ordered(t) && t.Node? && key > t.key
    ensures Content(Insert(t, key, val, tie).root) == (Content(t.left) + Content(Insert(t.right, key, val, tie).root))[t.key := t.value]
  {
    var r' := Insert(t.right, key, val, tie).root;
    InsertKeys(t.right, key, val, tie);
    InsertOrdered(t.right, key, val, tie);
    var u := t.(right := r');
    assert Insert(t, key, val, tie).root == Rebalance(u, tie);
    assert forall j :: j in Keys(r') ==> t.key < j;
    NodeOrdered(u);
    RebalanceContent(u, tie);
  }

  /** put raises count_ by one exactly when key was absent (AVLTree.h:369-384). */
  lemma {:induction false} InsertGrowth<V>(t: Tree<V>, key: int, val: V, tie: OnTie)
    requires Ordered(t)
    ensures Insert(t, key, val, tie).delta == if key in Keys(t) then 0 else 1
  {
    match t
    case Leaf =>
    case Node(k, _, l, r, _) =>
      if key < k {
        InsertGrowth(l, key, val, tie);
      } else if key > k {
        InsertGrowth(r, key, val, tie);
      }
  }

  /** deleteMin drops exactly the smallest key from the key set. */
  lemma {:induction false} RemoveMinKeys<V>(t: Tree<V>, tie: OnTie)
    requires Ordered(t) && t.Node?
    ensures Keys(RemoveMin(t, tie).root) == Keys(t) - {MinNode(t).key}
  {
    var Node(_, _, l, _, _) := t;
    if l.Node? {
      RemoveMinKeys(l, tie);
    }
  }

  /** deleteMin keeps the search-tree property. */
  lemma {:induction false} RemoveMinOrdered<V>(t: Tree<V>, tie: OnTie)
    requires Ordered(t) && t.Node?
    ensures Keys(RemoveMin(t, tie).root) == Keys(t) - {MinNode(t).key}
    ensures Ordered(RemoveMin(t, tie).root)
  {
    RemoveMinKeys(t, tie);
    var Node(_, _, l, _, _) := t;
    if l.Node? {
      RemoveMinOrdered(l, tie);
      var u := t.(left := RemoveMin(l, tie).root);
      assert Ordered(u);
      RebalanceContent(u, tie);
    }
  }

  /** deleteMin removes exactly the smallest key's pair (AVLTree.h:391-406). */
  lemma {:induction false} RemoveMinContent<V>(t: Tree<V>, tie: OnTie)
    requires Ordered(t) && t.Node?
    ensures Content(RemoveMin(t, tie).root) == Content(t) - {MinNode(t).key}
  {
    var Node(k, v, l, r, _) := t;
    if l.Node? {
      RemoveMinContent(l, tie);
      RemoveMinOrdered(l, tie);
      RebalanceContent(t.(left := RemoveMin(l, tie).root), tie);
      RemoveBelowLeft(Content(l), Content(r), k, v, MinNode(l).key);
    } else {
      RemoveTop(Content(l), Content(r), k, v);
    }
  }

  /** deleteMax drops exactly the largest key from the key set. */
  lemma {:induction false} RemoveMaxKeys<V>(t: Tree<V>, tie: OnTie)
    requires Ordered(t) && t.Node?
    ensures Keys(RemoveMax(t, tie).root) == Keys(t) - {MaxNode(t).key}
  {
    var Node(_, _, _, r, _) := t;
    if r.Node? {
      RemoveMaxKeys(r, tie);
    }
  }

  /** deleteMax keeps the search-tree property. */
  lemma {:induction false} RemoveMaxOrdered<V>(t: Tree<V>, tie: OnTie)
    requires Ordered(t) && t.Node?
    ensures Keys(RemoveMax(t, tie).root) == Keys(t) - {MaxNode(t).key}
    ensures Ordered(RemoveMax(t, tie).root)
  {
    RemoveMaxKeys(t, tie);
    var Node(_, _, _, r, _) := t;
    if r.Node? {
      RemoveMaxOrdered(r, tie);
      var u := t.(right := RemoveMax(r, tie).root);
      assert Ordered(u);
      RebalanceContent(u, tie);
    }
  }

  /** deleteMax removes exactly the largest key's pair (AVLTree.h:410-425). */
  lemma {:induction false} RemoveMaxContent<V>(t: Tree<V>, tie: OnTie)
    requires Ordered(t) && t.Node?
    ensures Content(RemoveMax(t, tie).root) == Content(t) - {MaxNode(t).key}
  {
    var Node(k, v, l, r, _) := t;
    if r.Node? {
      RemoveMaxContent(r, tie);
      RemoveMaxOrdered(r, tie);
      RebalanceContent(t.(right := RemoveMax(r, tie).root), tie);
      RemoveBelowRight(Content(l), Content(r), k, v, MaxNode(r).key);
    } else {
      RemoveTop(Content(l), Content(r), k, v);
    }
  }

  /** The two-child case of deleteKey: the successor copy in the deleted node's place is a search tree. */
  lemma SuccessorOrdered<V>(t: Tree<V>, tie: OnTie)
    requires Ordered(t) && t.Node? && t.right.Node?
    ensures Ordered(Successor(t.left, t.right, tie))
  {
    var Node(k, _, l, r, _) := t;
    var m := MinNode(r).key;
    var rest := RemoveMin(r, tie).root;
    RemoveMinOrdered(r, tie);
    forall j | j in Keys(l) ensures j < m {
      assert j < k && k < m;
    }
    forall j | j in Keys(rest) ensures m < j {
      assert j in Keys(r) && j != m;
    }
    NodeOrdered(Successor(l, r, tie));
  }

  /** A node is a search tree when its subtrees are and its key separates them. */
  lemma NodeOrdered<V>(t: Tree<V>)
    requires t.Node? && Ordered(t.left) && Ordered(t.right)
    requires forall j :: j in Keys(t.left) ==> j < t.key
    requires forall j :: j in Keys(t.right) ==> t.key < j
    ensures Ordered(t)
  {
  }

  /** deleteKey drops exactly key from the key set. */
  lemma {:induction false} RemoveKeys<V>(t: Tree<V>, key: int, tie: OnTie)
    requires Ordered(t)
    ensures Keys(Remove(t, key, tie).root) == Keys(t) - {key}
  {
    match t
    case Leaf =>
    case Node(k, _, l, r, _) =>
      if key < k {
        RemoveKeys(l, key, tie);
        RemoveKeysBelow(t, key, tie);
      } else if key > k {
        RemoveKeys(r, key, tie);
        RemoveKeysAbove(t, key, tie);
      } else {
        RemoveKeysHere(t, tie);
      }
  }

  /** A deletion below the node's key only changes the left subtree's keys. */
  lemma RemoveKeysBelow<V>(t: Tree<V>, key: int, tie: OnTie)
    requires Ordered(t) && t.Node? && key < t.key
    requires Keys(Remove(t.left, key, tie).root) == Keys(t.left) - {key}
    ensures Keys(Remove(t, key, tie).root) == Keys(t) - {key}
  {
    assert key !in Keys(t.right);
    assert Remove(t, key, tie).root == Rebalance(t.(left := Remove(t.left, key, tie).root), tie);
  }

  /** A deletion above the node's key only changes the right subtree's keys. */
  lemma RemoveKeysAbove<V>(t: Tree<V>, key: int, tie: OnTie)
    requires Ordered(t) && t.Node? && key > t.key
    requires Keys(Remove(t.right, key, tie).root) == Keys(t.right) - {key}
    ensures Keys(Remove(t, key, tie).root) == Keys(t) - {key}
  {
    assert key !in Keys(t.left);
    assert Remove(t, key, tie).root == Rebalance(t.(right := Remove(t.right, key, tie).root), tie);
  }

  /** Deleting the node's own key leaves exactly its subtrees' keys. */
  lemma RemoveKeysHere<V>(t: Tree<V>, tie: OnTie)
    requires Ordered(t) && t.Node?
    ensures Keys(Remove(t, t.key, tie).root) == Keys(t) - {t.key}
  {
    var Node(k, _, l, r, _) := t;
    assert k !in Keys(l) && k !in Keys(r);
    if l.Node? && r.Node? {
      RemoveMinKeys(r, tie);
      assert Remove(t, k, tie).root == Rebalance(Successor(l, r, tie), tie);
    }
  }

  /** deleteKey keeps the search-tree property. */
  lemma {:induction false} RemoveOrdered<V>(t: Tree<V>, key: int, tie: OnTie)
    requires Ordered(t)
    ensures Keys(Remove(t, key, tie).root) == Keys(t) - {key}
    ensures Ordered(Remove(t, key, tie).root)
  {
    RemoveKeys(t, key, tie);
    match t
    case Leaf =>
    case Node(k, _, l, r, _) =>
      if key < k {
        RemoveOrdered(l, key, tie);
        var u := t.(left := Remove(l, key, tie).root);
        NodeOrdered(u);
        RebalanceContent(u, tie);
      } else if key > k {
        RemoveOrdered(r, key, tie);
        var u := t.(right := Remove(r, key, tie).root);
        NodeOrdered(u);
        RebalanceContent(u, tie);
      } else if l.Node? && r.Node? {
        SuccessorOrdered(t, tie);
        RebalanceContent(Successor(l, r, tie), tie);
      }
  }

  /** deleteKey drops key's pair and leaves every other pair alone (AVLTree.h:429-464). */
  lemma {:induction false} RemoveContent<V>(t: Tree<V>, key: int, tie: OnTie)
    requires Ordered(t)
    ensures Content(Remove(t, key, tie).root) == Content(t) - {key}
  {
    match t
    case Leaf =>
    case Node(k, _, l, r, _) =>
      if key < k {
        RemoveContent(l, key, tie);
        RemoveContentBelow(t, key, tie);
      } else if key > k {
        RemoveContent(r, key, tie);
        RemoveContentAbove(t, key, tie);
      } else {
        RemoveContentHere(t, tie);
      }
  }

  /** The step of RemoveContent where deleteKey goes into the left subtree (lines 436-438). */
  lemma RemoveContentBelow<V>(t: Tree<V>, key: int, tie: OnTie)
    requires Ordered(t) && t.Node? && key < t.key
    requires Content(Remove(t.left, key, tie).root) == Content(t.left) - {key}
    ensures Content(Remove(t, key, tie).root) == Content(t) - {key}
  {
    var u := t.(left := Remove(t.left, key, tie).root);
    assert Remove(t, key, tie).root == Rebalance(u, tie);
    RemoveOrdered(t.left, key, tie);
    RebalanceContent(u, tie);
    RemoveBelowLeft(Content(t.left), Content(t.right), t.key, t.value, key);
  }

  /** The step of RemoveContent where deleteKey goes into the right subtree (lines 439-441). */
  lemma RemoveContentAbove<V>(t: Tree<V>, key: int, tie: OnTie)
    requires Ordered(t) && t.Node? && key > t.key
    requires Content(Remove(t.right, key, tie).root) == Content(t.right) - {key}
    ensures Content(Remove(t, key, tie).root) == Content(t) - {key}
  {
    var u := t.(right := Remove(t.right, key, tie).root);
    assert Remove(t, key, tie).root == Rebalance(u, tie);
    RemoveOrdered(t.right, key, tie);
    RebalanceContent(u, tie);
    RemoveBelowRight(Content(t.left), Content(t.right), t.key, t.value, key);
  }

  /** The step of RemoveContent that deletes the node holding the key (lines 442-460). */
  lemma RemoveContentHere<V>(t: Tree<V>, tie: OnTie)
    requires Ordered(t) && t.Node?
    ensures Content(Remove(t, t.key, tie).root) == Content(t) - {t.key}
  {
    var l, r := t.left, t.right;
    if l.Leaf? || r.Leaf? {
      RemoveTop(Content(l), Content(r), t.key, t.value);
    } else {
      var m := MinNode(r);
      assert Remove(t, t.key, tie).root == Rebalance(Successor(l, r, tie), tie);
      RemoveMinContent(r, tie);
      SuccessorOrdered(t, tie);
      RebalanceContent(Successor(l, r, tie), tie);
      ReplaceTop(Content(l), Content(r), t.key, t.value, m.key, m.value);
    }
  }

  /** deleteKey lowers count_ by one exactly when key was present. */
  lemma {:induction false} RemoveShrink<V>(t: Tree<V>, key: int, tie: OnTie)
    requires Ordered(t)
    ensures Remove(t, key, tie).delta == if key in Keys(t) then -1 else 0
  {
    match t
    case Leaf =>
    case Node(k, _, l, r, _) =>
      if key < k {
        RemoveShrink(l, key, tie);
      } else if key > k {
        RemoveShrink(r, key, tie);
      }
  }

  // ----- Stored heights, under either choice on a tie -----

  /**
   * rebalance keeps every stored height right below and at the node, whichever
   * rotation it picks, when the heights below the node were right.
   */
  lemma RebalanceHeights<V>(t: Tree<V>, tie: OnTie)
    requires t.Node? && HeightsCorrect(t.left) && HeightsCorrect(t.right)
    ensures HeightsCorrect(Rebalance(t, tie))
  {
    var lh: int := NodeHeight(t.left);
    var rh: int := NodeHeight(t.right);
    if lh - rh > 1 && !OuterHeavier(NodeHeight(t.left.left), NodeHeight(t.left.right), tie) {
      assert HeightsCorrect(LeftRotate(t.left));
    } else if lh - rh < -1 && !OuterHeavier(NodeHeight(t.right.right), NodeHeight(t.right.left), tie) {
      assert HeightsCorrect(RightRotate(t.right));
    }
  }

  /** put keeps every stored height right, whichever choice rebalance makes on a tie. */
  lemma {:induction false} InsertHeights<V>(t: Tree<V>, key: int, val: V, tie: OnTie)
    requires HeightsCorrect(t)
    ensures HeightsCorrect(Insert(t, key, val, tie).root)
  {
    match t
    case Leaf =>
    case Node(k, _, l, r, _) =>
      if key < k {
        InsertHeights(l, key, val, tie);
        RebalanceHeights(t.(left := Insert(l, key, val, tie).root), tie);
      } else if key > k {
        InsertHeights(r, key, val, tie);
        RebalanceHeights(t.(right := Insert(r, key, val, tie).root), tie);
      }
  }

  /** deleteMin keeps every stored height right, whichever choice rebalance makes on a tie. */
  lemma {:induction false} RemoveMinHeights<V>(t: Tree<V>, tie: OnTie)
    requires HeightsCorrect(t)
    ensures HeightsCorrect(RemoveMin(t, tie).root)
  {
    match t
    case Leaf =>
    case Node(_, _, l, _, _) =>
      if l.Node? {
        RemoveMinHeights(l, tie);
        RebalanceHeights(t.(left := RemoveMin(l, tie).root), tie);
      }
  }

  /** deleteMax keeps every stored height right, whichever choice rebalance makes on a tie. */
  lemma {:induction false} RemoveMaxHeights<V>(t: Tree<V>, tie: OnTie)
    requires HeightsCorrect(t)
    ensures HeightsCorrect(RemoveMax(t, tie).root)
  {
    match t
    case Leaf =>
    case Node(_, _, _, r, _) =>
      if r.Node? {
        RemoveMaxHeights(r, tie);
        RebalanceHeights(t.(right := RemoveMax(r, tie).root), tie);
      }
  }

  /**
   * deleteKey keeps every stored height right, whichever choice rebalance
   * makes on a tie; the successor's height is recomputed at line 456.
   */
  lemma {:induction false} RemoveHeights<V>(t: Tree<V>, key: int, tie: OnTie)
    requires HeightsCorrect(t)
    ensures HeightsCorrect(Remove(t, key, tie).root)
  {
    match t
    case Leaf =>
    case Node(k, _, l, r, _) =>
      if key < k {
        RemoveHeights(l, key, tie);
        RebalanceHeights(t.(left := Remove(l, key, tie).root), tie);
      } else if key > k {
        RemoveHeights(r, key, tie);
        RebalanceHeights(t.(right := Remove(r, key, tie).root), tie);
      } else if l.Node? && r.Node? {
        RemoveMinHeights(r, tie);
        RebalanceHeights(Successor(l, r, tie), tie);
      }
  }

  // ----- Heights and balance -----

  /**
   * The case where the two choices of rebalance differ: one side is more than
   * one higher and the heavy child's two subtrees are equally high.
   */
  ghost predicate Tied<V>(t: Tree<V>)
  {
    && t.Node?
    && ((Height(t.left) - Height(t.right) > 1 && t.left.Node? && Height(t.left.left) == Height(t.left.right))
        || (Height(t.left) - Height(t.right) < -1 && t.right.Node? && Height(t.right.right) == Height(t.right.left)))
  }

  /** LL on a node whose left subtree is two higher and leans left or not at all. */
  lemma SingleRightSound<V>(t: Tree<V>)
    requires t.Node? && t.left.Node? && Sound(t.left) && Sound(t.right)
    requires Height(t.left) == Height(t.right) + 2
    requires Height(t.left.left) >= Height(t.left.right)
    ensures Sound(LL(t))
    ensures Height(LL(t)) == Height(t.left) + (if Height(t.left.left) == Height(t.left.right) then 1 else 0)
  {
    var Node(k, v, y, c, _) := t;
    var Node(_, _, a, b, _) := y;
    var x' := Refresh(t.(left := b));
    assert Height(x') == 1 + Max(Height(b), Height(c));
    assert LL(t) == Refresh(y.(right := x'));
  }

  /** RR on a node whose right subtree is two higher and leans right or not at all. */
  lemma SingleLeftSound<V>(t: Tree<V>)
    requires t.Node? && t.right.Node? && Sound(t.left) && Sound(t.right)
    requires Height(t.right) == Height(t.left) + 2
    requires Height(t.right.right) >= Height(t.right.left)
    ensures Sound(RR(t))
    ensures Height(RR(t)) == Height(t.right) + (if Height(t.right.right) == Height(t.right.left) then 1 else 0)
  {
    var Node(k, v, a, y, _) := t;
    var Node(_, _, b, c, _) := y;
    var x' := Refresh(t.(right := b));
    assert Height(x') == 1 + Max(Height(a), Height(b));
    assert RR(t) == Refresh(y.(left := x'));
  }

  /** LR on a node whose left subtree is two higher and leans right. */
  lemma DoubleRightSound<V>(t: Tree<V>)
    requires t.Node? && t.left.Node? && Sound(t.left) && Sound(t.right)
    requires Height(t.left) == Height(t.right) + 2
    requires Height(t.left.left) < Height(t.left.right)
    ensures Sound(LR(t))
    ensures Height(LR(t)) == Height(t.left)
  {
    var Node(k, v, y, c, _) := t;
    var Node(_, _, a, z, _) := y;
    var Node(_, _, b1, b2, _) := z;
    var hc := Height(c);
    assert Sound(a) && Sound(z);
    assert Sound(b1) && Sound(b2);
    assert Height(z) == 1 + Max(Height(b1), Height(b2)) && -1 <= Height(b1) - Height(b2) <= 1;
    assert Height(z) == hc + 1 && Height(a) == hc;
    assert hc - 1 <= Height(b1) <= hc && hc - 1 <= Height(b2) <= hc;
    var y' := Refresh(y.(right := b1));
    assert Height(y') == hc + 1 && Sound(y');
    var z' := Refresh(z.(left := y'));
    assert LeftRotate(y) == z';
    var x' := Refresh(t.(left := b2));
    assert Height(x') == hc + 1 && Sound(x');
    assert LR(t) == Refresh(z'.(right := x'));
  }

  /** RL on a node whose right subtree is two higher and leans left. */
  lemma DoubleLeftSound<V>(t: Tree<V>)
    requires t.Node? && t.right.Node? && Sound(t.left) && Sound(t.right)
    requires Height(t.right) == Height(t.left) + 2
    requires Height(t.right.right) < Height(t.right.left)
    ensures Sound(RL(t))
    ensures Height(RL(t)) == Height(t.right)
  {
    var Node(k, v, a, y, _) := t;
    var Node(_, _, z, c, _) := y;
    var Node(_, _, b1, b2, _) := z;
    var ha := Height(a);
    assert Sound(c) && Sound(z);
    assert Sound(b1) && Sound(b2);
    assert Height(z) == 1 + Max(Height(b1), Height(b2)) && -1 <= Height(b1) - Height(b2) <= 1;
    assert Height(z) == ha + 1 && Height(c) == ha;
    assert ha - 1 <= Height(b1) <= ha && ha - 1 <= Height(b2) <= ha;
    var y' := Refresh(y.(left := b2));
    assert Height(y') == ha + 1 && Sound(y');
    var z' := Refresh(z.(right := y'));
    assert RightRotate(y) == z';
    var x' := Refresh(t.(right := b1));
    assert Height(x') == ha + 1 && Sound(x');
    assert RL(t) == Refresh(z'.(left := x'));
  }

  /**
   * rebalance of a node whose subtrees are AVL trees differing in height by
   * at most 2 gives an AVL tree, unless the source's choice meets a tie.
   * Without a rotation the height is one more than the higher subtree;
   * after a rotation it is that of the higher subtree, or one more at a tie.
   */
  lemma RebalanceSound<V>(t: Tree<V>, tie: OnTie)
    requires t.Node? && Sound(t.left) && Sound(t.right)
    requires -2 <= Height(t.left) - Height(t.right) <= 2
    requires tie == DoubleRotation ==> !Tied(t)
    ensures Sound(Rebalance(t, tie))
    ensures Height(Rebalance(t, tie)) ==
      if -1 <= Height(t.left) - Height(t.right) <= 1 || Tied(t)
      then 1 + Max(Height(t.left), Height(t.right))
      else Max(Height(t.left), Height(t.right))
  {
    var Node(_, _, l, r, _) := t;
    if Height(l) - Height(r) > 1 {
      if Height(l.left) >= Height(l.right) && (Height(l.left) > Height(l.right) || tie == SingleRotation) {
        SingleRightSound(t);
      } else {
        DoubleRightSound(t);
      }
    } else if Height(l) - Height(r) < -1 {
      if Height(r.right) >= Height(r.left) && (Height(r.right) > Height(r.left) || tie == SingleRotation) {
        SingleLeftSound(t);
      } else {
        DoubleLeftSound(t);
      }
    }
  }

  /** A subtree that put made one higher is a single node or leans to one side. */
  ghost predicate Leaning<V>(t: Tree<V>)
  {
    t.Node? && (Height(t) == 1 || Height(t.left) != Height(t.right))
  }

  /**
   * A child of an AVL node that put made at most one higher, and that leans
   * when it grew, leaves the node within rebalance's reach and never tied.
   */
  lemma GrownChildUntied<V>(t: Tree<V>, n: Tree<V>)
    requires t.Node? && Sound(t) && n.Node? && Sound(n.left) && Sound(n.right)
    requires n.left == t.left || n.right == t.right
    requires Height(t.left) <= Height(n.left) <= Height(t.left) + 1
    requires Height(t.right) <= Height(n.right) <= Height(t.right) + 1
    requires Height(n.left) == Height(t.left) + 1 ==> Leaning(n.left)
    requires Height(n.right) == Height(t.right) + 1 ==> Leaning(n.right)
    ensures -2 <= Height(n.left) - Height(n.right) <= 2 && !Tied(n)
    ensures Height(t) <= Height(Rebalance(n, DoubleRotation)) <= Height(t) + 1
    ensures Height(Rebalance(n, DoubleRotation)) == Height(t) + 1 ==> Leaning(Rebalance(n, DoubleRotation))
    ensures Sound(Rebalance(n, DoubleRotation))
  {
    RebalanceSound(n, DoubleRotation);
  }

  /**
   * put keeps stored heights correct and every node balanced
   * (AVLTree.h:8-13, 365-387); the tree grows by at most one level, and
   * when it grows its root leans.
   */
  lemma {:induction false} InsertSound<V>(t: Tree<V>, key: int, val: V)
    requires Sound(t)
    ensures Sound(Insert(t, key, val, DoubleRotation).root)
    ensures Height(t) <= Height(Insert(t, key, val, DoubleRotation).root) <= Height(t) + 1
    ensures Height(Insert(t, key, val, DoubleRotation).root) == Height(t) + 1 ==> Leaning(Insert(t, key, val, DoubleRotation).root)
  {
    match t
    case Leaf =>
    case Node(k, _, l, r, _) =>
      if key < k {
        InsertSound(l, key, val);
        var n := t.(left := Insert(l, key, val, DoubleRotation).root);
        assert Insert(t, key, val, DoubleRotation).root == Rebalance(n, DoubleRotation);
        GrownChildUntied(t, n);
      } else if key > k {
        InsertSound(r, key, val);
        var n := t.(right := Insert(r, key, val, DoubleRotation).root);
        assert Insert(t, key, val, DoubleRotation).root == Rebalance(n, DoubleRotation);
        GrownChildUntied(t, n);
      }
  }

  /** Away from a tie both choices rotate alike. */
  lemma RebalanceUntied<V>(n: Tree<V>)
    requires n.Node? && Sound(n.left) && Sound(n.right) && !Tied(n)
    ensures Rebalance(n, SingleRotation) == Rebalance(n, DoubleRotation)
  {
  }

  /** The node put rebuilds on the way back up, before it is rebalanced. */
  ghost function InsertChild<V>(t: Tree<V>, key: int, val: V): Tree<V>
    requires t.Node?
  {
    if key < t.key then t.(left := Insert(t.left, key, val, DoubleRotation).root)
    else t.(right := Insert(t.right, key, val, DoubleRotation).root)
  }

  /** The node put rebalances after recursing into one side of an AVL tree is never tied. */
  lemma InsertChildUntied<V>(t: Tree<V>, key: int, val: V)
    requires t.Node? && Sound(t) && key != t.key
    ensures Sound(InsertChild(t, key, val).left) && Sound(InsertChild(t, key, val).right)
    ensures !Tied(InsertChild(t, key, val))
  {
    if key < t.key {
      InsertSound(t.left, key, val);
    } else {
      InsertSound(t.right, key, val);
    }
    GrownChildUntied(t, InsertChild(t, key, val));
  }

  /** On an AVL tree put never meets a tie, so the choice there makes no difference. */
  lemma {:induction false} InsertTieIrrelevant<V>(t: Tree<V>, key: int, val: V)
    requires Sound(t)
    ensures Insert(t, key, val, SingleRotation) == Insert(t, key, val, DoubleRotation)
  {
    match t
    case Leaf =>
    case Node(k, _, l, r, _) =>
      if key != k {
        if key < k {
          InsertTieIrrelevant(l, key, val);
        } else {
          InsertTieIrrelevant(r, key, val);
        }
        InsertChildUntied(t, key, val);
        RebalanceUntied(InsertChild(t, key, val));
      }
  }

  /**
   * A node of an AVL tree whose subtrees deletion made at most one lower:
   * rebalance with SingleRotation gives an AVL tree at most one lower than before.
   */
  lemma ShrunkChildren<V>(t: Tree<V>, n: Tree<V>)
    requires t.Node? && Sound(t) && n.Node? && Sound(n.left) && Sound(n.right)
    requires Height(t.left) - 1 <= Height(n.left) <= Height(t.left)
    requires Height(t.right) - 1 <= Height(n.right) <= Height(t.right)
    ensures Sound(Rebalance(n, SingleRotation))
    ensures Height(t) - 1 <= Height(Rebalance(n, SingleRotation)) <= Height(t)
  {
    RebalanceSound(n, SingleRotation);
  }

  /** deleteMin with SingleRotation keeps the tree AVL and lowers it by at most one level. */
  lemma {:induction false} RemoveMinSound<V>(t: Tree<V>)
    requires Sound(t)
    ensures Sound(RemoveMin(t, SingleRotation).root)
    ensures Height(t) - 1 <= Height(RemoveMin(t, SingleRotation).root) <= Height(t)
  {
    match t
    case Leaf =>
    case Node(_, _, l, r, _) =>
      if l.Node? {
        RemoveMinSound(l);
        ShrunkChildren(t, t.(left := RemoveMin(l, SingleRotation).root));
      }
  }

  /** deleteMax with SingleRotation keeps the tree AVL and lowers it by at most one level. */
  lemma {:induction false} RemoveMaxSound<V>(t: Tree<V>)
    requires Sound(t)
    ensures Sound(RemoveMax(t, SingleRotation).root)
    ensures Height(t) - 1 <= Height(RemoveMax(t, SingleRotation).root) <= Height(t)
  {
    match t
    case Leaf =>
    case Node(_, _, l, r, _) =>
      if r.Node? {
        RemoveMaxSound(r);
        ShrunkChildren(t, t.(right := RemoveMax(r, SingleRotation).root));
      }
  }

  /** deleteKey with SingleRotation keeps the tree AVL and lowers it by at most one level. */
  lemma {:induction false} RemoveSound<V>(t: Tree<V>, key: int)
    requires Sound(t)
    ensures Sound(Remove(t, key, SingleRotation).root)
    ensures Height(t) - 1 <= Height(Remove(t, key, SingleRotation).root) <= Height(t)
  {
    match t
    case Leaf =>
    case Node(k, _, l, r, _) =>
      if key < k {
        RemoveSound(l, key);
        ShrunkChildren(t, t.(left := Remove(l, key, SingleRotation).root));
      } else if key > k {
        RemoveSound(r, key);
        ShrunkChildren(t, t.(right := Remove(r, key, SingleRotation).root));
      } else if l.Node? && r.Node? {
        RemoveMinSound(r);
        ShrunkChildren(t, Successor(l, r, SingleRotation));
      }
  }

  // ----- The source's tie choice after a deletion -----

  /** A one-node subtree holding key k (a freshly created AVLTreeNode). */
  function Single(k: int): Tree<int>
  {
    Node(k, 0, Leaf, Leaf, 1)
  }

  /** An AVL tree on which the source's deleteMax meets a tie: 10(5(2(1,-),7(-,8)),12(-,13)). */
  function TieExample(): Tree<int>
  {
    Node(10, 0,
         Node(5, 0, Node(2, 0, Single(1), Leaf, 2), Node(7, 0, Leaf, Single(8), 2), 3),
         Node(12, 0, Leaf, Single(13), 2), 4)
  }

  /** The stored heights of TieExample are right. */
  lemma TieExampleHeights()
    ensures HeightsCorrect(TieExample())
  {
  }

  /** Every node of TieExample has a balance factor within one. */
  lemma TieExampleBalanced()
    ensures Balanced(TieExample())
  {
  }

  /** TieExample is a search tree. */
  lemma TieExampleOrdered()
    ensures Ordered(TieExample())
  {
  }

  /** TieExample is an AVL tree: ordered, with right heights and balance factors within one. */
  lemma TieExampleIsAvl()
    ensures IsAvl(TieExample())
  {
    TieExampleHeights();
    TieExampleBalanced();
    TieExampleOrdered();
  }

  /**
   * With the source's choice, deleteMax on TieExample removes 13, finds 10
   * left-heavy with its left child 5 tied, and double-rotates into
   * 7(5(2(1,-),-),10(8,12)), where node 5 has subtrees of heights 2 and 0:
   * every stored height is still right, but the tree is out of balance.
   * With SingleRotation the result is an AVL tree (RemoveMaxTieCorrected).
   */
  lemma RemoveMaxUnbalances()
    ensures IsAvl(TieExample())
    ensures RemoveMax(TieExample(), DoubleRotation).root ==
            Node(7, 0, Node(5, 0, Node(2, 0, Single(1), Leaf, 2), Leaf, 3), Node(10, 0, Single(8), Single(12), 2), 4)
    ensures HeightsCorrect(RemoveMax(TieExample(), DoubleRotation).root)
    ensures !Balanced(RemoveMax(TieExample(), DoubleRotation).root)
  {
    TieExampleIsAvl();
    RemoveMaxHeights(TieExample(), DoubleRotation);
    RemoveMaxTie();
    assert Height(Node(2, 0, Single(1), Leaf, 2)) == 2;
  }

  /** The steps of the source's deleteMax on TieExample. */
  lemma RemoveMaxTie()
    ensures RemoveMax(TieExample(), DoubleRotation).root ==
            Node(7, 0, Node(5, 0, Node(2, 0, Single(1), Leaf, 2), Leaf, 3), Node(10, 0, Single(8), Single(12), 2), 4)
  {
    RemoveMaxTieDescent();
    RemoveMaxTieRotation();
  }

  /** deleteMax removes 13 and hands node 10, now with right child 12, to rebalance. */
  lemma RemoveMaxTieDescent()
    ensures RemoveMax(TieExample(), DoubleRotation).root ==
            Rebalance(Node(10, 0, Node(5, 0, Node(2, 0, Single(1), Leaf, 2), Node(7, 0, Leaf, Single(8), 2), 3), Single(12), 4), DoubleRotation)
  {
    assert RemoveMax(TieExample().right, DoubleRotation).root == Single(12);
  }

  /** rebalance finds node 10 left-heavy with its left child tied, and applies LR. */
  lemma RemoveMaxTieRotation()
    ensures Rebalance(Node(10, 0, Node(5, 0, Node(2, 0, Single(1), Leaf, 2), Node(7, 0, Leaf, Single(8), 2), 3), Single(12), 4), DoubleRotation) ==
            Node(7, 0, Node(5, 0, Node(2, 0, Single(1), Leaf, 2), Leaf, 3), Node(10, 0, Single(8), Single(12), 2), 4)
  {
    var n := Node(10, 0, Node(5, 0, Node(2, 0, Single(1), Leaf, 2), Node(7, 0, Leaf, Single(8), 2), 3), Single(12), 4);
    assert Rebalance(n, DoubleRotation) == LR(n);
  }

  /** With SingleRotation the same deletion rotates 10 once and stays balanced. */
  lemma RemoveMaxTieCorrected()
    ensures RemoveMax(TieExample(), SingleRotation).root ==
            Node(5, 0, Node(2, 0, Single(1), Leaf, 2), Node(10, 0, Node(7, 0, Leaf, Single(8), 2), Single(12), 3), 4)
  {
    var t := TieExample();
    assert RemoveMax(t.right, SingleRotation).root == Single(12);
  }

  // ----- The map object -----

  lemma {:induction false} KeysSize<V>(t: Tree<V>)
    requires Ordered(t)
    ensures |Keys(t)| == NodeCount(t)
  {
    match t
    case Leaf =>
    case Node(k, v, l, r, _) =>
      KeysSize(l);
      KeysSize(r);
      forall j | j in Keys(l) ensures j !in Keys(r) {}
      assert Keys(l) * Keys(r) == {};
      assert |Keys(l) + Keys(r)| == |Keys(l)| + |Keys(r)|;
  }

  /** A search tree stores one pair per node. */
  lemma ContentSize<V>(t: Tree<V>)
    requires Ordered(t)
    ensures |Content(t)| == NodeCount(t)
  {
    KeysSize(t);
    assert |Content(t)| == |Content(t).Keys|;
  }

  /**
   * AVLTree<Key, Value> (AVLTree.h:31-108): root_ and count_.  put is the
   * source's; the deletions rebalance with SingleRotation, the choice that
   * keeps the tree balanced.
   */
  class AvlTree<V> {
    var root: Tree<V>
    var count: int

    /** count_ is the number of nodes, and the nodes form an AVL tree. */
    ghost predicate Valid()
      reads this
    {
      IsAvl(root) && count == NodeCount(root)
    }

    /** AVLTree() (AVLTree.h:108-113). */
    constructor ()
      ensures Valid() && root == Leaf && count == 0
    {
      root := Leaf;
      count := 0;
    }

    /** size() (AVLTree.h:40): the number of stored keys. */
    function Size(): (n: int)
      reads this
      requires Valid()
      ensures n == |Content(root)|
    {
      ContentSize(root);
      count
    }

    /** height() (AVLTree.h:41), which dereferences root_, so the tree must not be empty. */
    function TreeHeight(): (h: int)
      reads this
      requires Valid() && root.Node?
      ensures h == Height(root) && h >= 1
    {
      root.height
    }

    /** isEmpty() (AVLTree.h:42). */
    function IsEmpty(): (b: bool)
      reads this
      requires Valid()
      ensures b <==> Content(root) == map[]
    {
      ContentSize(root);
      count == 0
    }

    /** get(key) (AVLTree.h:45): the stored value, or None (nullptr) for an absent key. */
    function Get(key: int): (r: Option<V>)
      reads this
      requires Valid()
      ensures r.Some? <==> key in Content(root)
      ensures r.Some? ==> r.value == Content(root)[key]
    {
      Lookup(root, key)
    }

    /** contain(key) (AVLTree.h:43). */
    function Contain(key: int): (b: bool)
      reads this
      requires Valid()
      ensures b <==> key in Content(root)
    {
      Get(key) != None
    }

    /** put(key, val) (AVLTree.h:46). */
    method Put(key: int, val: V)
      requires Valid()
      modifies this
      ensures Valid()
      ensures root == Insert(old(root), key, val, DoubleRotation).root
      ensures Content(root) == old(Content(root))[key := val]
      ensures count == old(count) + (if key in old(Content(root)) then 0 else 1)
      ensures old(Height(root)) <= Height(root) <= old(Height(root)) + 1
    {
      InsertKeys(root, key, val, DoubleRotation);
      InsertOrdered(root, key, val, DoubleRotation);
      InsertContent(root, key, val, DoubleRotation);
      InsertGrowth(root, key, val, DoubleRotation);
      InsertSound(root, key, val);
      var e := Insert(root, key, val, DoubleRotation);
      root := e.root;
      count := count + e.delta;
    }

    /** minimum() (AVLTree.h:48-52); its assert on count_ is the precondition. */
    function Minimum(): (k: int)
      reads this
      requires Valid() && count != 0
      ensures k in Content(root)
      ensures forall j :: j in Content(root) ==> k <= j
    {
      MinNode(root).key
    }

    /** maximum() (AVLTree.h:53-57); its assert on count_ is the precondition. */
    function Maximum(): (k: int)
      reads this
      requires Valid() && count != 0
      ensures k in Content(root)
      ensures forall j :: j in Content(root) ==> j <= k
    {
      MaxNode(root).key
    }

    /** deleteMin() (AVLTree.h:59-62): a no-op on an empty tree. */
    method DeleteMin()
      requires Valid()
      modifies this
      ensures Valid()
      ensures root == RemoveMin(old(root), SingleRotation).root
      ensures old(count) == 0 ==> root == old(root) && count == 0
      ensures old(count) != 0 ==>
        && Content(root) == old(Content(root)) - {old(Minimum())}
        && count == old(count) - 1
    {
      if root != Leaf {
        RemoveMinOrdered(root, SingleRotation);
        RemoveMinContent(root, SingleRotation);
        RemoveMinSound(root);
        var e := RemoveMin(root, SingleRotation);
        root := e.root;
        count := count + e.delta;
      }
    }

    /** deleteMax() (AVLTree.h:63-66): a no-op on an empty tree. */
    method DeleteMax()
      requires Valid()
      modifies this
      ensures Valid()
      ensures root == RemoveMax(old(root), SingleRotation).root
      ensures old(count) == 0 ==> root == old(root) && count == 0
      ensures old(count) != 0 ==>
        && Content(root) == old(Content(root)) - {old(Maximum())}
        && count == old(count) - 1
    {
      if root != Leaf {
        RemoveMaxOrdered(root, SingleRotation);
        RemoveMaxContent(root, SingleRotation);
        RemoveMaxSound(root);
        var e := RemoveMax(root, SingleRotation);
        root := e.root;
        count := count + e.delta;
      }
    }

    /** deleteKey(key) (AVLTree.h:68): an absent key leaves the map and count_ as they were. */
    method DeleteKey(key: int)
      requires Valid()
      modifies this
      ensures Valid()
      ensures root == Remove(old(root), key, SingleRotation).root
      ensures Content(root) == old(Content(root)) - {key}
      ensures count == old(count) - (if key in old(Content(root)) then 1 else 0)
    {
      RemoveOrdered(root, key, SingleRotation);
      RemoveContent(root, key, SingleRotation);
      RemoveShrink(root, key, SingleRotation);
      RemoveSound(root, key);
      var e := Remove(root, key, SingleRotation);
      root := e.root;
      count := count + e.delta;
    }
  }
}
