/**
 * The unbalanced binary search tree map of tree/BinaryTree/BinaryTree.h.
 *
 * Each private recursive helper of the C++ class takes a subtree, rewrites
 * the child links on the way back and returns the new subtree root.  Here it
 * is a function from a Tree value to an Edit, which also carries the change
 * the helper made to count_ on the way.  The class BinaryTree holds root_ and
 * count_ and applies those edits.  Keys are ints: the source only compares
 * them with <, > and ==.
 */
module Bst {
  import opened Common

  datatype Tree<V> = Leaf | Node(key: int, value: V, left: Tree<V>, right: Tree<V>)

  /** What a recursive helper returns: the new subtree root and how much it changed count_ by. */
  datatype Edit<V> = Edit(root: Tree<V>, delta: int)

  // ----- Abstractions -----

  function Keys<V>(t: Tree<V>): set<int>
  {
    match t
    case Leaf => {}
    case Node(k, _, l, r) => Keys(l) + {k} + Keys(r)
  }

  /** Number of nodes, which is what count_ tracks. */
  function NodeCount<V>(t: Tree<V>): nat
  {
    match t
    case Leaf => 0
    case Node(_, _, l, r) => NodeCount(l) + 1 + NodeCount(r)
  }

  /** The key-to-value map the tree stores (a node's own pair wins over its subtrees'). */
  function Content<V>(t: Tree<V>): (m: map<int, V>)
    ensures m.Keys == Keys(t)
  {
    match t
    case Leaf => map[]
    case Node(k, v, l, r) => (Content(l) + Content(r))[k := v]
  }

  /**
   * The search-tree property of BinaryTree.h:8-11: every key of a left subtree
   * is smaller than the node's key, every key of a right subtree larger.
   */
  ghost predicate Ordered<V>(t: Tree<V>)
  {
    match t
    case Leaf => true
    case Node(k, _, l, r) =>
      && (forall j :: j in Keys(l) ==> j < k)
      && (forall j :: j in Keys(r) ==> k < j)
      && Ordered(l) && Ordered(r)
  }

  /** The tree with its values erased: which keys sit where. */
  ghost function Skeleton<V>(t: Tree<V>): Tree<()>
  {
    match t
    case Leaf => Leaf
    case Node(k, _, l, r) => Node(k, (), Skeleton(l), Skeleton(r))
  }

  /** The (key, value) pairs in the order inOrder (BinaryTree.h:279-289) prints them. */
  ghost function InOrder<V>(t: Tree<V>): seq<(int, V)>
  {
    match t
    case Leaf => []
    case Node(k, v, l, r) => InOrder(l) + [(k, v)] + InOrder(r)
  }

  // ----- The private recursive helpers -----

  /** get(x, key) (BinaryTree.h:101-117); nullptr is None. */
  function Lookup<V>(t: Tree<V>, key: int): (r: Option<V>)
    ensures Ordered(t) ==> r == if key in Content(t) then Some(Content(t)[key]) else None
  {
    match t
    case Leaf => None
    case Node(k, v, l, r) =>
      if k == key then Some(v)
      else if key < k then Lookup(l, key)
      else Lookup(r, key)
  }

  /** put(x, key, val) (BinaryTree.h:119-137): count_++ happens where a node is created. */
  function Insert<V>(t: Tree<V>, key: int, val: V): (e: Edit<V>)
    ensures Keys(e.root) == Keys(t) + {key}
    ensures NodeCount(e.root) == NodeCount(t) + e.delta
  {
    match t
    case Leaf => Edit(Node(key, val, Leaf, Leaf), 1)
    case Node(k, v, l, r) =>
      if key < k then
        var e := Insert(l, key, val);
        Edit(Node(k, v, e.root, r), e.delta)
      else if key > k then
        var e := Insert(r, key, val);
        Edit(Node(k, v, l, e.root), e.delta)
      else
        Edit(Node(k, val, l, r), 0)
  }

  /** minimum(x) (BinaryTree.h:139-152): the node at the end of the left spine, Leaf for an empty tree. */
  function MinNode<V>(t: Tree<V>): (m: Tree<V>)
    ensures t.Leaf? <==> m.Leaf?
    ensures m.Node? ==> m.left.Leaf? && m.key in Keys(t)
    ensures m.Node? && Ordered(t) ==>
      && Content(t)[m.key] == m.value
      && forall j :: j in Keys(t) ==> m.key <= j
  {
    match t
    case Leaf => Leaf
    case Node(_, _, l, _) => if l.Leaf? then t else MinNode(l)
  }

  /** maximum(x) (BinaryTree.h:154-167): the node at the end of the right spine, Leaf for an empty tree. */
  function MaxNode<V>(t: Tree<V>): (m: Tree<V>)
    ensures t.Leaf? <==> m.Leaf?
    ensures m.Node? ==> m.right.Leaf? && m.key in Keys(t)
    ensures m.Node? && Ordered(t) ==>
      && Content(t)[m.key] == m.value
      && forall j :: j in Keys(t) ==> j <= m.key
  {
    match t
    case Leaf => Leaf
    case Node(_, _, _, r) => if r.Leaf? then t else MaxNode(r)
  }

  /** deleteMin(x) (BinaryTree.h:169-186). */
  function RemoveMin<V>(t: Tree<V>): (e: Edit<V>)
    ensures t.Leaf? ==> e == Edit(Leaf, 0)
    ensures t.Node? ==> e.delta == -1
    ensures NodeCount(e.root) == NodeCount(t) + e.delta
  {
    match t
    case Leaf => Edit(Leaf, 0)
    case Node(k, v, l, r) =>
      if l.Leaf? then Edit(r, -1)
      else
        var e := RemoveMin(l);
        Edit(Node(k, v, e.root, r), e.delta)
  }

  /** deleteMax(x) (BinaryTree.h:188-205). */
  function RemoveMax<V>(t: Tree<V>): (e: Edit<V>)
    ensures t.Leaf? ==> e == Edit(Leaf, 0)
    ensures t.Node? ==> e.delta == -1
    ensures NodeCount(e.root) == NodeCount(t) + e.delta
  {
    match t
    case Leaf => Edit(Leaf, 0)
    case Node(k, v, l, r) =>
      if r.Leaf? then Edit(l, -1)
      else
        var e := RemoveMax(r);
        Edit(Node(k, v, l, e.root), e.delta)
  }

  /**
   * deleteKey(x, key) (BinaryTree.h:207-246).  With two children the node is
   * replaced by a copy of the right subtree's minimum, whose own node is
   * removed by deleteMin (which is what decrements count_).
   */
  function Remove<V>(t: Tree<V>, key: int): (e: Edit<V>)
    ensures e.delta == 0 || e.delta == -1
    ensures NodeCount(e.root) == NodeCount(t) + e.delta
  {
    match t
    case Leaf => Edit(Leaf, 0)
    case Node(k, v, l, r) =>
      if key < k then
        var e := Remove(l, key);
        Edit(Node(k, v, e.root, r), e.delta)
      else if key > k then
        var e := Remove(r, key);
        Edit(Node(k, v, l, e.root), e.delta)
      else if l.Leaf? then Edit(r, -1)
      else if r.Leaf? then Edit(l, -1)
      else
        var s := MinNode(r);
        var e := RemoveMin(r);
        Edit(Node(s.key, s.value, l, e.root), e.delta)
  }

  // ----- What the helpers do to the stored map -----

  /** Under the search-tree property no key is stored twice, so count_ is the number of keys. */
  lemma {:induction false} KeysSize<V>(t: Tree<V>)
    requires Ordered(t)
    ensures |Keys(t)| == NodeCount(t)
  {
    match t
    case Leaf =>
    case Node(k, v, l, r) =>
      KeysSize(l);
      KeysSize(r);
      forall j | j in Keys(l) ensures j !in Keys(r) {}
      assert Keys(l) * Keys(r) == {};
      assert |Keys(l) + Keys(r)| == |Keys(l)| + |Keys(r)|;
  }

  /** A search tree stores one pair per node. */
  lemma ContentSize<V>(t: Tree<V>)
    requires Ordered(t)
    ensures |Content(t)| == NodeCount(t)
  {
    KeysSize(t);
    assert |Content(t)| == |Content(t).Keys|;
  }

  /** put keeps the search-tree property. */
  lemma {:induction false} InsertOrdered<V>(t: Tree<V>, key: int, val: V)
    requires Ordered(t)
    ensures Ordered(Insert(t, key, val).root)
  {
    match t
    case Leaf =>
    case Node(k, v, l, r) =>
      if key < k {
        InsertOrdered(l, key, val);
      } else if key > k {
        InsertOrdered(r, key, val);
      }
  }

  /** put stores val under key and leaves every other key's value alone. */
  lemma {:induction false} InsertContent<V>(t: Tree<V>, key: int, val: V)
    requires Ordered(t)
    ensures Content(Insert(t, key, val).root) == Content(t)[key := val]
  {
    match t
    case Leaf =>
    case Node(k, v, l, r) =>
      if key < k {
        InsertContent(l, key, val);
        UpdateBelowLeft(Content(l), Content(r), k, v, key, val);
      } else if key > k {
        InsertContent(r, key, val);
        UpdateBelowRight(Content(l), Content(r), k, v, key, val);
      }
  }

  /** put raises count_ by one exactly when key was absent (BinaryTree.h:123-126). */
  lemma {:induction false} InsertGrowth<V>(t: Tree<V>, key: int, val: V)
    requires Ordered(t)
    ensures Insert(t, key, val).delta == if key in Keys(t) then 0 else 1
  {
    match t
    case Leaf =>
    case Node(k, v, l, r) =>
      if key < k {
        InsertGrowth(l, key, val);
      } else if key > k {
        InsertGrowth(r, key, val);
      }
  }

  /** put of a present key only overwrites the value: the shape is unchanged (BinaryTree.h:132-134). */
  lemma {:induction false} InsertInPlace<V>(t: Tree<V>, key: int, val: V)
    requires Ordered(t) && key in Keys(t)
    ensures Skeleton(Insert(t, key, val).root) == Skeleton(t)
  {
    match t
    case Node(k, v, l, r) =>
      if key < k {
        InsertInPlace(l, key, val);
      } else if key > k {
        InsertInPlace(r, key, val);
      }
  }

  /** Everything put promises (BinaryTree.h:121-137), in one place. */
  lemma InsertSpec<V>(t: Tree<V>, key: int, val: V)
    requires Ordered(t)
    ensures Ordered(Insert(t, key, val).root)
    ensures Content(Insert(t, key, val).root) == Content(t)[key := val]
    ensures Insert(t, key, val).delta == if key in Keys(t) then 0 else 1
    ensures key in Keys(t) ==> Skeleton(Insert(t, key, val).root) == Skeleton(t)
  {
    InsertOrdered(t, key, val);
    InsertContent(t, key, val);
    InsertGrowth(t, key, val);
    if key in Keys(t) {
      InsertInPlace(t, key, val);
    }
  }

  /** After put(key, val), get(key) yields val and every other key reads as before. */
  lemma GetAfterPut<V>(t: Tree<V>, key: int, val: V, other: int)
    requires Ordered(t)
    ensures Lookup(Insert(t, key, val).root, key) == Some(val)
    ensures other != key ==> Lookup(Insert(t, key, val).root, other) == Lookup(t, other)
  {
    InsertSpec(t, key, val);
  }

  /** deleteMin drops exactly the smallest key from the key set and keeps the search-tree property. */
  lemma {:induction false} RemoveMinOrdered<V>(t: Tree<V>)
    requires Ordered(t) && t.Node?
    ensures Keys(RemoveMin(t).root) == Keys(t) - {MinNode(t).key}
    ensures Ordered(RemoveMin(t).root)
  {
    var Node(k, v, l, r) := t;
    if l.Node? {
      RemoveMinOrdered(l);
    }
  }

  /** deleteMin removes exactly the smallest key's pair (BinaryTree.h:171-186). */
  lemma {:induction false} RemoveMinSpec<V>(t: Tree<V>)
    requires Ordered(t) && t.Node?
    ensures Ordered(RemoveMin(t).root)
    ensures Content(RemoveMin(t).root) == Content(t) - {MinNode(t).key}
  {
    var Node(k, v, l, r) := t;
    RemoveMinOrdered(t);
    if l.Node? {
      RemoveMinSpec(l);
      RemoveMinOrdered(l);
      RemoveBelowLeft(Content(l), Content(r), k, v, MinNode(l).key);
    } else {
      RemoveTop(Content(l), Content(r), k, v);
    }
  }

  /** deleteMax drops exactly the largest key from the key set and keeps the search-tree property. */
  lemma {:induction false} RemoveMaxOrdered<V>(t: Tree<V>)
    requires Ordered(t) && t.Node?
    ensures Keys(RemoveMax(t).root) == Keys(t) - {MaxNode(t).key}
    ensures Ordered(RemoveMax(t).root)
  {
    var Node(k, v, l, r) := t;
    if r.Node? {
      RemoveMaxOrdered(r);
    }
  }

  /** deleteMax removes exactly the largest key's pair (BinaryTree.h:190-205). */
  lemma {:induction false} RemoveMaxSpec<V>(t: Tree<V>)
    requires Ordered(t) && t.Node?
    ensures Ordered(RemoveMax(t).root)
    ensures Content(RemoveMax(t).root) == Content(t) - {MaxNode(t).key}
  {
    var Node(k, v, l, r) := t;
    RemoveMaxOrdered(t);
    if r.Node? {
      RemoveMaxSpec(r);
      RemoveMaxOrdered(r);
      RemoveBelowRight(Content(l), Content(r), k, v, MaxNode(r).key);
    } else {
      RemoveTop(Content(l), Content(r), k, v);
    }
  }

  /** deleteKey drops exactly key from the key set. */
  lemma {:induction false} RemoveKeys<V>(t: Tree<V>, key: int)
    requires Ordered(t)
    ensures Keys(Remove(t, key).root) == Keys(t) - {key}
  {
    match t
    case Leaf =>
    case Node(k, v, l, r) =>
      if key < k {
        RemoveKeys(l, key);
      } else if key > k {
        RemoveKeys(r, key);
      } else if l.Node? && r.Node? {
        RemoveMinOrdered(r);
      }
  }

  /** deleteKey keeps the search-tree property. */
  lemma {:induction false} RemoveOrdered<V>(t: Tree<V>, key: int)
    requires Ordered(t)
    ensures Ordered(Remove(t, key).root)
  {
    match t
    case Leaf =>
    case Node(k, v, l, r) =>
      if key < k {
        RemoveOrdered(l, key);
        RemoveKeys(l, key);
      } else if key > k {
        RemoveOrdered(r, key);
        RemoveKeys(r, key);
      } else if l.Node? && r.Node? {
        SuccessorOrdered(k, v, l, r);
      }
  }

  /** The two-child case of deleteKey: the right subtree's minimum may take the deleted node's place. */
  lemma SuccessorOrdered<V>(k: int, v: V, l: Tree<V>, r: Tree<V>)
    requires Ordered(Node(k, v, l, r)) && r.Node?
    ensures Ordered(Node(MinNode(r).key, MinNode(r).value, l, RemoveMin(r).root))
  {
    var s := MinNode(r);
    RemoveMinOrdered(r);
    assert forall j :: j in Keys(l) ==> j < s.key;
  }

  /** deleteKey drops key's pair and leaves every other pair alone. */
  lemma {:induction false} RemoveContent<V>(t: Tree<V>, key: int)
    requires Ordered(t)
    ensures Content(Remove(t, key).root) == Content(t) - {key}
  {
    match t
    case Leaf =>
    case Node(k, v, l, r) =>
      if key < k {
        RemoveContent(l, key);
        RemoveBelowLeft(Content(l), Content(r), k, v, key);
      } else if key > k {
        RemoveContent(r, key);
        RemoveBelowRight(Content(l), Content(r), k, v, key);
      } else if l.Leaf? || r.Leaf? {
        RemoveTop(Content(l), Content(r), k, v);
      } else {
        var s := MinNode(r);
        RemoveMinSpec(r);
        ReplaceTop(Content(l), Content(r), k, v, s.key, s.value);
      }
  }

  /** deleteKey lowers count_ by one exactly when key was present. */
  lemma {:induction false} RemoveShrink<V>(t: Tree<V>, key: int)
    requires Ordered(t)
    ensures Remove(t, key).delta == if key in Keys(t) then -1 else 0
  {
    match t
    case Leaf =>
    case Node(k, v, l, r) =>
      if key < k {
        RemoveShrink(l, key);
      } else if key > k {
        RemoveShrink(r, key);
      }
  }

  /**
   * deleteKey removes key and nothing else, and changes count_ by -1 exactly
   * when key was present, the two-child successor case included
   * (BinaryTree.h:212-245).
   */
  lemma RemoveSpec<V>(t: Tree<V>, key: int)
    requires Ordered(t)
    ensures Ordered(Remove(t, key).root)
    ensures Content(Remove(t, key).root) == Content(t) - {key}
    ensures Remove(t, key).delta == if key in Keys(t) then -1 else 0
  {
    RemoveOrdered(t, key);
    RemoveContent(t, key);
    RemoveShrink(t, key);
  }

  // ----- The in-order listing -----

  /** The in-order listing holds exactly the tree's keys. */
  lemma {:induction false} InOrderKeys<V>(t: Tree<V>)
    ensures KeysOf(InOrder(t)) == Keys(t)
  {
    match t
    case Leaf =>
    case Node(k, v, l, r) =>
      InOrderKeys(l);
      InOrderKeys(r);
      var s := InOrder(t);
      assert s == InOrder(l) + [(k, v)] + InOrder(r);
      assert forall p :: p in s <==> p in InOrder(l) || p == (k, v) || p in InOrder(r);
  }

  /**
   * The search-tree property holds exactly when an in-order traversal lists
   * strictly increasing keys.
   */
  lemma {:induction false} OrderedIffIncreasing<V>(t: Tree<V>)
    ensures Ordered(t) <==> StrictlyIncreasing(InOrder(t))
  {
    match t
    case Leaf =>
    case Node(k, v, l, r) =>
      OrderedIffIncreasing(l);
      OrderedIffIncreasing(r);
      IncreasingConcat(InOrder(l), k, v, InOrder(r));
      ListedBelow(l, k);
      ListedAbove(r, k);
      assert InOrder(t) == InOrder(l) + [(k, v)] + InOrder(r);
      if Ordered(t) {
        assert forall p :: p in InOrder(l) ==> p.0 < k;
        assert forall q :: q in InOrder(r) ==> k < q.0;
      }
      if StrictlyIncreasing(InOrder(t)) {
        assert forall j :: j in Keys(l) ==> j < k;
        assert forall j :: j in Keys(r) ==> k < j;
      }
  }

  /** Every key of t is below k exactly when every listed key is. */
  lemma ListedBelow<V>(t: Tree<V>, k: int)
    ensures (forall j :: j in Keys(t) ==> j < k) <==> (forall p :: p in InOrder(t) ==> p.0 < k)
  {
    InOrderKeys(t);
    assert forall p :: p in InOrder(t) ==> p.0 in KeysOf(InOrder(t));
  }

  /** Every key of t is above k exactly when every listed key is. */
  lemma ListedAbove<V>(t: Tree<V>, k: int)
    ensures (forall j :: j in Keys(t) ==> k < j) <==> (forall p :: p in InOrder(t) ==> k < p.0)
  {
    InOrderKeys(t);
    assert forall p :: p in InOrder(t) ==> p.0 in KeysOf(InOrder(t));
  }

  // ----- The map object -----

  /** BinaryTree<Key, Value> (BinaryTree.h:28-86): root_ and count_. */
  class BinaryTree<V> {
    var root: Tree<V>
    var count: int

    /** count_ is the number of nodes, and the nodes form a search tree. */
    ghost predicate Valid()
      reads this
    {
      Ordered(root) && count == NodeCount(root)
    }

    /** BinaryTree() (BinaryTree.h:88-93). */
    constructor ()
      ensures Valid() && root == Leaf && count == 0
    {
      root := Leaf;
      count := 0;
    }

    /** size() (BinaryTree.h:38): the number of stored keys. */
    function Size(): (n: int)
      reads this
      requires Valid()
      ensures n == |Content(root)|
    {
      ContentSize(root);
      count
    }

    /** isEmpty() (BinaryTree.h:39). */
    function IsEmpty(): (b: bool)
      reads this
      requires Valid()
      ensures b <==> Content(root) == map[]
    {
      ContentSize(root);
      count == 0
    }

    /** get(key) (BinaryTree.h:42): the stored value, or None (nullptr) for an absent key. */
    function Get(key: int): (r: Option<V>)
      reads this
      requires Valid()
      ensures r.Some? <==> key in Content(root)
      ensures r.Some? ==> r.value == Content(root)[key]
    {
      Lookup(root, key)
    }

    /** contain(key) (BinaryTree.h:40). */
    function Contain(key: int): (b: bool)
      reads this
      requires Valid()
      ensures b <==> key in Content(root)
    {
      Get(key) != None
    }

    /** put(key, val) (BinaryTree.h:43). */
    method Put(key: int, val: V)
      requires Valid()
      modifies this
      ensures Valid()
      ensures root == Insert(old(root), key, val).root
      ensures Content(root) == old(Content(root))[key := val]
      ensures count == old(count) + (if key in old(Content(root)) then 0 else 1)
      ensures key in old(Content(root)) ==> Skeleton(root) == old(Skeleton(root))
    {
      InsertSpec(root, key, val);
      var e := Insert(root, key, val);
      root := e.root;
      count := count + e.delta;
    }

    /** minimum() (BinaryTree.h:45-49); its assert on count_ is the precondition. */
    function Minimum(): (k: int)
      reads this
      requires Valid() && count != 0
      ensures k in Content(root)
      ensures forall j :: j in Content(root) ==> k <= j
    {
      MinNode(root).key
    }

    /** maximum() (BinaryTree.h:50-54); its assert on count_ is the precondition. */
    function Maximum(): (k: int)
      reads this
      requires Valid() && count != 0
      ensures k in Content(root)
      ensures forall j :: j in Content(root) ==> j <= k
    {
      MaxNode(root).key
    }

    /** deleteMin() (BinaryTree.h:56): a no-op on an empty tree. */
    method DeleteMin()
      requires Valid()
      modifies this
      ensures Valid()
      ensures root == RemoveMin(old(root)).root
      ensures old(count) == 0 ==> root == old(root) && count == 0
      ensures old(count) != 0 ==>
        && Content(root) == old(Content(root)) - {old(Minimum())}
        && count == old(count) - 1
    {
      if root != Leaf {
        RemoveMinSpec(root);
        var e := RemoveMin(root);
        root := e.root;
        count := count + e.delta;
      }
    }

    /** deleteMax() (BinaryTree.h:57): a no-op on an empty tree. */
    method DeleteMax()
      requires Valid()
      modifies this
      ensures Valid()
      ensures root == RemoveMax(old(root)).root
      ensures old(count) == 0 ==> root == old(root) && count == 0
      ensures old(count) != 0 ==>
        && Content(root) == old(Content(root)) - {old(Maximum())}
        && count == old(count) - 1
    {
      if root != Leaf {
        RemoveMaxSpec(root);
        var e := RemoveMax(root);
        root := e.root;
        count := count + e.delta;
      }
    }

    /** deleteKey(key) (BinaryTree.h:59): an absent key leaves everything as it was. */
    method DeleteKey(key: int)
      requires Valid()
      modifies this
      ensures Valid()
      ensures root == Remove(old(root), key).root
      ensures Content(root) == old(Content(root)) - {key}
      ensures count == old(count) - (if key in old(Content(root)) then 1 else 0)
    {
      RemoveSpec(root, key);
      var e := Remove(root, key);
      root := e.root;
      count := count + e.delta;
    }
  }

  /** What the scenario's final tree stores. */
  lemma FinalContent()
    ensures Content(Node(1, 2, Node(0, 1, Leaf, Leaf), Node(5, 2, Node(2, 1, Leaf, Leaf), Leaf)))
      == map[0 := 1, 1 := 2, 2 := 1, 5 := 2]
  {
  }

  /** The first three puts of test_BinaryTree.cpp:5-7 build 1(0, 5). */
  method ScenarioStart() returns (bt: BinaryTree<int>)
    ensures fresh(bt) && bt.Valid()
    ensures bt.root == Node(1, 2, Node(0, 1, Leaf, Leaf), Node(5, 2, Leaf, Leaf))
  {
    bt := new BinaryTree<int>();
    bt.Put(1, 2);
    bt.Put(0, 1);
    bt.Put(5, 2);
  }

  /**
   * The puts of test_BinaryTree.cpp:5-10: keys 1,0,5,3,2,7 with values
   * 2,1,2,1,1,1 build 1(0, 5(3(2, -), 7)).
   */
  method ScenarioTree() returns (bt: BinaryTree<int>)
    ensures fresh(bt) && bt.Valid()
    ensures bt.root == Node(1, 2, Node(0, 1, Leaf, Leaf),
                            Node(5, 2, Node(3, 1, Node(2, 1, Leaf, Leaf), Leaf), Node(7, 1, Leaf, Leaf)))
  {
    bt := ScenarioStart();
    bt.Put(3, 1);
    bt.Put(2, 1);
    bt.Put(7, 1);
  }

  /**
   * The run of test_BinaryTree.cpp:3-30: after those puts, deleteMax and
   * deleteKey(3) leave 1(0, 5(2, -)), whose maximum is 5 and minimum 0.
   */
  method Scenario() returns (content: map<int, int>, max: int, min: int)
    ensures content == map[0 := 1, 1 := 2, 2 := 1, 5 := 2]
    ensures max == 5 && min == 0
  {
    var bt := ScenarioTree();
    bt.DeleteMax();
    assert bt.root == Node(1, 2, Node(0, 1, Leaf, Leaf),
                           Node(5, 2, Node(3, 1, Node(2, 1, Leaf, Leaf), Leaf), Leaf));
    bt.DeleteKey(3);
    assert bt.root == Node(1, 2, Node(0, 1, Leaf, Leaf), Node(5, 2, Node(2, 1, Leaf, Leaf), Leaf));
    FinalContent();
    content := Content(bt.root);
    max := bt.Maximum();
    min := bt.Minimum();
  }
}
