/**
  The heap-level AVL tree of AVLTree.h: nodes are objects whose `key`, `value`,
  `height`, `left` and `right` fields are rewired in place, and every helper
  returns the node that becomes the root of the subtree it was given.

  The shape of a subtree is described by a ghost `Shape`: the node objects it
  consists of, arranged as a tree. `Wf(s)` says the `left`/`right` fields of
  those objects really form that tree, with no node shared or repeated, and
  `Abs(s)` reads the value (module AVLSpec) that the subtree stands for. Every
  method is proved to turn `Abs` of its shape into the AVLSpec function of the
  old value; the AVL properties are proved once, about those functions.
*/
module AVL {
  import opened AVLSpec
  import opened Wrappers

  class AVLNode<V> {
    var key: int
    var value: V
    var height: int
    var left: AVLNode?<V>
    var right: AVLNode?<V>

    /** `AVLNode(k, v)`: a leaf of height 1. */
    constructor (k: int, v: V)
      ensures key == k && value == v && height == 1
      ensures left == null && right == null
    {
      key, value, height := k, v, 1;
      left, right := null, null;
    }
  }

  /** The node objects of a subtree, arranged as the subtree. */
  datatype Shape<V> = Nil | Cell(node: AVLNode<V>, l: Shape<V>, r: Shape<V>)

  /** The pointer to the root of a subtree (`nullptr` for an empty one). */
  function Root<V>(s: Shape<V>): AVLNode?<V> {
    if s.Nil? then null else s.node
  }

  ghost function Nodes<V>(s: Shape<V>): set<object> {
    if s.Nil? then {} else {s.node} + Nodes(s.l) + Nodes(s.r)
  }

  /** The child pointers form exactly the shape `s`, and no node occurs twice. */
  ghost predicate Wf<V>(s: Shape<V>)
    reads Nodes(s)
  {
    s.Cell? ==>
      && s.node.left == Root(s.l) && s.node.right == Root(s.r)
      && s.node !in Nodes(s.l) && s.node !in Nodes(s.r) && Nodes(s.l) !! Nodes(s.r)
      && Wf(s.l) && Wf(s.r)
  }

  /** The tree value the nodes of `s` currently stand for. */
  ghost function Abs<V>(s: Shape<V>): (t: Tree<V>)
    reads Nodes(s)
    ensures t.Node? <==> s.Cell?
  {
    if s.Nil? then Empty else Node(s.node.key, s.node.value, s.node.height, Abs(s.l), Abs(s.r))
  }

  /** The nodes of a shape that a method is given already exist. */
  lemma {:induction false} NodesAllocated<V>(s: Shape<V>)
    ensures forall o | o in Nodes(s) :: allocated(o)
  {
    if s.Cell? {
      NodesAllocated(s.l);
      NodesAllocated(s.r);
    }
  }

  class AVLTree<V> {
    var root: AVLNode?<V>

    ghost var shape: Shape<V>

    /** The objects the tree consists of: itself and its nodes. */
    ghost function Repr(): set<object>
      reads this
    {
      {this} + Nodes(shape)
    }

    /** The nodes form an AVL tree. */
    ghost predicate Valid()
      reads this, Repr()
    {
      && this !in Nodes(shape)
      && Wf(shape) && Root(shape) == root
      && IsAVL(Abs(shape))
    }

    /** The key-to-value map the tree stores. */
    ghost function Contents(): map<int, V>
      reads this, Repr()
      requires Valid()
    {
      AVLSpec.Contents(Abs(shape))
    }

    /** `height(node)`: the cached height, 0 for an absent subtree. */
    static function Height(node: AVLNode?<V>, ghost s: Shape<V>): (h: int)
      reads Nodes(s)
      requires Wf(s) && Root(s) == node
      ensures h == HeightOf(Abs(s))
    {
      if node != null then node.height else 0
    }

    /** `getBalance(node)`: left height minus right height, 0 for an absent subtree. */
    static function GetBalance(node: AVLNode?<V>, ghost s: Shape<V>): (b: int)
      reads Nodes(s)
      requires Wf(s) && Root(s) == node
      ensures b == BalanceOf(Abs(s))
    {
      if node == null then 0 else Height(node.left, s.l) - Height(node.right, s.r)
    }

    /** `updateHeight(node)`: the cached height becomes 1 + the larger child height. */
    static method UpdateHeight(node: AVLNode?<V>, ghost s: Shape<V>)
      requires Wf(s) && Root(s) == node
      modifies node
      ensures Wf(s) && Abs(s) == Refreshed(old(Abs(s)))
    {
      if node == null {
        return;
      }
      node.height := 1 + Max(Height(node.left, s.l), Height(node.right, s.r));
    }

    /** `rotateRight(y)`: y's left child x takes y's place; y is refreshed before x. */
    static method RotateRight(y: AVLNode<V>, ghost s: Shape<V>) returns (x: AVLNode<V>, ghost s': Shape<V>)
      requires Wf(s) && Root(s) == y && s.l.Cell?
      modifies Nodes(s)
      ensures Wf(s') && Root(s') == x && Nodes(s') == Nodes(s)
      ensures Abs(s') == RotatedRight(old(Abs(s)))
    {
      x := y.left;
      var t2 := x.right;
      ghost var a, b, c := s.l.l, s.l.r, s.r;
      ghost var A, B, C := Abs(a), Abs(b), Abs(c);
      NodesAllocated(a);
      NodesAllocated(b);
      NodesAllocated(c);
      assert Nodes(s.l) == {x} + Nodes(a) + Nodes(b);
      assert x != y && y !in Nodes(a) + Nodes(b) + Nodes(c) && x !in Nodes(a) + Nodes(b) + Nodes(c);

      x.right := y;
      y.left := t2;

      ghost var sy := Cell(y, b, c);
      assert Abs(sy) == Node(y.key, y.value, y.height, B, C);
      UpdateHeight(y, sy);
      s' := Cell(x, a, sy);
      assert Abs(s') == Node(x.key, x.value, x.height, A, Abs(sy));
      UpdateHeight(x, s');
    }

    /** `rotateLeft(x)`: x's right child y takes x's place; x is refreshed before y. */
    static method RotateLeft(x: AVLNode<V>, ghost s: Shape<V>) returns (y: AVLNode<V>, ghost s': Shape<V>)
      requires Wf(s) && Root(s) == x && s.r.Cell?
      modifies Nodes(s)
      ensures Wf(s') && Root(s') == y && Nodes(s') == Nodes(s)
      ensures Abs(s') == RotatedLeft(old(Abs(s)))
    {
      y := x.right;
      var t2 := y.left;
      ghost var a, b, c := s.l, s.r.l, s.r.r;
      ghost var A, B, C := Abs(a), Abs(b), Abs(c);
      NodesAllocated(a);
      NodesAllocated(b);
      NodesAllocated(c);
      assert Nodes(s.r) == {y} + Nodes(b) + Nodes(c);
      assert x != y && y !in Nodes(a) + Nodes(b) + Nodes(c) && x !in Nodes(a) + Nodes(b) + Nodes(c);

      y.left := x;
      x.right := t2;

      ghost var sx := Cell(x, a, b);
      assert Abs(sx) == Node(x.key, x.value, x.height, A, B);
      UpdateHeight(x, sx);
      s' := Cell(y, sx, c);
      assert Abs(s') == Node(y.key, y.value, y.height, Abs(sx), C);
      UpdateHeight(y, s');
    }

    /** Replaces the node's left subtree by its left rotation: the first half of the LR case. */
    static method RotateLeftChild(node: AVLNode<V>, ghost s: Shape<V>) returns (ghost s': Shape<V>)
      requires Wf(s) && s.Cell? && s.node == node && s.l.Cell? && s.l.r.Cell?
      modifies node, Nodes(s.l)
      ensures Wf(s') && Root(s') == node && Nodes(s') == Nodes(s)
      ensures Abs(s') == old(Node(node.key, node.value, node.height, RotatedLeft(Abs(s.l)), Abs(s.r)))
    {
      NodesAllocated(s.r);
      ghost var R := Abs(s.r);
      var l;
      ghost var sl: Shape<V>;
      l, sl := RotateLeft(node.left, s.l);
      assert Wf(s.r) && Abs(s.r) == R;
      node.left := l;
      s' := Cell(node, sl, s.r);
      assert Wf(s.r) && Abs(s.r) == R && Wf(sl);
    }

    /** Replaces the node's right subtree by its right rotation: the first half of the RL case. */
    static method RotateRightChild(node: AVLNode<V>, ghost s: Shape<V>) returns (ghost s': Shape<V>)
      requires Wf(s) && s.Cell? && s.node == node && s.r.Cell? && s.r.l.Cell?
      modifies node, Nodes(s.r)
      ensures Wf(s') && Root(s') == node && Nodes(s') == Nodes(s)
      ensures Abs(s') == old(Node(node.key, node.value, node.height, Abs(s.l), RotatedRight(Abs(s.r))))
    {
      NodesAllocated(s.l);
      ghost var L := Abs(s.l);
      var r;
      ghost var sr: Shape<V>;
      r, sr := RotateRight(node.right, s.r);
      assert Wf(s.l) && Abs(s.l) == L;
      node.right := r;
      s' := Cell(node, s.l, sr);
      assert Wf(s.l) && Abs(s.l) == L && Wf(sr);
    }

    /** `rebalance(node)`: refresh the height, then resolve the LL, LR, RR and RL cases. */
    static method Rebalance(node: AVLNode?<V>, ghost s: Shape<V>) returns (r: AVLNode?<V>, ghost s': Shape<V>)
      requires Wf(s) && Root(s) == node
      requires Abs(s).Node? ==> HeightsOk(Abs(s).left) && HeightsOk(Abs(s).right)
      modifies Nodes(s)
      ensures Wf(s') && Root(s') == r && Nodes(s') == Nodes(s)
      ensures Abs(s') == Rebalanced(old(Abs(s)))
    {
      ghost var T := Abs(s);
      if node != null {
        RebalancedCases(T);
      }
      UpdateHeight(node, s);
      var balance := GetBalance(node, s);
      if balance > 1 {
        ghost var sc := s;
        if GetBalance(node.left, s.l) < 0 {
          sc := RotateLeftChild(node, s);
        }
        r, s' := RotateRight(node, sc);
      } else if balance < -1 {
        ghost var sc := s;
        if GetBalance(node.right, s.r) > 0 {
          sc := RotateRightChild(node, s);
        }
        r, s' := RotateLeft(node, sc);
      } else {
        r, s' := node, s;
      }
    }

    /**
      `insertNode(node, key, value, inserted)`: a new leaf when the subtree is
      empty, otherwise descend by key and rebalance on the way back; an equal
      key leaves the subtree as it is and reports `inserted == false`.
    */
    static method InsertNode(node: AVLNode?<V>, ghost s: Shape<V>, key: int, value: V)
      returns (r: AVLNode?<V>, inserted: bool, ghost s': Shape<V>)
      requires Wf(s) && Root(s) == node && HeightsOk(Abs(s)) && Ordered(Abs(s))
      modifies Nodes(s)
      decreases s, 1
      ensures Wf(s') && Root(s') == r
      ensures Nodes(s) <= Nodes(s') && fresh(Nodes(s') - Nodes(s))
      ensures Abs(s') == Inserted(old(Abs(s)), key, value)
      ensures inserted <==> key !in Keys(old(Abs(s)))
    {
      if node == null {
        r := new AVLNode(key, value);
        inserted := true;
        s' := Cell(r, Nil, Nil);
        return;
      }
      ghost var sc: Shape<V>;
      if key < node.key {
        inserted, sc := InsertLeft(node, s, key, value);
      } else if key > node.key {
        inserted, sc := InsertRight(node, s, key, value);
      } else {
        inserted := false;
        return node, inserted, s;
      }
      r, s' := Rebalance(node, sc);
    }

    /** Inserts into the node's left subtree and links the new subtree root back in as its left child. */
    static method InsertLeft(node: AVLNode<V>, ghost s: Shape<V>, key: int, value: V)
      returns (inserted: bool, ghost s': Shape<V>)
      requires Wf(s) && s.Cell? && s.node == node && HeightsOk(Abs(s.l)) && Ordered(Abs(s.l))
      modifies Nodes(s)
      decreases s, 0
      ensures Wf(s') && s'.Cell? && s'.node == node
      ensures Nodes(s) <= Nodes(s') && fresh(Nodes(s') - Nodes(s))
      ensures Abs(s') == old(Node(node.key, node.value, node.height, Inserted(Abs(s.l), key, value), Abs(s.r)))
      ensures inserted <==> key !in Keys(old(Abs(s.l)))
    {
      ghost var K, Val, H, R := node.key, node.value, node.height, Abs(s.r);
      NodesAllocated(s.r);
      assert node !in Nodes(s.l);
      var l;
      ghost var sl: Shape<V>;
      l, inserted, sl := InsertNode(node.left, s.l, key, value);
      assert node !in Nodes(sl) && Nodes(sl) !! Nodes(s.r);
      assert Wf(s.r) && Abs(s.r) == R;
      ghost var SL := Abs(sl);
      node.left := l;
      assert Wf(sl) && Abs(sl) == SL;
      s' := Cell(node, sl, s.r);
      assert Abs(s') == Node(K, Val, H, SL, R);
    }

    /** Inserts into the node's right subtree and links the new subtree root back in as its right child. */
    static method InsertRight(node: AVLNode<V>, ghost s: Shape<V>, key: int, value: V)
      returns (inserted: bool, ghost s': Shape<V>)
      requires Wf(s) && s.Cell? && s.node == node && HeightsOk(Abs(s.r)) && Ordered(Abs(s.r))
      modifies Nodes(s)
      decreases s, 0
      ensures Wf(s') && s'.Cell? && s'.node == node
      ensures Nodes(s) <= Nodes(s') && fresh(Nodes(s') - Nodes(s))
      ensures Abs(s') == old(Node(node.key, node.value, node.height, Abs(s.l), Inserted(Abs(s.r), key, value)))
      ensures inserted <==> key !in Keys(old(Abs(s.r)))
    {
      ghost var K, Val, H, L := node.key, node.value, node.height, Abs(s.l);
      NodesAllocated(s.l);
      assert node !in Nodes(s.r);
      var r;
      ghost var sr: Shape<V>;
      r, inserted, sr := InsertNode(node.right, s.r, key, value);
      assert node !in Nodes(sr) && Nodes(s.l) !! Nodes(sr);
      assert Wf(s.l) && Abs(s.l) == L;
      ghost var SR := Abs(sr);
      node.right := r;
      assert Wf(sr) && Abs(sr) == SR;
      s' := Cell(node, s.l, sr);
      assert Abs(s') == Node(K, Val, H, L, SR);
    }

    /** `minNode(node)`: follow left pointers to the node with no left child. */
    static method MinNode(node: AVLNode?<V>, ghost s: Shape<V>) returns (m: AVLNode?<V>)
      requires Wf(s) && Root(s) == node
      ensures node == null ==> m == null
      ensures node != null ==> m != null && m.key == Leftmost(Abs(s)).key && m.value == Leftmost(Abs(s)).value
    {
      if node == null {
        return null;
      }
      m := node;
      ghost var cs := s;
      while m.left != null
        invariant Wf(cs) && cs.Cell? && cs.node == m
        invariant Leftmost(Abs(cs)) == Leftmost(Abs(s))
        decreases cs
      {
        m := m.left;
        cs := cs.l;
      }
    }

    /**
      `removeNode(node, key, removed)`: descend by key; a found node with at
      most one child is replaced by that child, one with two children takes
      over its in-order successor's entry, which is then removed from the right
      subtree; every node on the way back is rebalanced.
    */
    static method RemoveNode(node: AVLNode?<V>, ghost s: Shape<V>, key: int)
      returns (r: AVLNode?<V>, removed: bool, ghost s': Shape<V>)
      requires Wf(s) && Root(s) == node && HeightsOk(Abs(s)) && Ordered(Abs(s))
      modifies Nodes(s)
      decreases s, 2
      ensures Wf(s') && Root(s') == r && Nodes(s') <= Nodes(s)
      ensures Abs(s') == Removed(old(Abs(s)), key)
      ensures removed <==> key in Keys(old(Abs(s)))
    {
      if node == null {
        return null, false, Nil;
      }
      ghost var sc: Shape<V>;
      if key < node.key {
        removed, sc := RemoveLeft(node, s, key);
      } else if key > node.key {
        removed, sc := RemoveRight(node, s, key);
      } else {
        removed := true;
        if node.left == null || node.right == null {
          var child := if node.left != null then node.left else node.right;
          return child, removed, if node.left != null then s.l else s.r;
        }
        removed, sc := TakeSuccessor(node, s);
      }
      r, s' := Rebalance(node, sc);
    }

    /** Removes from the node's left subtree and links the new subtree root back in as its left child. */
    static method RemoveLeft(node: AVLNode<V>, ghost s: Shape<V>, key: int)
      returns (removed: bool, ghost s': Shape<V>)
      requires Wf(s) && s.Cell? && s.node == node && HeightsOk(Abs(s.l)) && Ordered(Abs(s.l))
      modifies Nodes(s)
      decreases s, 0
      ensures Wf(s') && s'.Cell? && s'.node == node && Nodes(s') <= Nodes(s)
      ensures Abs(s') == old(Node(node.key, node.value, node.height, Removed(Abs(s.l), key), Abs(s.r)))
      ensures removed <==> key in Keys(old(Abs(s.l)))
    {
      ghost var K, Val, H, R := node.key, node.value, node.height, Abs(s.r);
      NodesAllocated(s.r);
      assert node !in Nodes(s.l);
      var l;
      ghost var sl: Shape<V>;
      l, removed, sl := RemoveNode(node.left, s.l, key);
      assert Wf(s.r) && Abs(s.r) == R;
      ghost var SL := Abs(sl);
      node.left := l;
      assert Wf(sl) && Abs(sl) == SL;
      s' := Cell(node, sl, s.r);
      assert Abs(s') == Node(K, Val, H, SL, R);
    }

    /** Removes from the node's right subtree and links the new subtree root back in as its right child. */
    static method RemoveRight(node: AVLNode<V>, ghost s: Shape<V>, key: int)
      returns (removed: bool, ghost s': Shape<V>)
      requires Wf(s) && s.Cell? && s.node == node && HeightsOk(Abs(s.r)) && Ordered(Abs(s.r))
      modifies Nodes(s)
      decreases s, 0
      ensures Wf(s') && s'.Cell? && s'.node == node && Nodes(s') <= Nodes(s)
      ensures Abs(s') == old(Node(node.key, node.value, node.height, Abs(s.l), Removed(Abs(s.r), key)))
      ensures removed <==> key in Keys(old(Abs(s.r)))
    {
      ghost var K, Val, H, L := node.key, node.value, node.height, Abs(s.l);
      NodesAllocated(s.l);
      assert node !in Nodes(s.r);
      var r;
      ghost var sr: Shape<V>;
      r, removed, sr := RemoveNode(node.right, s.r, key);
      assert Wf(s.l) && Abs(s.l) == L;
      ghost var SR := Abs(sr);
      node.right := r;
      assert Wf(sr) && Abs(sr) == SR;
      s' := Cell(node, s.l, sr);
      assert Abs(s') == Node(K, Val, H, L, SR);
    }

    /**
      The two-child case of `removeNode`: copy the successor's key and value
      into `node`, then remove the successor's key from the right subtree.
    */
    static method TakeSuccessor(node: AVLNode<V>, ghost s: Shape<V>)
      returns (removed: bool, ghost s': Shape<V>)
      requires Wf(s) && s.Cell? && s.node == node && s.r.Cell?
      requires HeightsOk(Abs(s.r)) && Ordered(Abs(s.r))
      modifies Nodes(s)
      decreases s, 1
      ensures Wf(s') && s'.Cell? && s'.node == node && Nodes(s') <= Nodes(s)
      ensures var successor := old(Leftmost(Abs(s.r)));
        Abs(s') == old(Node(successor.key, successor.value, node.height, Abs(s.l), Removed(Abs(s.r), successor.key)))
      ensures removed
    {
      ghost var L, R := Abs(s.l), Abs(s.r);
      LeftmostIsMinimum(R);
      KeysAreContentsKeys(R);
      NodesAllocated(s.l);
      NodesAllocated(s.r);
      assert node !in Nodes(s.l) + Nodes(s.r) && Wf(s.l) && Wf(s.r);
      var successor := MinNode(node.right, s.r);
      var tempKey := successor.key;
      node.key := tempKey;
      node.value := successor.value;
      assert Wf(s.l) && Abs(s.l) == L && Wf(s.r) && Abs(s.r) == R;
      removed, s' := RemoveRight(node, s, tempKey);
    }

    /** `findNode(node, key)`: walk down by key comparisons until the key or `nullptr`. */
    static method FindNode(node: AVLNode?<V>, ghost s: Shape<V>, key: int) returns (found: AVLNode?<V>)
      requires Wf(s) && Root(s) == node && Ordered(Abs(s))
      ensures found == null <==> key !in AVLSpec.Contents(Abs(s))
      ensures found != null ==> found.key == key && found.value == AVLSpec.Contents(Abs(s))[key]
    {
      var cur := node;
      ghost var cs := s;
      while cur != null
        invariant Wf(cs) && Root(cs) == cur && Ordered(Abs(cs))
        invariant key in AVLSpec.Contents(Abs(s)) <==> key in AVLSpec.Contents(Abs(cs))
        invariant key in AVLSpec.Contents(Abs(cs)) ==> AVLSpec.Contents(Abs(s))[key] == AVLSpec.Contents(Abs(cs))[key]
        decreases cs
      {
        ContentsOfNode(Abs(cs), key);
        if key < cur.key {
          cur := cur.left;
          cs := cs.l;
        } else if key > cur.key {
          cur := cur.right;
          cs := cs.r;
        } else {
          return cur;
        }
      }
      return null;
    }

    /** `AVLTree()`: an empty tree. */
    constructor ()
      ensures Valid() && fresh(Repr()) && Repr() == {this}
      ensures Contents() == map[]
    {
      root := null;
      shape := Nil;
    }

    /**
      `insert(key, value)`: adds `key |-> value` and answers true when `key` was
      absent; otherwise changes nothing and answers false.
    */
    method Insert(key: int, value: V) returns (inserted: bool)
      requires Valid()
      modifies Repr()
      ensures Valid() && fresh(Repr() - old(Repr()))
      ensures Contents() == AddIfAbsent(old(Contents()), key, value)
      ensures inserted <==> key !in old(Contents())
    {
      ghost var T := Abs(shape);
      InsertedCorrect(T, key, value);
      KeysAreContentsKeys(T);
      var r;
      ghost var s: Shape<V>;
      r, inserted, s := InsertNode(root, shape, key, value);
      ghost var A := Abs(s);
      assert this !in Nodes(s);
      root, shape := r, s;
      assert Wf(s) && Abs(s) == A;
    }

    /** `remove(key)`: deletes the entry for `key`, answering whether there was one. */
    method Remove(key: int) returns (removed: bool)
      requires Valid()
      modifies Repr()
      ensures Valid() && Repr() <= old(Repr())
      ensures Contents() == old(Contents()) - {key}
      ensures removed <==> key in old(Contents())
    {
      ghost var T := Abs(shape);
      RemovedCorrect(T, key);
      KeysAreContentsKeys(T);
      var r;
      ghost var s: Shape<V>;
      r, removed, s := RemoveNode(root, shape, key);
      ghost var A := Abs(s);
      root, shape := r, s;
      assert Wf(s) && Abs(s) == A;
    }

    /** `find(key)`: the value stored under `key`, or nothing. */
    method Find(key: int) returns (r: Option<V>)
      requires Valid()
      ensures Valid() && Contents() == old(Contents())
      ensures key in Contents() ==> r == Some(Contents()[key])
      ensures key !in Contents() ==> r == None
    {
      NodesAllocated(shape);
      var node := FindNode(root, shape, key);
      r := if node != null then Some(node.value) else None;
    }

    /** `isEmpty()`: no entry is stored. */
    function IsEmpty(): (b: bool)
      reads this, Repr()
      requires Valid()
      ensures b <==> Contents() == map[]
    {
      assert root != null ==> Abs(shape).key in AVLSpec.Contents(Abs(shape));
      root == null
    }
  }
}
