/**
 * The game's binary search tree of districts, keyed by district ID and never
 * rebalanced. A Node value stands for a TreeNode; rewiring a child or
 * replacing a node's district yields a new tree value.
 */
module DistrictTree {
  import opened Lists
  import opened Panem

  datatype Tree = Nil | Node(district: District, left: Tree, right: Tree)

  /** The shape of a tree: where each district ID sits, without the districts' lists. */
  datatype Outline = Leaf | Fork(id: int, left: Outline, right: Outline)

  function Shape(t: Tree): Outline {
    match t
    case Nil => Leaf
    case Node(d, l, r) => Fork(d.id, Shape(l), Shape(r))
  }

  /**
   * s' is s with exactly one Leaf replaced by a node for id: a new leaf is
   * hung below an existing node and nothing else moves.
   */
  predicate AddsLeaf(s: Outline, s': Outline, id: int) {
    match s
    case Leaf => s' == Fork(id, Leaf, Leaf)
    case Fork(k, l, r) =>
      && s'.Fork? && s'.id == k
      && ((AddsLeaf(l, s'.left, id) && s'.right == r) || (s'.left == l && AddsLeaf(r, s'.right, id)))
  }

  /** The ID at the leftmost node of s: the least key when s outlines a BST. */
  function MinId(s: Outline): int
    requires s.Fork?
  {
    if s.left.Leaf? then s.id else MinId(s.left)
  }

  /** s with its leftmost node replaced by that node's right subtree. */
  function DropMin(s: Outline): Outline
    requires s.Fork?
  {
    if s.left.Leaf? then s.right else Fork(s.id, DropMin(s.left), s.right)
  }

  /**
   * The outline left by deleting id: a node with an empty side is replaced by
   * its other side; a node with two children takes the least ID of its right
   * subtree, whose leftmost node is dropped there; nothing else moves.
   */
  function Without(s: Outline, id: int): Outline {
    match s
    case Leaf => Leaf
    case Fork(k, l, r) =>
      if id < k then Fork(k, Without(l, id), r)
      else if id > k then Fork(k, l, Without(r, id))
      else if l.Leaf? then r
      else if r.Leaf? then l
      else Fork(MinId(r), l, DropMin(r))
  }

  /** The district IDs held by the nodes of t. */
  function Keys(t: Tree): set<int> {
    match t
    case Nil => {}
    case Node(d, l, r) => Keys(l) + {d.id} + Keys(r)
  }

  /** The districts held by the nodes of t. */
  function Held(t: Tree): set<District> {
    match t
    case Nil => {}
    case Node(d, l, r) => Held(l) + {d} + Held(r)
  }

  /** The tree read as a map from district ID to district (exact when t is a BST). */
  function Districts(t: Tree): (m: map<int, District>)
    ensures m.Keys == Keys(t)
  {
    match t
    case Nil => map[]
    case Node(d, l, r) => (Districts(l) + Districts(r))[d.id := d]
  }

  /** The ordering invariant: left IDs < node ID < right IDs, at every node. */
  predicate IsBST(t: Tree) {
    match t
    case Nil => true
    case Node(d, l, r) =>
      && IsBST(l) && IsBST(r)
      && (forall k :: k in Keys(l) ==> k < d.id)
      && (forall k :: k in Keys(r) ==> d.id < k)
  }

  /** P holds of the district of every node. */
  predicate EveryDistrict(t: Tree, P: District -> bool) {
    match t
    case Nil => true
    case Node(d, l, r) => P(d) && EveryDistrict(l, P) && EveryDistrict(r, P)
  }

  /** In a BST the leftmost ID is the least key. */
  lemma {:induction false} MinIdIsLeast(t: Tree)
    requires IsBST(t) && t.Node?
    ensures MinId(Shape(t)) in Keys(t)
    ensures forall k :: k in Keys(t) ==> MinId(Shape(t)) <= k
  {
    if t.left.Node? {
      MinIdIsLeast(t.left);
    }
  }

  /** Deleting the least key of a BST drops its leftmost node. */
  lemma {:induction false} WithoutMin(t: Tree)
    requires IsBST(t) && t.Node?
    ensures Without(Shape(t), MinId(Shape(t))) == DropMin(Shape(t))
  {
    if t.left.Node? {
      MinIdIsLeast(t.left);
      WithoutMin(t.left);
    }
  }

  /** Every district of the map view sits under its own ID. */
  lemma {:induction false} KeyedById(t: Tree)
    ensures forall k :: k in Districts(t) ==> Districts(t)[k].id == k
  {
    if t.Node? {
      KeyedById(t.left);
      KeyedById(t.right);
    }
  }

  /** In a BST, a child's map agrees with the whole tree's map on the child's keys. */
  lemma ChildMaps(t: Tree)
    requires t.Node?
    ensures IsBST(t) ==> forall k :: k in Districts(t.left) ==> Districts(t)[k] == Districts(t.left)[k]
    ensures IsBST(t) ==> forall k :: k in Districts(t.right) ==> Districts(t)[k] == Districts(t.right)[k]
  {
  }

  /** In a BST, every held district is the one the map gives for its ID. */
  lemma {:induction false} HeldIsMapped(t: Tree, d: District)
    requires IsBST(t) && d in Held(t)
    ensures d.id in Districts(t) && Districts(t)[d.id] == d
  {
    var Node(x, l, r) := t;
    ChildMaps(t);
    if d in Held(l) {
      HeldIsMapped(l, d);
    } else if d in Held(r) {
      HeldIsMapped(r, d);
    }
  }

  /** In a BST, P holds at every node exactly when it holds of every value of the map. */
  lemma EveryDistrictByMap(t: Tree, P: District -> bool)
    requires IsBST(t)
    ensures EveryDistrict(t, P) ==> forall k :: k in Districts(t) ==> P(Districts(t)[k])
    ensures (forall k :: k in Districts(t) ==> P(Districts(t)[k])) ==> EveryDistrict(t, P)
  {
    if EveryDistrict(t, P) {
      forall k | k in Districts(t) ensures P(Districts(t)[k]) { EveryNodeAtKey(t, P, k); }
    }
    if forall k :: k in Districts(t) ==> P(Districts(t)[k]) {
      MapAtEveryNode(t, P);
    }
  }

  lemma {:induction false} EveryNodeAtKey(t: Tree, P: District -> bool, k: int)
    requires IsBST(t) && EveryDistrict(t, P) && k in Districts(t)
    ensures P(Districts(t)[k])
  {
    var Node(d, l, r) := t;
    ChildMaps(t);
    if k in Districts(l) {
      EveryNodeAtKey(l, P, k);
    } else if k in Districts(r) {
      EveryNodeAtKey(r, P, k);
    }
  }

  lemma {:induction false} MapAtEveryNode(t: Tree, P: District -> bool)
    requires IsBST(t) && forall k :: k in Districts(t) ==> P(Districts(t)[k])
    ensures EveryDistrict(t, P)
  {
    if t.Node? {
      var Node(d, l, r) := t;
      ChildMaps(t);
      assert Districts(t)[d.id] == d;
      forall k | k in Districts(l) ensures P(Districts(l)[k]) { assert Districts(t)[k] == Districts(l)[k]; }
      forall k | k in Districts(r) ensures P(Districts(r)[k]) { assert Districts(t)[k] == Districts(r)[k]; }
      MapAtEveryNode(l, P);
      MapAtEveryNode(r, P);
    }
  }

  // Map identities behind the rebuilt nodes: a change made in one child's
  // map is the same change made to the whole tree's map.

  lemma UpdateLeft<K, V>(a: map<K, V>, b: map<K, V>, k: K, v: V, k0: K, v0: V)
    requires k !in b && k != k0
    ensures (a[k := v] + b)[k0 := v0] == (a + b)[k0 := v0][k := v]
  {
  }

  lemma UpdateRight<K, V>(a: map<K, V>, b: map<K, V>, k: K, v: V, k0: K, v0: V)
    requires k != k0
    ensures (a + b[k := v])[k0 := v0] == (a + b)[k0 := v0][k := v]
  {
  }

  lemma RemoveLeft<K, V>(a: map<K, V>, b: map<K, V>, k: K, k0: K, v0: V)
    requires k !in b && k != k0
    ensures ((a - {k}) + b)[k0 := v0] == (a + b)[k0 := v0] - {k}
  {
  }

  lemma RemoveRight<K, V>(a: map<K, V>, b: map<K, V>, k: K, k0: K, v0: V)
    requires k !in a && k != k0
    ensures (a + (b - {k}))[k0 := v0] == (a + b)[k0 := v0] - {k}
  {
  }

  lemma PromoteSuccessor<K, V>(a: map<K, V>, b: map<K, V>, s: K, k0: K, v0: V)
    requires s in b && s !in a && k0 !in a && k0 !in b
    ensures (a + (b - {s}))[s := b[s]] == (a + b)[k0 := v0] - {k0}
  {
  }

  /** findDistrict(TreeNode, int): binary search descent, equal ID checked first. */
  function FindDistrict(t: Tree, id: int): (r: Option<District>)
    ensures r.Some? ==> r.value.id == id && r.value in Held(t)
    ensures IsBST(t) ==> r == if id in Districts(t) then Some(Districts(t)[id]) else None
  {
    match t
    case Nil => None
    case Node(d, l, r) =>
      ChildMaps(t);
      if id == d.id then Some(d)
      else if id < d.id then FindDistrict(l, id)
      else FindDistrict(r, id)
  }

  /** findDistrictByID: the same descent, with the smaller-ID test first. */
  function FindDistrictByID(t: Tree, id: int): (r: Option<District>)
    ensures r.Some? ==> r.value.id == id && r.value in Held(t)
  {
    match t
    case Nil => None
    case Node(d, l, r) =>
      if id < d.id then FindDistrictByID(l, id)
      else if id > d.id then FindDistrictByID(r, id)
      else Some(d)
  }

  /** The two lookups agree on every tree, ordered or not. */
  lemma {:induction false} FindersAgree(t: Tree, id: int)
    ensures FindDistrictByID(t, id) == FindDistrict(t, id)
  {
    if t.Node? {
      FindersAgree(t.left, id);
      FindersAgree(t.right, id);
    }
  }

  /**
   * addDistrictToGameHelper on a non-empty tree: walks to the first empty slot
   * and puts a new leaf there; an ID already present stops the walk.
   * `added` reports whether a leaf was made (the source then removes the
   * district from the waiting list).
   */
  method InsertHelper(root: Tree, newDistrict: District) returns (r: Tree, added: bool)
    requires root.Node? && IsBST(root)
    ensures IsBST(r)
    ensures added <==> newDistrict.id !in Keys(root)
    ensures added ==> Keys(r) == Keys(root) + {newDistrict.id}
    ensures added ==> Districts(r) == Districts(root)[newDistrict.id := newDistrict]
    ensures !added ==> r == root
    ensures added ==> AddsLeaf(Shape(root), Shape(r), newDistrict.id)
  {
    var Node(d, left, right) := root;
    var leaf := Node(newDistrict, Nil, Nil);
    if newDistrict.id < d.id {
      var l;
      if left == Nil {
        l, added := leaf, true;
      } else {
        l, added := InsertHelper(left, newDistrict);
      }
      r := Node(d, l, right);
      if added {
        InsertedLeft(root, l, newDistrict);
      }
    } else if newDistrict.id > d.id {
      var rr;
      if right == Nil {
        rr, added := leaf, true;
      } else {
        rr, added := InsertHelper(right, newDistrict);
      }
      r := Node(d, left, rr);
      if added {
        InsertedRight(root, rr, newDistrict);
      }
    } else {
      r, added := root, false;
    }
  }

  // The two ways addDistrictToGameHelper rebuilds a node, each shown to add the district.

  lemma InsertedLeft(root: Tree, l: Tree, nd: District)
    requires root.Node? && IsBST(root) && nd.id < root.district.id && nd.id !in Keys(root.left)
    requires IsBST(l) && Keys(l) == Keys(root.left) + {nd.id}
    requires Districts(l) == Districts(root.left)[nd.id := nd]
    ensures var r := Node(root.district, l, root.right);
      && IsBST(r) && Keys(r) == Keys(root) + {nd.id}
      && Districts(r) == Districts(root)[nd.id := nd]
  {
    UpdateLeft(Districts(root.left), Districts(root.right), nd.id, nd, root.district.id, root.district);
  }

  lemma InsertedRight(root: Tree, rr: Tree, nd: District)
    requires root.Node? && IsBST(root) && nd.id > root.district.id && nd.id !in Keys(root.right)
    requires IsBST(rr) && Keys(rr) == Keys(root.right) + {nd.id}
    requires Districts(rr) == Districts(root.right)[nd.id := nd]
    ensures var r := Node(root.district, root.left, rr);
      && IsBST(r) && Keys(r) == Keys(root) + {nd.id}
      && Districts(r) == Districts(root)[nd.id := nd]
  {
    UpdateRight(Districts(root.left), Districts(root.right), nd.id, nd, root.district.id, root.district);
  }

  /** findSmallestDistrict: follows left children from node to the leftmost one. */
  method FindSmallestDistrict(node: Tree) returns (smallest: District)
    requires node.Node? && IsBST(node)
    ensures smallest.id in Keys(node) && Districts(node)[smallest.id] == smallest
    ensures forall k :: k in Keys(node) ==> smallest.id <= k
  {
    var n := node;
    smallest := n.district;
    while n.left != Nil
      invariant n.Node? && IsBST(n) && smallest == n.district
      invariant Held(n) <= Held(node)
      invariant forall k :: k in Keys(node) ==> k in Keys(n) || n.district.id < k
      decreases n
    {
      LeftStep(n);
      smallest := n.left.district;
      n := n.left;
    }
    assert forall k :: k in Keys(n) ==> smallest.id <= k;
    HeldIsMapped(node, smallest);
  }

  /** One step of findSmallestDistrict's walk loses no smaller key. */
  lemma LeftStep(n: Tree)
    requires n.Node? && n.left.Node? && IsBST(n)
    ensures Held(n.left) <= Held(n)
    ensures forall k :: k in Keys(n) ==> k in Keys(n.left) || n.left.district.id < k
  {
    assert n.left.district.id in Keys(n.left);
  }

  /**
   * deleteDistrict: the textbook BST delete. A node with at most one child is
   * replaced by that child; a node with two children takes the district of
   * the smallest node of its right subtree, which is then deleted there.
   */
  method DeleteDistrict(root: Tree, id: int) returns (r: Tree)
    requires IsBST(root)
    ensures IsBST(r)
    ensures Districts(r) == Districts(root) - {id}
    ensures Keys(r) == Keys(root) - {id}
    ensures id !in Keys(root) ==> r == root
    ensures Shape(r) == Without(Shape(root), id)
    ensures root.Node? && id < root.district.id ==>
      r.Node? && r.district == root.district && r.right == root.right
    ensures root.Node? && id > root.district.id ==>
      r.Node? && r.district == root.district && r.left == root.left
    ensures root.Node? && id == root.district.id && root.left == Nil ==> r == root.right
    ensures root.Node? && id == root.district.id && root.left.Node? && root.right == Nil ==> r == root.left
    ensures root.Node? && root.district.id == id && root.left.Node? && root.right.Node? ==>
      && r.Node? && r.left == root.left
      && r.district.id in Keys(root.right)
      && r.district == Districts(root.right)[r.district.id]
      && (forall k :: k in Keys(root.right) ==> r.district.id <= k)
  {
    if root == Nil {
      return root;
    }
    var Node(d, left, right) := root;
    if id < d.id {
      var l := DeleteDistrict(left, id);
      r := Node(d, l, right);
      DeletedBelowLeft(root, l, id);
    } else if id > d.id {
      var rr := DeleteDistrict(right, id);
      r := Node(d, left, rr);
      DeletedBelowRight(root, rr, id);
    } else {
      if left == Nil {
        return right;
      } else if right == Nil {
        return left;
      }
      var successor := FindSmallestDistrict(right);
      var rr := DeleteDistrict(right, successor.id);
      r := Node(successor, left, rr);
      SuccessorPromoted(root, successor, rr);
      SuccessorShape(right, successor, rr);
    }
  }

  // The three ways deleteDistrict rebuilds a node, each shown to delete id.

  lemma DeletedBelowLeft(root: Tree, l: Tree, id: int)
    requires root.Node? && IsBST(root) && id < root.district.id
    requires IsBST(l) && Districts(l) == Districts(root.left) - {id} && Keys(l) == Keys(root.left) - {id}
    requires id !in Keys(root.left) ==> l == root.left
    ensures var r := Node(root.district, l, root.right);
      && IsBST(r) && Districts(r) == Districts(root) - {id} && Keys(r) == Keys(root) - {id}
      && (id !in Keys(root) ==> r == root)
  {
    RemoveLeft(Districts(root.left), Districts(root.right), id, root.district.id, root.district);
  }

  lemma DeletedBelowRight(root: Tree, rr: Tree, id: int)
    requires root.Node? && IsBST(root) && id > root.district.id
    requires IsBST(rr) && Districts(rr) == Districts(root.right) - {id} && Keys(rr) == Keys(root.right) - {id}
    requires id !in Keys(root.right) ==> rr == root.right
    ensures var r := Node(root.district, root.left, rr);
      && IsBST(r) && Districts(r) == Districts(root) - {id} && Keys(r) == Keys(root) - {id}
      && (id !in Keys(root) ==> r == root)
  {
    RemoveRight(Districts(root.left), Districts(root.right), id, root.district.id, root.district);
  }

  lemma SuccessorPromoted(root: Tree, successor: District, rr: Tree)
    requires root.Node? && IsBST(root)
    requires successor.id in Keys(root.right) && Districts(root.right)[successor.id] == successor
    requires forall k :: k in Keys(root.right) ==> successor.id <= k
    requires IsBST(rr) && Districts(rr) == Districts(root.right) - {successor.id}
    requires Keys(rr) == Keys(root.right) - {successor.id}
    ensures var r := Node(successor, root.left, rr);
      && IsBST(r)
      && Districts(r) == Districts(root) - {root.district.id}
      && Keys(r) == Keys(root) - {root.district.id}
  {
    var Node(d, left, right) := root;
    SuccessorOrdered(root, successor, rr);
    PromoteSuccessor(Districts(left), Districts(right), successor.id, d.id, d);
    assert Districts(Node(successor, left, rr)) == Districts(root) - {d.id};
  }

  /** The successor found by findSmallestDistrict is the outline's leftmost ID. */
  lemma SuccessorShape(right: Tree, successor: District, rr: Tree)
    requires right.Node? && IsBST(right)
    requires successor.id in Keys(right) && forall k :: k in Keys(right) ==> successor.id <= k
    requires Shape(rr) == Without(Shape(right), successor.id)
    ensures successor.id == MinId(Shape(right))
    ensures Shape(rr) == DropMin(Shape(right))
  {
    MinIdIsLeast(right);
    WithoutMin(right);
  }

  lemma SuccessorOrdered(root: Tree, successor: District, rr: Tree)
    requires root.Node? && IsBST(root)
    requires successor.id in Keys(root.right)
    requires forall k :: k in Keys(root.right) ==> successor.id <= k
    requires IsBST(rr) && Keys(rr) == Keys(root.right) - {successor.id}
    ensures IsBST(Node(successor, root.left, rr))
  {
    assert forall k :: k in Keys(root.left) ==> k < successor.id;
  }

  /**
   * Replacing the district held under nd.id, found by the same descent as
   * findDistrict: the value form of mutating that District object's lists.
   */
  function Replace(t: Tree, nd: District): (r: Tree)
    requires IsBST(t)
    ensures IsBST(r) && Keys(r) == Keys(t) && Shape(r) == Shape(t)
    ensures Districts(r) == if nd.id in Keys(t) then Districts(t)[nd.id := nd] else Districts(t)
  {
    match t
    case Nil => Nil
    case Node(d, l, rr) =>
      if nd.id == d.id then Node(nd, l, rr)
      else if nd.id < d.id then
        var l' := Replace(l, nd);
        ReplacedLeft(t, l', nd);
        Node(d, l', rr)
      else
        var rr' := Replace(rr, nd);
        ReplacedRight(t, rr', nd);
        Node(d, l, rr')
  }

  // The two ways Replace rebuilds a node above the district it changes.

  lemma ReplacedLeft(t: Tree, l: Tree, nd: District)
    requires t.Node? && IsBST(t) && nd.id < t.district.id
    requires IsBST(l) && Keys(l) == Keys(t.left)
    requires Districts(l) == if nd.id in Keys(t.left) then Districts(t.left)[nd.id := nd] else Districts(t.left)
    ensures var r := Node(t.district, l, t.right);
      && IsBST(r) && Keys(r) == Keys(t)
      && Districts(r) == if nd.id in Keys(t) then Districts(t)[nd.id := nd] else Districts(t)
  {
    if nd.id in Keys(t.left) {
      UpdateLeft(Districts(t.left), Districts(t.right), nd.id, nd, t.district.id, t.district);
    }
  }

  lemma ReplacedRight(t: Tree, rr: Tree, nd: District)
    requires t.Node? && IsBST(t) && nd.id > t.district.id
    requires IsBST(rr) && Keys(rr) == Keys(t.right)
    requires Districts(rr) == if nd.id in Keys(t.right) then Districts(t.right)[nd.id := nd] else Districts(t.right)
    ensures var r := Node(t.district, t.left, rr);
      && IsBST(r) && Keys(r) == Keys(t)
      && Districts(r) == if nd.id in Keys(t) then Districts(t)[nd.id := nd] else Districts(t)
  {
    if nd.id in Keys(t.right) {
      UpdateRight(Districts(t.left), Districts(t.right), nd.id, nd, t.district.id, t.district);
    }
  }
}
