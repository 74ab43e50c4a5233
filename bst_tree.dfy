/**
 * The nodes of the binary search tree in BST.java and the side-effect-free
 * recursions over them: search, extremes, the order queries, insertion
 * (recAdd), the shape produced by removal, and the traversals.
 *
 * The element type's compareTo is modelled by an `Ord`: every element has a
 * key and keys are compared by a three-way comparison that is a total order.
 * Two elements compare as equal exactly when their keys are equal.
 */
module BstTree {
  import opened JavaLang
  import opened Ordering

  /** The element order: the key of an element and the comparison of keys. */
  datatype Ord<!T, !K(!new)> = Ord(key: T -> K, cmp: (K, K) -> int) {
    ghost predicate Valid() {
      TotalOrder(cmp)
    }

    /** a.compareTo(b) */
    function Compare(a: T, b: T): int {
      cmp(key(a), key(b))
    }
  }

  /** A node holds an element and two children; Leaf stands for null. */
  datatype Tree<T> = Leaf | Node(left: Tree<T>, data: T, right: Tree<T>)

  function Count<T>(t: Tree<T>): nat {
    match t
    case Leaf => 0
    case Node(l, _, r) => Count(l) + 1 + Count(r)
  }

  ghost function Elements<T>(t: Tree<T>): set<T> {
    match t
    case Leaf => {}
    case Node(l, d, r) => Elements(l) + {d} + Elements(r)
  }

  ghost function Keys<T, K(!new)>(o: Ord<T, K>, t: Tree<T>): (ks: set<K>)
    ensures forall e | e in Elements(t) :: o.key(e) in ks
  {
    match t
    case Leaf => {}
    case Node(l, d, r) => Keys(o, l) + {o.key(d)} + Keys(o, r)
  }

  ghost predicate AllBelow<T, K(!new)>(o: Ord<T, K>, t: Tree<T>, k: K) {
    forall j | j in Keys(o, t) :: o.cmp(j, k) < 0
  }

  ghost predicate AllAbove<T, K(!new)>(o: Ord<T, K>, t: Tree<T>, k: K) {
    forall j | j in Keys(o, t) :: o.cmp(j, k) > 0
  }

  /** The search-tree invariant: left keys below, right keys above each node. */
  ghost predicate IsBST<T, K(!new)>(o: Ord<T, K>, t: Tree<T>) {
    match t
    case Leaf => true
    case Node(l, d, r) =>
      && IsBST(o, l) && IsBST(o, r)
      && AllBelow(o, l, o.key(d)) && AllAbove(o, r, o.key(d))
  }

  // ---------------------------------------------------------------------
  // Traversals

  function InOrder<T>(t: Tree<T>): seq<T> {
    match t
    case Leaf => []
    case Node(l, d, r) => InOrder(l) + [d] + InOrder(r)
  }

  function PreOrder<T>(t: Tree<T>): seq<T> {
    match t
    case Leaf => []
    case Node(l, d, r) => [d] + PreOrder(l) + PreOrder(r)
  }

  function PostOrder<T>(t: Tree<T>): seq<T> {
    match t
    case Leaf => []
    case Node(l, d, r) => PostOrder(l) + PostOrder(r) + [d]
  }

  /** The keys of `s` are strictly increasing. */
  ghost predicate StrictlyIncreasing<T, K(!new)>(o: Ord<T, K>, s: seq<T>) {
    forall i, j | 0 <= i < j < |s| :: o.cmp(o.key(s[i]), o.key(s[j])) < 0
  }

  /** Each traversal lists every node exactly once. */
  lemma {:induction false} TraversalsListTheNodes<T>(t: Tree<T>)
    ensures |InOrder(t)| == |PreOrder(t)| == |PostOrder(t)| == Count(t)
    ensures multiset(PreOrder(t)) == multiset(InOrder(t)) == multiset(PostOrder(t))
  {
    match t
    case Leaf =>
    case Node(l, d, r) =>
      TraversalsListTheNodes(l);
      TraversalsListTheNodes(r);
  }

  /** The in-order listing holds exactly the stored elements. */
  lemma {:induction false} InOrderElements<T>(t: Tree<T>)
    ensures forall e | e in InOrder(t) :: e in Elements(t)
    ensures forall e | e in Elements(t) :: e in InOrder(t)
  {
    match t
    case Leaf =>
    case Node(l, d, r) =>
      InOrderElements(l);
      InOrderElements(r);
  }

  /** Joining two increasing sequences around a pivot that separates them. */
  lemma JoinIsIncreasing<T, K(!new)>(o: Ord<T, K>, a: seq<T>, d: T, b: seq<T>)
    requires o.Valid() && StrictlyIncreasing(o, a) && StrictlyIncreasing(o, b)
    requires forall i | 0 <= i < |a| :: o.cmp(o.key(a[i]), o.key(d)) < 0
    requires forall i | 0 <= i < |b| :: o.cmp(o.key(b[i]), o.key(d)) > 0
    ensures StrictlyIncreasing(o, a + [d] + b)
  {
    var s := a + [d] + b;
    var n := |a|;
    forall i, j | 0 <= i < j < |s| ensures o.cmp(o.key(s[i]), o.key(s[j])) < 0 {
      if j < n {
        assert s[i] == a[i] && s[j] == a[j];
      } else if i < n && j == n {
        assert s[i] == a[i];
      } else if i < n {
        assert s[i] == a[i] && s[j] == b[j - n - 1];
        assert o.cmp(o.key(s[j]), o.key(d)) > 0;
      } else if i == n {
        assert s[j] == b[j - n - 1];
      } else {
        assert s[i] == b[i - n - 1] && s[j] == b[j - n - 1];
      }
    }
  }

  /** The in-order traversal of a search tree is strictly increasing. */
  lemma {:induction false} InOrderIsIncreasing<T, K(!new)>(o: Ord<T, K>, t: Tree<T>)
    requires o.Valid() && IsBST(o, t)
    ensures StrictlyIncreasing(o, InOrder(t))
  {
    match t
    case Leaf =>
    case Node(l, d, r) =>
      InOrderIsIncreasing(o, l);
      InOrderIsIncreasing(o, r);
      InOrderElements(l);
      InOrderElements(r);
      var a, b := InOrder(l), InOrder(r);
      forall i | 0 <= i < |a| ensures o.cmp(o.key(a[i]), o.key(d)) < 0 {
        assert a[i] in a;
      }
      forall i | 0 <= i < |b| ensures o.cmp(o.key(b[i]), o.key(d)) > 0 {
        assert b[i] in b;
      }
      JoinIsIncreasing(o, a, d, b);
  }

  /** No two nodes of a search tree hold elements with the same key. */
  lemma {:induction false} KeysIdentifyElements<T, K(!new)>(o: Ord<T, K>, t: Tree<T>, a: T, b: T)
    requires o.Valid() && IsBST(o, t)
    requires a in Elements(t) && b in Elements(t) && o.key(a) == o.key(b)
    ensures a == b
  {
    match t
    case Leaf =>
    case Node(l, d, r) =>
      var k := o.key(a);
      if a in Elements(l) {
        assert o.cmp(k, o.key(d)) < 0;
        assert b in Elements(l);
        KeysIdentifyElements(o, l, a, b);
      } else if a in Elements(r) {
        assert o.cmp(k, o.key(d)) > 0;
        assert b in Elements(r);
        KeysIdentifyElements(o, r, a, b);
      } else {
        assert a == d;
        assert b !in Elements(l) && b !in Elements(r);
      }
  }

  /** Every stored key belongs to a stored element. */
  lemma {:induction false} KeyHasElement<T, K(!new)>(o: Ord<T, K>, t: Tree<T>, k: K)
    requires k in Keys(o, t)
    ensures exists e :: e in Elements(t) && o.key(e) == k
  {
    match t
    case Leaf =>
    case Node(l, d, r) =>
      if k in Keys(o, l) {
        KeyHasElement(o, l, k);
      } else if k in Keys(o, r) {
        KeyHasElement(o, r, k);
      } else {
        assert d in Elements(t);
      }
  }

  // ---------------------------------------------------------------------
  // Search: contains(data, node) and get(data, node)

  /** BST.contains(data, node): descent by comparison. */
  function ContainsAt<T, K(!new)>(o: Ord<T, K>, x: T, t: Tree<T>): (r: bool)
    requires o.Valid() && IsBST(o, t)
    ensures r <==> o.key(x) in Keys(o, t)
  {
    match t
    case Leaf => false
    case Node(l, d, rt) =>
      if o.Compare(x, d) == 0 then true
      else if o.Compare(x, d) < 0 then ContainsAt(o, x, l)
      else if o.Compare(x, d) > 0 then ContainsAt(o, x, rt)
      else false
  }

  /** BST.get(data, node): the stored element that compares equal to `x`. */
  function GetAt<T, K(!new)>(o: Ord<T, K>, x: T, t: Tree<T>): (r: T)
    requires o.Valid() && IsBST(o, t) && o.key(x) in Keys(o, t)
    ensures r in Elements(t) && o.key(r) == o.key(x)
  {
    var d := t.data;
    if o.Compare(x, d) == 0 then d
    else if o.Compare(x, d) < 0 then GetAt(o, x, t.left)
    else GetAt(o, x, t.right)
  }

  // ---------------------------------------------------------------------
  // Extremes: first(node) and last(node)

  /** BST.first(node): the leftmost element, the head of the in-order listing. */
  function FirstAt<T>(t: Tree<T>): (r: T)
    requires t.Node?
    ensures r in Elements(t)
    ensures |InOrder(t)| > 0 && r == InOrder(t)[0]
  {
    if t.left.Leaf? then t.data else FirstAt(t.left)
  }

  /** BST.last(node): the rightmost element, the end of the in-order listing. */
  function LastAt<T>(t: Tree<T>): (r: T)
    requires t.Node?
    ensures r in Elements(t)
    ensures |InOrder(t)| > 0 && r == InOrder(t)[|InOrder(t)| - 1]
  {
    if t.right.Leaf? then t.data else LastAt(t.right)
  }

  /** The leftmost element of a search tree holds its smallest key. */
  lemma {:induction false} FirstIsLeast<T, K(!new)>(o: Ord<T, K>, t: Tree<T>)
    requires o.Valid() && IsBST(o, t) && t.Node?
    ensures forall k | k in Keys(o, t) :: k == o.key(FirstAt(t)) || o.cmp(o.key(FirstAt(t)), k) < 0
  {
    if t.left.Node? {
      FirstIsLeast(o, t.left);
      assert FirstAt(t) in Elements(t.left);
    }
  }

  /** The rightmost element of a search tree holds its largest key. */
  lemma {:induction false} LastIsGreatest<T, K(!new)>(o: Ord<T, K>, t: Tree<T>)
    requires o.Valid() && IsBST(o, t) && t.Node?
    ensures forall k | k in Keys(o, t) :: k == o.key(LastAt(t)) || o.cmp(k, o.key(LastAt(t))) < 0
  {
    if t.right.Node? {
      LastIsGreatest(o, t.right);
      assert LastAt(t) in Elements(t.right);
    }
  }

  // ---------------------------------------------------------------------
  // Order queries

  /** `e` holds the smallest key at or above `k`. */
  ghost predicate IsCeiling<T, K(!new)>(o: Ord<T, K>, t: Tree<T>, k: K, e: T) {
    && e in Elements(t) && o.cmp(o.key(e), k) >= 0
    && forall j | j in Keys(o, t) && o.cmp(j, k) >= 0 :: o.cmp(o.key(e), j) <= 0
  }

  /** `e` holds the smallest key strictly above `k`. */
  ghost predicate IsHigher<T, K(!new)>(o: Ord<T, K>, t: Tree<T>, k: K, e: T) {
    && e in Elements(t) && o.cmp(o.key(e), k) > 0
    && forall j | j in Keys(o, t) && o.cmp(j, k) > 0 :: o.cmp(o.key(e), j) <= 0
  }

  /** `e` holds the largest key at or below `k`. */
  ghost predicate IsFloor<T, K(!new)>(o: Ord<T, K>, t: Tree<T>, k: K, e: T) {
    && e in Elements(t) && o.cmp(o.key(e), k) <= 0
    && forall j | j in Keys(o, t) && o.cmp(j, k) <= 0 :: o.cmp(o.key(e), j) >= 0
  }

  /** `e` holds the largest key strictly below `k`. */
  ghost predicate IsLower<T, K(!new)>(o: Ord<T, K>, t: Tree<T>, k: K, e: T) {
    && e in Elements(t) && o.cmp(o.key(e), k) < 0
    && forall j | j in Keys(o, t) && o.cmp(j, k) < 0 :: o.cmp(o.key(e), j) >= 0
  }

  /** BST.ceiling(data, node): exact. */
  function CeilingAt<T, K(!new)>(o: Ord<T, K>, x: T, t: Tree<T>): (r: Option<T>)
    requires o.Valid() && IsBST(o, t)
    ensures r.None? <==> forall j | j in Keys(o, t) :: o.cmp(j, o.key(x)) < 0
    ensures r.Some? ==> IsCeiling(o, t, o.key(x), r.value)
  {
    match t
    case Leaf => None
    case Node(l, d, rt) =>
      if o.Compare(x, d) > 0 then CeilingAt(o, x, rt)
      else
        var temp := CeilingAt(o, x, l);
        if temp.None? then Some(d) else temp
  }

  /** BST.findHigher(root, data): exact. */
  function HigherAt<T, K(!new)>(o: Ord<T, K>, x: T, t: Tree<T>): (r: Option<T>)
    requires o.Valid() && IsBST(o, t)
    ensures r.None? <==> forall j | j in Keys(o, t) :: o.cmp(j, o.key(x)) <= 0
    ensures r.Some? ==> IsHigher(o, t, o.key(x), r.value)
  {
    match t
    case Leaf => None
    case Node(l, d, rt) =>
      if o.Compare(d, x) <= 0 then HigherAt(o, x, rt)
      else
        var temp := HigherAt(o, x, l);
        if temp.None? then Some(d) else temp
  }

  /** BST.findLower(root, data): exact. */
  function LowerAt<T, K(!new)>(o: Ord<T, K>, x: T, t: Tree<T>): (r: Option<T>)
    requires o.Valid() && IsBST(o, t)
    ensures r.None? <==> forall j | j in Keys(o, t) :: o.cmp(j, o.key(x)) >= 0
    ensures r.Some? ==> IsLower(o, t, o.key(x), r.value)
  {
    match t
    case Leaf => None
    case Node(l, d, rt) =>
      if o.Compare(d, x) >= 0 then LowerAt(o, x, l)
      else
        var temp := LowerAt(o, x, rt);
        if temp.None? then Some(d) else temp
  }

  /** BST.floor(data, node) as written: it looks only one node to the right,
      so its answer is a stored key below `x` but not always the largest. */
  function FloorAt<T, K(!new)>(o: Ord<T, K>, x: T, t: Tree<T>): (r: Option<T>)
    requires o.Valid() && IsBST(o, t)
    ensures r.Some? ==> r.value in Elements(t) && o.cmp(o.key(r.value), o.key(x)) < 0
    ensures o.key(x) !in Keys(o, t) ==>
              (r.None? <==> forall j | j in Keys(o, t) :: o.cmp(j, o.key(x)) > 0)
  {
    match t
    case Leaf => None
    case Node(l, d, rt) =>
      if o.Compare(x, d) > 0 then
        if rt.Node? then
          if o.Compare(rt.data, x) < 0 then FloorAt(o, x, rt) else Some(d)
        else Some(d)
      else FloorAt(o, x, l)
  }

  /** The floor search the documentation of BST.floor describes: the mirror
      image of ceiling(data, node). */
  function FloorExact<T, K(!new)>(o: Ord<T, K>, x: T, t: Tree<T>): (r: Option<T>)
    requires o.Valid() && IsBST(o, t)
    ensures r.None? <==> forall j | j in Keys(o, t) :: o.cmp(j, o.key(x)) > 0
    ensures r.Some? ==> IsFloor(o, t, o.key(x), r.value)
  {
    match t
    case Leaf => None
    case Node(l, d, rt) =>
      if o.Compare(x, d) < 0 then FloorExact(o, x, l)
      else
        var temp := FloorExact(o, x, rt);
        if temp.None? then Some(d) else temp
  }

  // ---------------------------------------------------------------------
  // Insertion: recAdd

  /** BST.recAdd: the new node goes left of a larger key, otherwise right. */
  function Insert<T, K(!new)>(o: Ord<T, K>, x: T, t: Tree<T>): (r: Tree<T>)
    ensures Elements(r) == Elements(t) + {x}
    ensures Keys(o, r) == Keys(o, t) + {o.key(x)}
    ensures Count(r) == Count(t) + 1
    ensures o.Valid() && IsBST(o, t) && o.key(x) !in Keys(o, t) ==> IsBST(o, r)
  {
    match t
    case Leaf => Node(Leaf, x, Leaf)
    case Node(l, d, rt) =>
      if o.Compare(x, d) < 0 then Node(Insert(o, x, l), d, rt)
      else Node(l, d, Insert(o, x, rt))
  }

  // ---------------------------------------------------------------------
  // Removal: the tree that remove(data, node) and removeIt(node) leave

  /** The tree BST.remove(data, node) returns. */
  function Removal<T, K(!new)>(o: Ord<T, K>, x: T, t: Tree<T>): (r: Tree<T>)
    ensures Elements(r) <= Elements(t) && Count(r) <= Count(t)
    decreases t, 1
  {
    match t
    case Leaf => t
    case Node(l, d, rt) =>
      if o.Compare(x, d) == 0 then NodeRemoval(o, t)
      else if o.Compare(x, d) < 0 then (if l.Node? then Node(Removal(o, x, l), d, rt) else t)
      else if o.Compare(x, d) > 0 then (if rt.Node? then Node(l, d, Removal(o, x, rt)) else t)
      else t
  }

  /** The tree BST.removeIt(node) returns: a leaf disappears, a single child
      takes the node's place, and a node with two children takes the smallest
      element of its right subtree, which is then removed from that subtree. */
  function NodeRemoval<T, K(!new)>(o: Ord<T, K>, t: Tree<T>): (r: Tree<T>)
    requires t.Node?
    ensures Elements(r) <= Elements(t) && Count(r) <= Count(t)
    decreases t, 0
  {
    if t.left.Leaf? && t.right.Leaf? then Leaf
    else if t.left.Leaf? && t.right.Node? then t.right
    else if t.right.Leaf? && t.left.Node? then t.left
    else
      var successor := FirstAt(t.right);
      Node(t.left, successor, Removal(o, successor, t.right))
  }

  /** The elements of `s` whose key is not `k`. */
  ghost function WithoutKey<T, K(!new)>(o: Ord<T, K>, s: set<T>, k: K): set<T> {
    set e | e in s && o.key(e) != k
  }

  /** Filtering out a key that no stored element has changes nothing. */
  lemma AbsentKeyFiltersNothing<T, K(!new)>(o: Ord<T, K>, t: Tree<T>, k: K)
    requires k !in Keys(o, t)
    ensures WithoutKey(o, Elements(t), k) == Elements(t)
  {
  }

  /** Filtering a node's elements by a key other than the node's own. */
  lemma FilterNode<T, K(!new)>(o: Ord<T, K>, l: set<T>, d: T, r: set<T>, k: K)
    requires o.key(d) != k
    ensures WithoutKey(o, l + {d} + r, k) == WithoutKey(o, l, k) + {d} + WithoutKey(o, r, k)
  {
  }

  /** Removal takes away exactly the key asked for. */
  lemma {:induction false} RemovalKeys<T, K(!new)>(o: Ord<T, K>, x: T, t: Tree<T>)
    requires o.Valid() && IsBST(o, t)
    ensures Keys(o, Removal(o, x, t)) == Keys(o, t) - {o.key(x)}
    decreases t, 1
  {
    match t
    case Leaf =>
    case Node(l, d, rt) =>
      if o.Compare(x, d) == 0 {
        NodeRemovalKeys(o, t);
      } else if o.Compare(x, d) < 0 {
        assert o.key(x) !in Keys(o, rt);
        if l.Node? {
          RemovalKeys(o, x, l);
        }
      } else {
        assert o.key(x) !in Keys(o, l);
        if rt.Node? {
          RemovalKeys(o, x, rt);
        }
      }
  }

  lemma {:induction false} NodeRemovalKeys<T, K(!new)>(o: Ord<T, K>, t: Tree<T>)
    requires o.Valid() && IsBST(o, t) && t.Node?
    ensures Keys(o, NodeRemoval(o, t)) == Keys(o, t) - {o.key(t.data)}
    decreases t, 0
  {
    var Node(l, d, rt) := t;
    assert Keys(o, t) - {o.key(d)} == Keys(o, l) + Keys(o, rt) by {
      assert o.key(d) !in Keys(o, l) && o.key(d) !in Keys(o, rt);
    }
    if l.Node? && rt.Node? {
      var s := FirstAt(rt);
      RemovalKeys(o, s, rt);
      assert o.key(s) in Keys(o, rt);
      assert Keys(o, Removal(o, s, rt)) + {o.key(s)} == Keys(o, rt);
    }
  }

  /** Removal takes away exactly the elements with the key asked for. */
  lemma {:induction false} RemovalElements<T, K(!new)>(o: Ord<T, K>, x: T, t: Tree<T>)
    requires o.Valid() && IsBST(o, t)
    ensures Elements(Removal(o, x, t)) == WithoutKey(o, Elements(t), o.key(x))
    decreases t, 1
  {
    match t
    case Leaf =>
    case Node(l, d, rt) =>
      var k := o.key(x);
      if o.Compare(x, d) == 0 {
        NodeRemovalElements(o, t);
      } else if o.Compare(x, d) < 0 {
        assert k !in Keys(o, rt);
        AbsentKeyFiltersNothing(o, rt, k);
        FilterNode(o, Elements(l), d, Elements(rt), k);
        if l.Node? {
          RemovalElements(o, x, l);
        } else {
          AbsentKeyFiltersNothing(o, t, k);
        }
      } else {
        assert k !in Keys(o, l);
        AbsentKeyFiltersNothing(o, l, k);
        FilterNode(o, Elements(l), d, Elements(rt), k);
        if rt.Node? {
          RemovalElements(o, x, rt);
        } else {
          AbsentKeyFiltersNothing(o, t, k);
        }
      }
  }

  /** Without its root's key, a search tree holds just its subtrees' elements. */
  lemma DropRootKey<T, K(!new)>(o: Ord<T, K>, t: Tree<T>)
    requires o.Valid() && IsBST(o, t) && t.Node?
    ensures WithoutKey(o, Elements(t), o.key(t.data)) == Elements(t.left) + Elements(t.right)
  {
    var k := o.key(t.data);
    assert k !in Keys(o, t.left) && k !in Keys(o, t.right);
    AbsentKeyFiltersNothing(o, t.left, k);
    AbsentKeyFiltersNothing(o, t.right, k);
  }

  /** A stored element is the only one with its key. */
  lemma SplitOffElement<T, K(!new)>(o: Ord<T, K>, t: Tree<T>, s: T)
    requires o.Valid() && IsBST(o, t) && s in Elements(t)
    ensures Elements(t) == WithoutKey(o, Elements(t), o.key(s)) + {s}
  {
    forall e | e in Elements(t) && o.key(e) == o.key(s) ensures e == s {
      KeysIdentifyElements(o, t, e, s);
    }
  }

  lemma {:induction false} NodeRemovalElements<T, K(!new)>(o: Ord<T, K>, t: Tree<T>)
    requires o.Valid() && IsBST(o, t) && t.Node?
    ensures Elements(NodeRemoval(o, t)) == WithoutKey(o, Elements(t), o.key(t.data))
    decreases t, 0
  {
    DropRootKey(o, t);
    if t.left.Node? && t.right.Node? {
      var s := FirstAt(t.right);
      RemovalElements(o, s, t.right);
      SplitOffElement(o, t.right, s);
    }
  }

  /** Removal loses one node exactly when the key asked for was stored. */
  lemma {:induction false} RemovalCount<T, K(!new)>(o: Ord<T, K>, x: T, t: Tree<T>)
    requires o.Valid() && IsBST(o, t)
    ensures Count(Removal(o, x, t)) + (if o.key(x) in Keys(o, t) then 1 else 0) == Count(t)
    decreases t, 1
  {
    match t
    case Leaf =>
    case Node(l, d, rt) =>
      if o.Compare(x, d) == 0 {
        NodeRemovalCount(o, t);
      } else if o.Compare(x, d) < 0 {
        assert o.key(x) !in Keys(o, rt);
        if l.Node? {
          RemovalCount(o, x, l);
        }
      } else {
        assert o.key(x) !in Keys(o, l);
        if rt.Node? {
          RemovalCount(o, x, rt);
        }
      }
  }

  lemma {:induction false} NodeRemovalCount<T, K(!new)>(o: Ord<T, K>, t: Tree<T>)
    requires o.Valid() && IsBST(o, t) && t.Node?
    ensures Count(NodeRemoval(o, t)) + 1 == Count(t)
    decreases t, 0
  {
    if t.left.Node? && t.right.Node? {
      var s := FirstAt(t.right);
      RemovalCount(o, s, t.right);
      assert o.key(s) in Keys(o, t.right);
    }
  }

  /** Removal keeps the search-tree invariant. */
  lemma {:induction false} RemovalKeepsOrder<T, K(!new)>(o: Ord<T, K>, x: T, t: Tree<T>)
    requires o.Valid() && IsBST(o, t)
    ensures IsBST(o, Removal(o, x, t))
    decreases t, 1
  {
    match t
    case Leaf =>
    case Node(l, d, rt) =>
      if o.Compare(x, d) == 0 {
        NodeRemovalKeepsOrder(o, t);
      } else if o.Compare(x, d) < 0 {
        if l.Node? {
          RemovalKeepsOrder(o, x, l);
          RemovalKeys(o, x, l);
        }
      } else {
        if rt.Node? {
          RemovalKeepsOrder(o, x, rt);
          RemovalKeys(o, x, rt);
        }
      }
  }

  lemma {:induction false} NodeRemovalKeepsOrder<T, K(!new)>(o: Ord<T, K>, t: Tree<T>)
    requires o.Valid() && IsBST(o, t) && t.Node?
    ensures IsBST(o, NodeRemoval(o, t))
    decreases t, 0
  {
    var Node(l, d, rt) := t;
    if l.Node? && rt.Node? {
      var s := FirstAt(rt);
      RemovalKeepsOrder(o, s, rt);
      RemovalKeys(o, s, rt);
      FirstIsLeast(o, rt);
      assert o.key(s) in Keys(o, rt);
      var rt' := Removal(o, s, rt);
      forall j | j in Keys(o, l) ensures o.cmp(j, o.key(s)) < 0 {
        assert o.cmp(j, o.key(d)) < 0 && o.cmp(o.key(d), o.key(s)) < 0;
      }
      forall j | j in Keys(o, rt') ensures o.cmp(j, o.key(s)) > 0 {
        assert j in Keys(o, rt) && j != o.key(s);
      }
    }
  }

  /** Removing a key stored in a node with two children puts the smallest key
      above it, its in-order successor, in that node. */
  lemma TwoChildRemovalPromotesSuccessor<T, K(!new)>(o: Ord<T, K>, t: Tree<T>)
    requires o.Valid() && IsBST(o, t) && t.Node? && t.left.Node? && t.right.Node?
    ensures NodeRemoval(o, t).Node?
    ensures IsHigher(o, t, o.key(t.data), NodeRemoval(o, t).data)
    ensures NodeRemoval(o, t).data == FirstAt(t.right)
  {
    var s := FirstAt(t.right);
    FirstIsLeast(o, t.right);
    assert s in Elements(t);
    forall j | j in Keys(o, t) && o.cmp(j, o.key(t.data)) > 0
      ensures o.cmp(o.key(s), j) <= 0
    {
    }
  }

  // ---------------------------------------------------------------------
  // Rendering: toString's myHelper and toStringTreeFormat's preOrderPrint

  /** The text of elements, each followed by a line break, in order. */
  function Lines<T>(show: T -> string, s: seq<T>): string {
    if s == [] then "" else show(s[0]) + "\n" + Lines(show, s[1..])
  }

  lemma {:induction false} LinesAppend<T>(show: T -> string, a: seq<T>, b: seq<T>)
    ensures Lines(show, a + b) == Lines(show, a) + Lines(show, b)
  {
    if a == [] {
      assert a + b == b;
    } else {
      assert (a + b)[1..] == a[1..] + b;
      LinesAppend(show, a[1..], b);
    }
  }

  /** BST.myHelper(node, ans): the text of the left subtree, the node's own
      text and a newline, then the text of the right subtree, all appended to
      ans; each subtree's text is itself built from the same ans. */
  function MyHelper<T>(show: T -> string, t: Tree<T>, ans: string): (r: string)
    ensures ans <= r
  {
    match t
    case Leaf => ans
    case Node(l, d, r) => ans + (MyHelper(show, l, ans) + show(d) + "\n" + MyHelper(show, r, ans))
  }

  /** Started from the empty string, myHelper lists the elements in order, one
      per line. */
  lemma {:induction false} MyHelperListsInOrder<T>(show: T -> string, t: Tree<T>)
    ensures MyHelper(show, t, "") == Lines(show, InOrder(t))
  {
    match t
    case Leaf =>
    case Node(l, d, r) =>
      MyHelperListsInOrder(show, l);
      MyHelperListsInOrder(show, r);
      LinesAppend(show, InOrder(l) + [d], InOrder(r));
      LinesAppend(show, InOrder(l), [d]);
      assert Lines(show, [d]) == show(d) + "\n" + "";
  }

  function Repeat(s: string, n: nat): string {
    if n == 0 then "" else s + Repeat(s, n - 1)
  }

  /** The line start preOrderPrint writes for a node at depth `level`. */
  function Indentation(level: nat): string {
    "\n" + (if level > 0 then Repeat("   ", level - 1) + "|--" else "")
  }

  lemma {:induction false} IndentationLength(level: nat)
    ensures |Indentation(level)| == 1 + 3 * level
  {
    if level > 0 {
      RepeatLength("   ", level - 1);
    }
  }

  lemma {:induction false} RepeatLength(s: string, n: nat)
    ensures |Repeat(s, n)| == |s| * n
  {
    if n > 0 {
      RepeatLength(s, n - 1);
    }
  }

  /** The entries preOrderPrint appends for a subtree at depth `level`, in
      preorder, with an explicit "null" for every missing child. */
  function TreeEntries<T>(show: T -> string, t: Tree<T>, level: nat): (r: seq<string>)
    ensures |r| % 2 == 1
  {
    match t
    case Leaf => [Indentation(level) + "null"]
    case Node(l, d, r) =>
      [Indentation(level) + show(d)] + TreeEntries(show, l, level + 1) + TreeEntries(show, r, level + 1)
  }

  function Concat(ss: seq<string>): string {
    if ss == [] then "" else ss[0] + Concat(ss[1..])
  }

  lemma {:induction false} ConcatAppend(a: seq<string>, b: seq<string>)
    ensures Concat(a + b) == Concat(a) + Concat(b)
  {
    if a == [] {
      assert a + b == b;
    } else {
      assert (a + b)[1..] == a[1..] + b;
      ConcatAppend(a[1..], b);
    }
  }

  /** The text of a node's entries, after any prefix: its own line, then its
      subtrees'. */
  lemma TreeEntriesOfNode<T>(show: T -> string, t: Tree<T>, level: nat, prefix: string)
    requires t.Node?
    ensures prefix + Concat(TreeEntries(show, t, level)) ==
              prefix + Indentation(level) + show(t.data)
              + Concat(TreeEntries(show, t.left, level + 1)) + Concat(TreeEntries(show, t.right, level + 1))
  {
    var entry := Indentation(level) + show(t.data);
    var left, right := TreeEntries(show, t.left, level + 1), TreeEntries(show, t.right, level + 1);
    ConcatAppend([entry] + left, right);
    ConcatAppend([entry], left);
    assert Concat([entry]) == entry;
  }

  /** One entry per node and one per missing child, each on its own line. */
  lemma {:induction false} TreeEntriesShape<T>(show: T -> string, t: Tree<T>, level: nat)
    ensures |TreeEntries(show, t, level)| == 2 * Count(t) + 1
    ensures forall i | 0 <= i < |TreeEntries(show, t, level)| ::
              |TreeEntries(show, t, level)[i]| > 0 && TreeEntries(show, t, level)[i][0] == '\n'
  {
    match t
    case Leaf =>
    case Node(l, d, r) =>
      TreeEntriesShape(show, l, level + 1);
      TreeEntriesShape(show, r, level + 1);
  }

  // ---------------------------------------------------------------------
  // The defect in floor(data, node)

  /** Integers ordered by Integer.compareTo, each its own key. */
  function IntOrd(): Ord<int, int> {
    Ord(k => k, IntCompare)
  }

  /** After adding 50, 70 and 60, the largest key at most 65 is 60, but the
      floor search as written stops at 50 because the right child 70 of the
      root is larger than 65 and the search does not look at 70's left child. */
  lemma FloorAsWrittenMissesLeftOfRightChild()
    ensures var t := Insert(IntOrd(), 60, Insert(IntOrd(), 70, Insert(IntOrd(), 50, Leaf)));
            && IntOrd().Valid() && IsBST(IntOrd(), t)
            && FloorAt(IntOrd(), 65, t) == Some(50)
            && FloorExact(IntOrd(), 65, t) == Some(60)
  {
    IntCompareIsTotal();
    var o := IntOrd();
    var t := Insert(o, 60, Insert(o, 70, Insert(o, 50, Leaf)));
    assert t == Node(Leaf, 50, Node(Node(Leaf, 60, Leaf), 70, Leaf));
  }

  // ---------------------------------------------------------------------
  // A removal with two children

  /** The full tree of height three holding 20, 30, 40, 50, 60, 70, 80. */
  function SevenTree(): Tree<int> {
    Node(Node(Node(Leaf, 20, Leaf), 30, Node(Leaf, 40, Leaf)), 50,
         Node(Node(Leaf, 60, Leaf), 70, Node(Leaf, 80, Leaf)))
  }

  /** Adding 50, 30, 70, 20, 40, 60, 80 to an empty tree builds SevenTree. */
  lemma AddingSevenBuildsSevenTree()
    ensures var o := IntOrd();
            Insert(o, 80, Insert(o, 60, Insert(o, 40, Insert(o, 20,
              Insert(o, 70, Insert(o, 30, Insert(o, 50, Leaf))))))) == SevenTree()
  {
    var o := IntOrd();
    var t3 := Insert(o, 70, Insert(o, 30, Insert(o, 50, Leaf)));
    assert t3 == Node(Node(Leaf, 30, Leaf), 50, Node(Leaf, 70, Leaf));
    var t4 := Insert(o, 20, t3);
    assert t4 == Node(Node(Node(Leaf, 20, Leaf), 30, Leaf), 50, Node(Leaf, 70, Leaf));
    var t5 := Insert(o, 40, t4);
    assert t5 == Node(SevenTree().left, 50, Node(Leaf, 70, Leaf));
    var t6 := Insert(o, 60, t5);
    assert t6 == Node(SevenTree().left, 50, Node(Node(Leaf, 60, Leaf), 70, Leaf));
  }

  /** Removing 50 from SevenTree replaces the root by 60, the smallest element
      of the root's right subtree, and takes 60 out of that subtree. */
  lemma RemovingTheRootPromotesSixty()
    ensures Removal(IntOrd(), 50, SevenTree()) ==
              Node(SevenTree().left, 60, Node(Leaf, 70, Node(Leaf, 80, Leaf)))
  {
    var right := SevenTree().right;
    assert FirstAt(right) == 60;
    assert Removal(IntOrd(), 60, right) == Node(Leaf, 70, Node(Leaf, 80, Leaf));
  }

  // ---------------------------------------------------------------------
  // Comparing two trees element by element (equals)

  /** The keys of the elements of `s`, in order. */
  function KeyList<T, K(!new)>(o: Ord<T, K>, s: seq<T>): (ks: seq<K>)
    ensures |ks| == |s| && forall i | 0 <= i < |s| :: ks[i] == o.key(s[i])
  {
    if s == [] then [] else [o.key(s[0])] + KeyList(o, s[1..])
  }

  /** The keys listed by an in-order walk are the stored keys. */
  lemma {:induction false} InOrderKeys<T, K(!new)>(o: Ord<T, K>, t: Tree<T>)
    ensures forall k | k in KeyList(o, InOrder(t)) :: k in Keys(o, t)
    ensures forall k | k in Keys(o, t) :: k in KeyList(o, InOrder(t))
  {
    match t
    case Leaf =>
    case Node(l, d, r) =>
      InOrderKeys(o, l);
      InOrderKeys(o, r);
      var s := InOrder(t);
      var n := |InOrder(l)|;
      assert s == InOrder(l) + [d] + InOrder(r);
      var ks, kl, kr := KeyList(o, s), KeyList(o, InOrder(l)), KeyList(o, InOrder(r));
      assert ks == kl + [o.key(d)] + kr by {
        forall i | 0 <= i < |ks| ensures ks[i] == (kl + [o.key(d)] + kr)[i] {
          if i < n {
            assert s[i] == InOrder(l)[i];
          } else if i > n {
            assert s[i] == InOrder(r)[i - n - 1];
          }
        }
      }
  }

  /** Two search trees list the same keys in order exactly when they store the
      same keys, whatever their shapes. */
  lemma SameKeysSameListing<T, K(!new)>(o: Ord<T, K>, t1: Tree<T>, t2: Tree<T>)
    requires o.Valid() && IsBST(o, t1) && IsBST(o, t2)
    ensures KeyList(o, InOrder(t1)) == KeyList(o, InOrder(t2)) <==> Keys(o, t1) == Keys(o, t2)
  {
    InOrderKeys(o, t1);
    InOrderKeys(o, t2);
    if Keys(o, t1) == Keys(o, t2) {
      InOrderIsIncreasing(o, t1);
      InOrderIsIncreasing(o, t2);
      assert Increasing(o.cmp, KeyList(o, InOrder(t1)));
      assert Increasing(o.cmp, KeyList(o, InOrder(t2)));
      IncreasingIsUnique(o.cmp, KeyList(o, InOrder(t1)), KeyList(o, InOrder(t2)));
    }
  }
}
