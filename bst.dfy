/**
 * The binary search tree of BST.java: a collection with the fields `root`
 * and `size`, updated in place by add, remove and clear, with the order
 * queries, renderers, equality and the three snapshot iterators.
 *
 * A Java argument that may be null is an `Option`; a call that throws
 * returns a `Result` or an `Outcome` carrying the exception.
 */
module Bst {
  import opened JavaLang
  import opened Ordering
  import opened BstTree

  /** What higher and lower throw on an empty tree, where last() and first()
      return null and compareTo is called on that null. */
  const NoLastElement := NullPointer("Cannot invoke \"java.lang.Comparable.compareTo(Object)\" because the return value of \"BST.last()\" is null")
  const NoFirstElement := NullPointer("Cannot invoke \"java.lang.Comparable.compareTo(Object)\" because the return value of \"BST.first()\" is null")

  /** The bodies of the three iterators' fill helpers and of BST.fill: each
      appends the elements of a subtree, in its order, to the list given. */
  method FillInorder<T>(t: Tree<T>, temp: seq<T>) returns (r: seq<T>)
    ensures r == temp + InOrder(t)
  {
    r := temp;
    if t.Node? {
      r := FillInorder(t.left, r);
      r := r + [t.data];
      r := FillInorder(t.right, r);
    }
  }

  method FillPreorder<T>(t: Tree<T>, temp: seq<T>) returns (r: seq<T>)
    ensures r == temp + PreOrder(t)
  {
    r := temp;
    if t.Node? {
      r := r + [t.data];
      r := FillPreorder(t.left, r);
      r := FillPreorder(t.right, r);
    }
  }

  method FillPostorder<T>(t: Tree<T>, temp: seq<T>) returns (r: seq<T>)
    ensures r == temp + PostOrder(t)
  {
    r := temp;
    if t.Node? {
      r := FillPostorder(t.left, r);
      r := FillPostorder(t.right, r);
      r := r + [t.data];
    }
  }

  /** The line start preOrderPrint builds: a line break and, below the root,
      three spaces per level above the parent's, then "|--". */
  method Spaces(level: nat) returns (spaces: string)
    ensures spaces == Indentation(level)
  {
    spaces := "\n";
    if level > 0 {
      var i := 0;
      var pad := "";
      while i < level - 1
        invariant 0 <= i <= level - 1
        invariant pad == Repeat("   ", i)
      {
        pad := pad + "   ";
        RepeatSnoc("   ", i);
        i := i + 1;
      }
      spaces := spaces + pad + "|--";
    }
  }

  lemma {:induction false} RepeatSnoc(s: string, n: nat)
    ensures Repeat(s, n) + s == Repeat(s, n + 1)
  {
    if n > 0 {
      RepeatSnoc(s, n - 1);
    }
  }

  /** BST.preOrderPrint: appends a subtree's entries, null children included. */
  method PreOrderPrint<T>(show: T -> string, t: Tree<T>, level: nat, output: string)
    returns (out: string)
    ensures out == output + Concat(TreeEntries(show, t, level))
  {
    var spaces := Spaces(level);
    if t.Node? {
      out := output + spaces + show(t.data);
      out := PreOrderPrint(show, t.left, level + 1, out);
      out := PreOrderPrint(show, t.right, level + 1, out);
      TreeEntriesOfNode(show, t, level, output);
    } else {
      out := output + spaces + "null";
      assert Concat(TreeEntries(show, t, level)) == spaces + "null";
    }
  }

  /** One of the inorder, preorder or postorder iterators: a list filled once
      from the tree and an index into it. */
  class SnapshotIterator<T> {
    var storage: seq<T>
    var storageIndex: nat

    constructor Inorder(t: Tree<T>)
      ensures storage == InOrder(t) && storageIndex == 0
    {
      storageIndex := 0;
      var filled := FillInorder(t, []);
      storage := filled;
    }

    constructor Preorder(t: Tree<T>)
      ensures storage == PreOrder(t) && storageIndex == 0
    {
      storageIndex := 0;
      var filled := FillPreorder(t, []);
      storage := filled;
    }

    constructor Postorder(t: Tree<T>)
      ensures storage == PostOrder(t) && storageIndex == 0
    {
      storageIndex := 0;
      var filled := FillPostorder(t, []);
      storage := filled;
    }

    /** hasNext: whether any stored element is left to return. */
    function HasNext(): (b: bool)
      reads this
      ensures b <==> storageIndex < |storage|
    {
      storageIndex < |storage|
    }

    /** next: the element at the current index of the snapshot, with the
        index moved one on first.  The index advances even when the
        snapshot is exhausted and the lookup throws. */
    method Next() returns (r: Result<T>)
      modifies this
      ensures storage == old(storage) && storageIndex == old(storageIndex) + 1
      ensures old(storageIndex) < |storage| ==> r == Success(storage[old(storageIndex)])
      ensures old(storageIndex) >= |storage| ==>
                r == Failure(IndexOutOfBounds(old(storageIndex), |storage|))
    {
      var i := storageIndex;
      storageIndex := storageIndex + 1;
      if i < |storage| {
        r := Success(storage[i]);
      } else {
        r := Failure(IndexOutOfBounds(i, |storage|));
      }
    }

    /** The iterators do not support remove. */
    method Remove() returns (r: Outcome)
      ensures r == Fail(UnsupportedOperation("Invalid operation."))
    {
      r := Fail(UnsupportedOperation("Invalid operation."));
    }
  }

  class BST<T, K(!new)> {
    /** The elements' compareTo. */
    const ord: Ord<T, K>
    var root: Tree<T>
    var size: nat

    /** The order is total, the tree is a search tree and size counts its nodes. */
    ghost predicate Valid()
      reads this
    {
      ord.Valid() && IsBST(ord, root) && size == Count(root)
    }

    ghost function Contents(): set<T>
      reads this
    {
      Elements(root)
    }

    ghost function KeySet(): set<K>
      reads this
    {
      Keys(ord, root)
    }

    /** BST(): an empty tree. */
    constructor (o: Ord<T, K>)
      requires o.Valid()
      ensures Valid() && ord == o && root == Leaf && size == 0
    {
      ord := o;
      root := Leaf;
      size := 0;
    }

    function IsEmpty(): (b: bool)
      reads this
      requires Valid()
      ensures b <==> Contents() == {}
    {
      size == 0
    }

    function Size(): (n: nat)
      reads this
      requires Valid()
      ensures n == |InOrder(root)|
      ensures n == 0 <==> Contents() == {}
    {
      TraversalsListTheNodes(root);
      size
    }

    /** contains: false for null and on an empty tree, else a search. */
    function Contains(x: Option<T>): (b: bool)
      reads this
      requires Valid()
      ensures b <==> x.Some? && ord.key(x.value) in KeySet()
    {
      if x.None? || IsEmpty() then false else ContainsAt(ord, x.value, root)
    }

    /** get: the stored element that compares equal to the argument, or null. */
    function Get(x: Option<T>): (r: Option<T>)
      reads this
      requires Valid()
      ensures r.Some? <==> x.Some? && ord.key(x.value) in KeySet()
      ensures r.Some? ==> r.value in Contents() && ord.key(r.value) == ord.key(x.value)
    {
      if IsEmpty() || !Contains(x) then None else Some(GetAt(ord, x.value, root))
    }

    /** first: the least element, or null on an empty tree. */
    function First(): (r: Option<T>)
      reads this
      requires Valid()
      ensures r.None? <==> size == 0
      ensures r.Some? ==> r.value in Contents()
      ensures r.Some? ==>
                forall k | k in KeySet() :: k == ord.key(r.value) || ord.cmp(ord.key(r.value), k) < 0
    {
      if IsEmpty() then None else FirstIsLeast(ord, root); Some(FirstAt(root))
    }

    /** last: the greatest element, or null on an empty tree. */
    function Last(): (r: Option<T>)
      reads this
      requires Valid()
      ensures r.None? <==> size == 0
      ensures r.Some? ==> r.value in Contents()
      ensures r.Some? ==>
                forall k | k in KeySet() :: k == ord.key(r.value) || ord.cmp(k, ord.key(r.value)) < 0
    {
      if IsEmpty() then None else LastIsGreatest(ord, root); Some(LastAt(root))
    }

    /** higher: the least element strictly above the argument.  It compares
        the last element with the argument before searching, so a non-null
        argument on an empty tree throws: last() is null there. */
    function Higher(x: Option<T>): (r: Result<Option<T>>)
      reads this
      requires Valid()
      ensures r.Failure? <==> x.Some? && size == 0
      ensures r.Failure? ==> r.error == NoLastElement
      ensures x.None? ==> r == Success(None)
      ensures x.Some? && r.Success? ==>
                && (r.value.None? <==> forall j | j in KeySet() :: ord.cmp(j, ord.key(x.value)) <= 0)
                && (r.value.Some? ==> IsHigher(ord, root, ord.key(x.value), r.value.value))
    {
      if x.None? then Success(None)
      else if root.Leaf? then Failure(NoLastElement)
      else if ord.Compare(LastAt(root), x.value) <= 0 then
        LastIsGreatest(ord, root);
        Success(None)
      else Success(HigherAt(ord, x.value, root))
    }

    /** lower: the greatest element strictly below the argument; a non-null
        argument on an empty tree throws, as first() is null there. */
    function Lower(x: Option<T>): (r: Result<Option<T>>)
      reads this
      requires Valid()
      ensures r.Failure? <==> x.Some? && size == 0
      ensures r.Failure? ==> r.error == NoFirstElement
      ensures x.None? ==> r == Success(None)
      ensures x.Some? && r.Success? ==>
                && (r.value.None? <==> forall j | j in KeySet() :: ord.cmp(j, ord.key(x.value)) >= 0)
                && (r.value.Some? ==> IsLower(ord, root, ord.key(x.value), r.value.value))
    {
      if x.None? then Success(None)
      else if root.Leaf? then Failure(NoFirstElement)
      else if ord.Compare(FirstAt(root), x.value) > 0 then
        FirstIsLeast(ord, root);
        Success(None)
      else Success(LowerAt(ord, x.value, root))
    }

    /** ceiling: the argument itself when an equal element is stored, else the
        least element above it, or null. */
    function Ceiling(x: Option<T>): (r: Option<T>)
      reads this
      requires Valid()
      ensures x.None? || size == 0 ==> r.None?
      ensures x.Some? && ord.key(x.value) in KeySet() ==> r == x
      ensures x.Some? && ord.key(x.value) !in KeySet() ==>
                && (r.None? <==> forall j | j in KeySet() :: ord.cmp(j, ord.key(x.value)) < 0)
                && (r.Some? ==> IsCeiling(ord, root, ord.key(x.value), r.value))
    {
      if IsEmpty() then None
      else if x.None? then None
      else if ord.Compare(LastAt(root), x.value) < 0 then
        LastIsGreatest(ord, root);
        None
      else if Contains(x) then x
      else CeilingAt(ord, x.value, root)
    }

    /** floor as written: the argument itself when an equal element is
        stored, null when everything is above it, and otherwise some stored
        element below it -- not always the greatest one. */
    function Floor(x: Option<T>): (r: Option<T>)
      reads this
      requires Valid()
      ensures x.None? || size == 0 ==> r.None?
      ensures x.Some? && ord.key(x.value) in KeySet() ==> r == x
      ensures x.Some? && ord.key(x.value) !in KeySet() ==>
                && (r.None? <==> forall j | j in KeySet() :: ord.cmp(j, ord.key(x.value)) > 0)
                && (r.Some? ==> r.value in Contents() && ord.cmp(ord.key(r.value), ord.key(x.value)) < 0)
    {
      if IsEmpty() then None
      else if x.None? then None
      else if ord.Compare(FirstAt(root), x.value) > 0 then
        FirstIsLeast(ord, root);
        None
      else if Contains(x) then x
      else FloorAt(ord, x.value, root)
    }

    /** floor as its documentation describes it: the argument itself when an
        equal element is stored, else the greatest element below it, or null. */
    function ExactFloor(x: Option<T>): (r: Option<T>)
      reads this
      requires Valid()
      ensures x.None? || size == 0 ==> r.None?
      ensures x.Some? && ord.key(x.value) in KeySet() ==> r == x
      ensures x.Some? && ord.key(x.value) !in KeySet() ==>
                && (r.None? <==> forall j | j in KeySet() :: ord.cmp(j, ord.key(x.value)) > 0)
                && (r.Some? ==> IsFloor(ord, root, ord.key(x.value), r.value))
    {
      if IsEmpty() then None
      else if x.None? then None
      else if ord.Compare(FirstAt(root), x.value) > 0 then
        FirstIsLeast(ord, root);
        None
      else if Contains(x) then x
      else FloorExact(ord, x.value, root)
    }

    /** toString: "Empty list." or the elements in order, one per line. */
    function ToString(show: T -> string): (s: string)
      reads this
      requires Valid()
      ensures size == 0 ==> s == "Empty list."
      ensures size > 0 ==> s == Lines(show, InOrder(root))
    {
      if IsEmpty() then "Empty list."
      else MyHelperListsInOrder(show, root); MyHelper(show, root, "")
    }

    /** toStringTreeFormat: the preorder entries, one per node and one per
        missing child, 2 * size + 1 of them. */
    method ToStringTreeFormat(show: T -> string) returns (s: string)
      requires Valid()
      ensures s == Concat(TreeEntries(show, root, 0))
      ensures |TreeEntries(show, root, 0)| == 2 * size + 1
    {
      s := PreOrderPrint(show, root, 0, "");
      TreeEntriesShape(show, root, 0);
    }

    /** toArray: the elements in increasing order, size of them. */
    method ToArray() returns (a: array<T>)
      requires Valid()
      ensures fresh(a) && a[..] == InOrder(root)
      ensures a.Length == size && StrictlyIncreasing(ord, a[..])
    {
      var temp := FillInorder(root, []);
      a := new T[|temp|](i requires 0 <= i < |temp| => temp[i]);
      assert a[..] == temp;
      TraversalsListTheNodes(root);
      InOrderIsIncreasing(ord, root);
    }

    method Iterator() returns (it: SnapshotIterator<T>)
      requires Valid()
      ensures fresh(it) && it.storage == InOrder(root) && it.storageIndex == 0
      ensures |it.storage| == size && StrictlyIncreasing(ord, it.storage)
    {
      it := new SnapshotIterator.Inorder(root);
      TraversalsListTheNodes(root);
      InOrderIsIncreasing(ord, root);
    }

    method PreorderIterator() returns (it: SnapshotIterator<T>)
      requires Valid()
      ensures fresh(it) && it.storage == PreOrder(root) && it.storageIndex == 0
      ensures |it.storage| == size && multiset(it.storage) == multiset(InOrder(root))
    {
      it := new SnapshotIterator.Preorder(root);
      TraversalsListTheNodes(root);
    }

    method PostorderIterator() returns (it: SnapshotIterator<T>)
      requires Valid()
      ensures fresh(it) && it.storage == PostOrder(root) && it.storageIndex == 0
      ensures |it.storage| == size && multiset(it.storage) == multiset(InOrder(root))
    {
      it := new SnapshotIterator.Postorder(root);
      TraversalsListTheNodes(root);
    }

    /** add: refuses null and an element equal to a stored one; otherwise
        inserts it by recAdd and counts it. */
    method Add(x: Option<T>) returns (added: bool)
      requires Valid()
      modifies this
      ensures Valid()
      ensures added <==> x.Some? && ord.key(x.value) !in old(KeySet())
      ensures !added ==> root == old(root) && size == old(size)
      ensures added ==> && root == Insert(ord, x.value, old(root))
                        && size == old(size) + 1
                        && KeySet() == old(KeySet()) + {ord.key(x.value)}
                        && Contents() == old(Contents()) + {x.value}
    {
      if x.None? || Contains(x) {
        return false;
      }
      assert ord.key(x.value) !in Keys(ord, root);
      size := size + 1;
      root := Insert(ord, x.value, root);
      return true;
    }

    /** remove: false for an element not stored; otherwise the tree loses the
        element with that key and size drops once, inside removeIt. */
    method Remove(x: Option<T>) returns (removed: bool)
      requires Valid()
      modifies this
      ensures Valid()
      ensures removed <==> x.Some? && ord.key(x.value) in old(KeySet())
      ensures !removed ==> root == old(root) && size == old(size)
      ensures removed ==> && root == Removal(ord, x.value, old(root))
                          && size == old(size) - 1
                          && KeySet() == old(KeySet()) - {ord.key(x.value)}
                          && Contents() == WithoutKey(ord, old(Contents()), ord.key(x.value))
    {
      if !Contains(x) {
        return false;
      }
      ghost var t := root;
      RemovalKeepsOrder(ord, x.value, t);
      RemovalKeys(ord, x.value, t);
      RemovalElements(ord, x.value, t);
      RemovalCount(ord, x.value, t);
      var r := RemoveFrom(x.value, root);
      assert r == Removal(ord, x.value, t);
      root := r;
      return true;
    }

    /** BST.remove(data, node): the search for the node to remove. */
    method RemoveFrom(x: T, t: Tree<T>) returns (r: Tree<T>)
      requires ord.Valid() && IsBST(ord, t) && Count(t) <= size
      modifies this`size
      ensures r == Removal(ord, x, t)
      ensures old(size) == size + (if ord.key(x) in Keys(ord, t) then 1 else 0)
      decreases t, 1
    {
      RemovalCount(ord, x, t);
      r := t;
      if t.Node? {
        if ord.Compare(x, t.data) == 0 {
          r := RemoveIt(t);
          return;
        }
        if ord.Compare(x, t.data) < 0 {
          if t.left.Node? {
            var l := RemoveFrom(x, t.left);
            r := Node(l, t.data, t.right);
          }
        }
        if ord.Compare(x, t.data) > 0 {
          if t.right.Node? {
            var rt := RemoveFrom(x, t.right);
            r := Node(t.left, t.data, rt);
          }
        }
      }
    }

    /** BST.removeIt(node): unlinks a node; size drops here for a node with
        at most one child, and in the nested remove for a node with two. */
    method RemoveIt(t: Tree<T>) returns (r: Tree<T>)
      requires ord.Valid() && IsBST(ord, t) && t.Node? && Count(t) <= size
      modifies this`size
      ensures r == NodeRemoval(ord, t)
      ensures old(size) == size + 1
      decreases t, 0
    {
      if t.left.Leaf? && t.right.Leaf? {
        size := size - 1;
        r := Leaf;
      } else if t.left.Leaf? && t.right.Node? {
        size := size - 1;
        r := t.right;
      } else if t.right.Leaf? && t.left.Node? {
        size := size - 1;
        r := t.left;
      } else {
        var successor := FindSmallestSuccessor(t.right);
        var copyOfData := successor.value;
        assert ord.key(copyOfData) in Keys(ord, t.right);
        var rt := RemoveFrom(copyOfData, t.right);
        r := Node(t.left, copyOfData, rt);
      }
    }

    /** findSmallestSuccessor: the leftmost element of a subtree, found by a
        loop; a null subtree throws. */
    method FindSmallestSuccessor(t: Tree<T>) returns (r: Result<T>)
      ensures t.Leaf? ==>
                r == Failure(NullPointer("findSmallestSuccessor cannot be called with a null node."))
      ensures t.Node? ==> r == Success(FirstAt(t))
      ensures ord.Valid() && IsBST(ord, t) && t.Node? ==>
                forall k | k in Keys(ord, t) :: k == ord.key(r.value) || ord.cmp(ord.key(r.value), k) < 0
    {
      if t.Leaf? {
        return Failure(NullPointer("findSmallestSuccessor cannot be called with a null node."));
      }
      var node := t;
      while node.left.Node?
        invariant node.Node? && FirstAt(node) == FirstAt(t)
        decreases node
      {
        node := node.left;
      }
      r := Success(node.data);
      if ord.Valid() && IsBST(ord, t) {
        FirstIsLeast(ord, t);
      }
    }

    /** clear: the tree becomes empty. */
    method Clear()
      modifies this
      ensures Valid() || !ord.Valid()
      ensures root == Leaf && size == 0
    {
      root := Leaf;
      size := 0;
    }

    /** clone: a new tree object with the same root and size.  The Java helper
        hands back the very same nodes, so the two trees share them. */
    method Clone() returns (c: BST<T, K>)
      requires Valid()
      ensures fresh(c) && c.ord == ord && c.root == root && c.size == size && c.Valid()
    {
      c := new BST(ord);
      c.root := root;
      c.size := size;
    }

    /** equals: the same object, or a tree of the same size whose in-order
        elements compare equal pairwise.  The element equals is taken to agree
        with compareTo, as it does for movies. */
    method Equals(other: BST?<T, K>) returns (r: bool)
      requires Valid() && (other != null ==> other.Valid() && other.ord == ord)
      ensures r <==> (other != null && (other == this || (size == other.size && SameListing(other))))
      ensures r <==> other != null && KeySet() == other.KeySet()
    {
      SameKeysOrSame(other);
      if other == this {
        return true;
      }
      if other == null {
        return false;
      }
      if size != other.size {
        return false;
      }
      var rootA := new SnapshotIterator.Inorder(root);
      var rootB := new SnapshotIterator.Inorder(other.root);
      TraversalsListTheNodes(root);
      TraversalsListTheNodes(other.root);
      r := PairwiseEqual(rootA, rootB);
    }

    /** The in-order elements of the two trees compare equal pairwise. */
    ghost predicate SameListing(other: BST<T, K>)
      reads this, other
    {
      KeyList(ord, InOrder(root)) == KeyList(ord, InOrder(other.root))
    }

    /** The loop of equals: advances two iterators of the same length side by
        side until a pair of elements does not compare equal. */
    method PairwiseEqual(rootA: SnapshotIterator<T>, rootB: SnapshotIterator<T>) returns (r: bool)
      requires ord.Valid() && rootA != rootB
      requires |rootA.storage| == |rootB.storage| && rootA.storageIndex == rootB.storageIndex == 0
      modifies rootA, rootB
      ensures r <==> KeyList(ord, rootA.storage) == KeyList(ord, rootB.storage)
      ensures rootA.storage == old(rootA.storage) && rootB.storage == old(rootB.storage)
    {
      ghost var a, b := rootA.storage, rootB.storage;
      while rootA.HasNext()
        invariant rootA.storage == a && rootB.storage == b
        invariant rootA.storageIndex == rootB.storageIndex <= |a|
        invariant forall i | 0 <= i < rootA.storageIndex :: ord.key(a[i]) == ord.key(b[i])
        decreases |a| - rootA.storageIndex
      {
        var nextA := rootA.Next();
        var nextB := rootB.Next();
        if ord.Compare(nextA.value, nextB.value) != 0 {
          assert KeyList(ord, a)[rootA.storageIndex - 1] != KeyList(ord, b)[rootA.storageIndex - 1];
          return false;
        }
      }
      assert KeyList(ord, a) == KeyList(ord, b);
      return true;
    }

    lemma SameKeysOrSame(other: BST?<T, K>)
      requires Valid() && (other != null ==> other.Valid() && other.ord == ord)
      ensures other != null ==>
                (KeySet() == other.KeySet() <==> KeyList(ord, InOrder(root)) == KeyList(ord, InOrder(other.root)))
      ensures other != null && KeyList(ord, InOrder(root)) == KeyList(ord, InOrder(other.root)) ==>
                size == other.size
    {
      if other != null {
        SameKeysSameListing(ord, root, other.root);
        TraversalsListTheNodes(root);
        TraversalsListTheNodes(other.root);
      }
    }

    /** containsAll: every element of the collection is contained. */
    method ContainsAll(c: seq<Option<T>>) returns (r: bool)
      requires Valid()
      ensures r <==> forall i | 0 <= i < |c| :: c[i].Some? && ord.key(c[i].value) in KeySet()
    {
      for i := 0 to |c|
        invariant forall j | 0 <= j < i :: c[j].Some? && ord.key(c[j].value) in KeySet()
      {
        if !Contains(c[i]) {
          return false;
        }
      }
      return true;
    }

    /** addAll, removeAll and retainAll are not supported. */
    method AddAll(c: seq<T>) returns (r: Result<bool>)
      ensures r == Failure(UnsupportedOperation("Invalid operation."))
    {
      r := Failure(UnsupportedOperation("Invalid operation."));
    }

    method RemoveAll(c: seq<T>) returns (r: Result<bool>)
      ensures r == Failure(UnsupportedOperation("Invalid operation."))
    {
      r := Failure(UnsupportedOperation("Invalid operation."));
    }

    method RetainAll(c: seq<T>) returns (r: Result<bool>)
      ensures r == Failure(UnsupportedOperation("Invalid operation."))
    {
      r := Failure(UnsupportedOperation("Invalid operation."));
    }
  }
}
