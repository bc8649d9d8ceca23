/** The self-adjusting search tree (splay.js:396-672): nodes linked by mutable pointers. */
module Splay {
  import opened SplayShape
  import opened SplayRounds

  class Node<V> {
    const key: int
    const value: V
    var left: Node?<V>
    var right: Node?<V>

    constructor (key: int, value: V)
      ensures this.key == key && this.value == value && left == null && right == null
    {
      this.key, this.value := key, value;
      left, right := null, null;
    }
  }

  ghost function At<V>(nodes: seq<Node<V>>, i: int): Node?<V> {
    if 0 <= i < |nodes| then nodes[i] else null
  }

  /** The pointers are those of the shape, except at the two open ends. */
  ghost predicate Linked<V>(nodes: seq<Node<V>>, s: Shape, a: int, b: int)
    requires Sized(s, |nodes|)
    reads nodes
  {
    forall i | 0 <= i < |nodes| :: LinkedAt(nodes, s, a, b, i)
  }

  ghost predicate LinkedAt<V>(nodes: seq<Node<V>>, s: Shape, a: int, b: int, i: int)
    requires Sized(s, |nodes|) && 0 <= i < |nodes|
    reads nodes
  {
    && (i != b ==> nodes[i].left == At(nodes, s.left[i]))
    && (i != a - 1 ==> nodes[i].right == At(nodes, s.right[i]))
  }

  ghost predicate Sorted<V>(nodes: seq<Node<V>>) {
    forall i, j | 0 <= i < j < |nodes| :: nodes[i].key < nodes[j].key
  }

  /** Keys below position a are less than key, keys from position b on are greater. */
  ghost predicate Separates<V>(nodes: seq<Node<V>>, a: int, key: int, b: int) {
    && (forall i | 0 <= i < a && i < |nodes| :: nodes[i].key < key)
    && (forall i | 0 <= b <= i < |nodes| :: nodes[i].key > key)
  }

  ghost predicate Distinct<V>(nodes: seq<Node<V>>) {
    forall i, j | 0 <= i < j < |nodes| :: nodes[i] != nodes[j]
  }

  /** `left` and `right` are the open ends of L and R; an empty L or R is the dummy node, whose
      children are otherwise the roots of L and R. */
  ghost predicate Ends<V>(nodes: seq<Node<V>>, dummy: Node<V>, left: Node<V>, right: Node<V>, l: int, a: int, b: int, r: int)
    reads dummy
  {
    && 0 <= a <= |nodes| && 0 <= b <= |nodes| && dummy !in nodes
    && left == (if a == 0 then dummy else nodes[a - 1]) && (a > 0 ==> dummy.right == At(nodes, l))
    && right == (if b == |nodes| then dummy else nodes[b]) && (b < |nodes| ==> dummy.left == At(nodes, r))
  }

  /** The progress of a splay: the split shape and the positions it is split at. */
  datatype Cut = Cut(s: Shape, l: int, a: int, c: int, b: int, r: int)

  ghost predicate Splaying<V>(nodes: seq<Node<V>>, cut: Cut, key: int, dummy: Node<V>, left: Node<V>, right: Node<V>, current: Node<V>)
    reads nodes, dummy
  {
    && Distinct(nodes)
    && Split(cut.s, |nodes|, cut.l, cut.a, cut.c, cut.b, cut.r)
    && Linked(nodes, cut.s, cut.a, cut.b)
    && Ends(nodes, dummy, left, right, cut.l, cut.a, cut.b, cut.r)
    && current == nodes[cut.c]
    && Separates(nodes, cut.a, key, cut.b)
  }

  method RotateNodeRight<V>(ghost nodes: seq<Node<V>>, ghost cut: Cut, ghost key: int,
      ghost dummy: Node<V>, ghost left: Node<V>, ghost right: Node<V>, current: Node<V>)
    returns (tmp: Node<V>, ghost cut': Cut)
    requires Splaying(nodes, cut, key, dummy, left, right, current)
    requires current.left != null
    modifies nodes
    ensures Splaying(nodes, cut', key, dummy, left, right, tmp)
    ensures tmp == old(current.left) && cut'.a == cut.a && cut'.b == cut.b
  {
    ghost var Cut(s, l, a, c, b, r) := cut;
    ghost var p := s.left[c];
    CurrentChildren(s, |nodes|, l, a, c, b, r);
    assert LinkedAt(nodes, s, a, b, c);
    RotateRightKeeps(s, |nodes|, l, a, c, p, b, r);
    assert LinkedAt(nodes, s, a, b, p);
    tmp := current.left;
    current.left := tmp.right;
    tmp.right := current;
    cut' := Cut(RotateRight(s, |nodes|, c, p), l, a, p, b, r);
    forall i | 0 <= i < |nodes| ensures LinkedAt(nodes, cut'.s, a, b, i) {
      assert old(LinkedAt(nodes, s, a, b, i));
    }
  }

  method RotateNodeLeft<V>(ghost nodes: seq<Node<V>>, ghost cut: Cut, ghost key: int,
      ghost dummy: Node<V>, ghost left: Node<V>, ghost right: Node<V>, current: Node<V>)
    returns (tmp: Node<V>, ghost cut': Cut)
    requires Splaying(nodes, cut, key, dummy, left, right, current)
    requires current.right != null
    modifies nodes
    ensures Splaying(nodes, cut', key, dummy, left, right, tmp)
    ensures tmp == old(current.right) && cut'.a == cut.a && cut'.b == cut.b
  {
    ghost var Cut(s, l, a, c, b, r) := cut;
    ghost var p := s.right[c];
    CurrentChildren(s, |nodes|, l, a, c, b, r);
    assert LinkedAt(nodes, s, a, b, c);
    RotateLeftKeeps(s, |nodes|, l, a, c, p, b, r);
    assert LinkedAt(nodes, s, a, b, p);
    tmp := current.right;
    current.right := tmp.left;
    tmp.left := current;
    cut' := Cut(RotateLeft(s, |nodes|, c, p), l, a, p, b, r);
    forall i | 0 <= i < |nodes| ensures LinkedAt(nodes, cut'.s, a, b, i) {
      assert old(LinkedAt(nodes, s, a, b, i));
    }
  }

  method LinkNodeRight<V>(ghost nodes: seq<Node<V>>, ghost cut: Cut, ghost key: int,
      ghost dummy: Node<V>, ghost left: Node<V>, right: Node<V>, current: Node<V>)
    returns (next: Node<V>, ghost cut': Cut)
    requires Splaying(nodes, cut, key, dummy, left, right, current)
    requires Sorted(nodes) && key < current.key && current.left != null
    modifies nodes, dummy
    ensures Splaying(nodes, cut', key, dummy, left, current, next)
    ensures next == old(current.left) && cut'.a == cut.a && cut'.b < cut.b
  {
    hide Local;
    hide Nested;
    hide Covers;
    ghost var Cut(s, l, a, c, b, r) := cut;
    CurrentChildren(s, |nodes|, l, a, c, b, r);
    assert LinkedAt(nodes, s, a, b, c);
    LinkRightKeeps(s, |nodes|, l, a, c, b, r);
    right.left := current;
    next := current.left;
    cut' := Cut(LinkRight(s, |nodes|, b, c), l, a, s.left[c], c, if b == |nodes| then c else r);
    forall i | 0 <= i < |nodes| ensures LinkedAt(nodes, cut'.s, a, c, i) {
      assert old(LinkedAt(nodes, s, a, b, i));
    }
  }

  method LinkNodeLeft<V>(ghost nodes: seq<Node<V>>, ghost cut: Cut, ghost key: int,
      ghost dummy: Node<V>, left: Node<V>, ghost right: Node<V>, current: Node<V>)
    returns (next: Node<V>, ghost cut': Cut)
    requires Splaying(nodes, cut, key, dummy, left, right, current)
    requires Sorted(nodes) && key > current.key && current.right != null
    modifies nodes, dummy
    ensures Splaying(nodes, cut', key, dummy, current, right, next)
    ensures next == old(current.right) && cut'.a > cut.a && cut'.b == cut.b
  {
    hide Local;
    hide Nested;
    hide Covers;
    ghost var Cut(s, l, a, c, b, r) := cut;
    CurrentChildren(s, |nodes|, l, a, c, b, r);
    assert LinkedAt(nodes, s, a, b, c);
    LinkLeftKeeps(s, |nodes|, l, a, c, b, r);
    left.right := current;
    next := current.right;
    cut' := Cut(LinkLeft(s, |nodes|, a, c), if a == 0 then c else l, c + 1, s.right[c], b, r);
    ghost var a' := c + 1;
    forall i | 0 <= i < |nodes| ensures LinkedAt(nodes, cut'.s, a', b, i) {
      assert old(LinkedAt(nodes, s, a, b, i));
    }
  }

  /** Position c holds the key or, if there is none with it, the position next to the gap. */
  ghost predicate AtKey<V>(nodes: seq<Node<V>>, c: int, key: int) {
    && 0 <= c < |nodes|
    && Separates(nodes, if key > nodes[c].key then c + 1 else c, key, if key < nodes[c].key then c else c + 1)
  }

  lemma EndOfSearch<V>(nodes: seq<Node<V>>, cut: Cut, key: int, dummy: Node<V>, left: Node<V>, right: Node<V>, current: Node<V>)
    requires Sorted(nodes) && Splaying(nodes, cut, key, dummy, left, right, current)
    requires key < current.key ==> current.left == null
    requires key > current.key ==> current.right == null
    ensures AtKey(nodes, cut.c, key)
  {
    CurrentChildren(cut.s, |nodes|, cut.l, cut.a, cut.c, cut.b, cut.r);
    assert LinkedAt(nodes, cut.s, cut.a, cut.b, cut.c);
  }

  lemma StartSplaying<V>(nodes: seq<Node<V>>, s: Shape, t: int, key: int, dummy: Node<V>, root: Node<V>)
    requires Tree(s, |nodes|, t) && Linked(nodes, s, 0, |nodes|) && Sorted(nodes)
    requires 0 <= t < |nodes| && root == nodes[t] && dummy !in nodes
    ensures Splaying(nodes, Cut(s, -1, 0, t, |nodes|, -1), key, dummy, dummy, dummy, root)
  {
    InitialSplit(s, |nodes|, t);
  }

  lemma CurrentIs<V>(nodes: seq<Node<V>>, cut: Cut, key: int, dummy: Node<V>, left: Node<V>, right: Node<V>, current: Node<V>)
    requires Splaying(nodes, cut, key, dummy, left, right, current)
    ensures 0 <= cut.c < |nodes| && current == nodes[cut.c]
  {}

  /** The loop of splay_: split the tree at the key, nodes below it going to L, above it to R. */
  method TopDown<V>(ghost nodes: seq<Node<V>>, ghost start: Cut, key: int, dummy: Node<V>, root: Node<V>)
    returns (left: Node<V>, right: Node<V>, current: Node<V>, ghost cut: Cut)
    requires Sorted(nodes) && Splaying(nodes, start, key, dummy, dummy, dummy, root)
    modifies nodes, dummy
    ensures Splaying(nodes, cut, key, dummy, left, right, current)
    ensures AtKey(nodes, cut.c, key)
  {
    left, right, current, cut := dummy, dummy, root, start;
    while true
      invariant Splaying(nodes, cut, key, dummy, left, right, current)
      decreases cut.b - cut.a
    {
      if key < current.key {
        if current.left == null {
          break;
        }
        if key < current.left.key {
          current, cut := RotateNodeRight(nodes, cut, key, dummy, left, right, current);
          if current.left == null {
            break;
          }
        }
        var linked := current;
        current, cut := LinkNodeRight(nodes, cut, key, dummy, left, right, current);
        right := linked;
      } else if key > current.key {
        if current.right == null {
          break;
        }
        if key > current.right.key {
          current, cut := RotateNodeLeft(nodes, cut, key, dummy, left, right, current);
          if current.right == null {
            break;
          }
        }
        var linked := current;
        current, cut := LinkNodeLeft(nodes, cut, key, dummy, left, right, current);
        left := linked;
      } else {
        break;
      }
    }
    EndOfSearch(nodes, cut, key, dummy, left, right, current);
  }

  method AssembleNodes<V>(ghost nodes: seq<Node<V>>, ghost cut: Cut, ghost key: int,
      dummy: Node<V>, left: Node<V>, right: Node<V>, current: Node<V>)
    returns (ghost s': Shape)
    requires Splaying(nodes, cut, key, dummy, left, right, current)
    modifies nodes, dummy
    ensures Tree(s', |nodes|, cut.c) && Linked(nodes, s', 0, |nodes|)
  {
    ghost var Cut(s, l, a, c, b, r) := cut;
    CurrentChildren(s, |nodes|, l, a, c, b, r);
    AssembleKeeps(s, |nodes|, l, a, c, b, r);
    s' := Assemble(s, |nodes|, l, a, c, b, r);
    assert LinkedAt(nodes, s, a, b, c);
    left.right := current.left;
    right.left := current.right;
    current.left := dummy.right;
    current.right := dummy.left;
    forall i | 0 <= i < |nodes| ensures LinkedAt(nodes, s', 0, |nodes|, i) {
      assert old(LinkedAt(nodes, s, a, b, i));
    }
  }

  ghost predicate HasKey<V>(nodes: seq<Node<V>>, key: int) {
    exists i :: 0 <= i < |nodes| && nodes[i].key == key
  }

  /** A sequence with one more element at position k. */
  ghost function Spread<T>(a: seq<T>, k: int, x: T): (r: seq<T>)
    requires 0 <= k <= |a|
    ensures |r| == |a| + 1 && r[k] == x
    ensures forall i {:trigger r[i]} | 0 <= i < |r| && i != k :: r[i] == a[if i < k then i else i - 1]
  {
    a[..k] + [x] + a[k..]
  }

  lemma SortedSpread<V>(nodes: seq<Node<V>>, k: int, node: Node<V>)
    requires Sorted(nodes) && 0 <= k <= |nodes| && Separates(nodes, k, node.key, k)
    ensures Sorted(Spread(nodes, k, node)) && !HasKey(nodes, node.key)
  {}

  lemma AtSpread<V>(nodes: seq<Node<V>>, k: int, node: Node<V>, j: int)
    requires 0 <= k <= |nodes| && -1 <= j < |nodes|
    ensures At(Spread(nodes, k, node), Up(j, k)) == At(nodes, j)
  {}

  /** Make node the parent of root, with root's child on node's side as its other child. */
  method PlaceAbove<V>(ghost nodes: seq<Node<V>>, ghost s: Shape, ghost t: int, root: Node<V>, node: Node<V>)
    returns (ghost k: int)
    requires Tree(s, |nodes|, t) && Linked(nodes, s, 0, |nodes|) && Distinct(nodes)
    requires 0 <= t < |nodes| && root == nodes[t] && node !in nodes && node.key != root.key
    modifies root, node
    ensures k == if node.key > root.key then t + 1 else t
    ensures Linked(Spread(nodes, k, node), InsertAt(s, |nodes|, t, k), 0, |nodes| + 1)
  {
    hide Tree;
    hide InsertAt;
    hide Spread;
    ghost var n, left, right := |nodes|, root.left, root.right;
    assert LinkedAt(nodes, s, 0, n, t) && Sized(s, n) by { TreeSized(s, n, t); }
    if node.key > root.key {
      k := t + 1;
      node.left := root;
      node.right := root.right;
      root.right := null;
    } else {
      k := t;
      node.right := root;
      node.left := root.left;
      root.left := null;
    }
    forall j | 0 <= j < n && j != t ensures LinkedAt(nodes, s, 0, n, j) {
      assert old(LinkedAt(nodes, s, 0, n, j));
    }
    Placed(nodes, s, t, k, root, node, left, right);
  }

  lemma TreeSized(s: Shape, n: nat, t: int)
    requires Tree(s, n, t)
    ensures Sized(s, n)
  {}

  /** The pointers after node was placed above root, whose children were left and right. */
  lemma Placed<V>(nodes: seq<Node<V>>, s: Shape, t: int, k: int, root: Node<V>, node: Node<V>, left: Node?<V>, right: Node?<V>)
    requires Tree(s, |nodes|, t) && 0 <= t < |nodes| && t <= k <= t + 1 && root == nodes[t]
    requires forall j | 0 <= j < |nodes| && j != t :: LinkedAt(nodes, s, 0, |nodes|, j)
    requires left == At(nodes, s.left[t]) && right == At(nodes, s.right[t])
    requires if k == t then node.left == left && node.right == root && root.left == null && root.right == right
             else node.left == root && node.right == right && root.left == left && root.right == null
    ensures Linked(Spread(nodes, k, node), InsertAt(s, |nodes|, t, k), 0, |nodes| + 1)
  {
    var n, n', more, s' := |nodes|, |nodes| + 1, Spread(nodes, k, node), InsertAt(s, |nodes|, t, k);
    hide Spread;
    hide InsertAt;
    forall i | 0 <= i < n' ensures Sized(s', n') && LinkedAt(more, s', 0, n', i) {
      var j := if i == k then t else if i < k then i else i - 1;
      assert j != t ==> LinkedAt(nodes, s, 0, n, j);
      Inserted(s, n, t, k, i);
      InsertAtChildren(s, n, t, k, j);
      hide Tree;
      AtSpread(nodes, k, node, s.left[j]);
      AtSpread(nodes, k, node, s.right[j]);
      AtSpread(nodes, k, node, t);
    }
  }

  /** A sequence without its element at position k. */
  ghost function Without<T>(a: seq<T>, k: int): (r: seq<T>)
    requires 0 <= k < |a|
    ensures |r| == |a| - 1
    ensures forall i {:trigger r[i]} | 0 <= i < |r| :: r[i] == a[if i < k then i else i + 1]
  {
    a[..k] + a[k + 1..]
  }

  lemma LinkedLeftPart<V>(nodes: seq<Node<V>>, s: Shape, t: int)
    requires Tree(s, |nodes|, t) && 0 <= t < |nodes| && Linked(nodes, s, 0, |nodes|)
    ensures Linked(nodes[..t], LeftPart(s, |nodes|, t), 0, t)
  {
    LeftPartKeeps(s, |nodes|, t);
    forall i | 0 <= i < t ensures LinkedAt(nodes[..t], LeftPart(s, |nodes|, t), 0, t, i) {
      assert LinkedAt(nodes, s, 0, |nodes|, i);
      assert LeftOk(LeftPart(s, |nodes|, t), t, i) && RightOk(LeftPart(s, |nodes|, t), t, i);
    }
  }

  /** The left part of nodes, reshaped to s1, with the right subtree of t hung below its last node. */
  lemma LinkedAttach<V>(nodes: seq<Node<V>>, s: Shape, t: int, s1: Shape)
    requires Tree(s, |nodes|, t) && 0 <= t < |nodes| && Tree(s1, t, t - 1)
    requires Linked(nodes[..t], s1, t, t)
    requires t > 0 ==> nodes[t - 1].right == At(nodes, s.right[t])
    requires forall i | t < i < |nodes| :: LinkedAt(nodes, s, 0, |nodes|, i)
    ensures Linked(Without(nodes, t), Attach(s1, s, |nodes|, t), 0, |nodes| - 1)
  {
    var n', s' := |nodes| - 1, Attach(s1, s, |nodes|, t);
    forall i | 0 <= i < n' ensures LinkedAt(Without(nodes, t), s', 0, n', i) {
      AttachChildren(s1, s, |nodes|, t, i);
      if i < t {
        assert LinkedAt(nodes[..t], s1, t, t, i);
      } else {
        var k := i + 1;
        assert LinkedAt(nodes, s, 0, |nodes|, k);
      }
    }
  }

  class SplayTree<V> {
    var root: Node?<V>
    ghost var nodes: seq<Node<V>>  // all nodes, in key order
    ghost var shape: Shape
    ghost var top: int             // the position of the root

    constructor ()
      ensures Valid() && nodes == []
    {
      root := null;
      nodes, shape, top := [], Shape([], [], [], []), -1;
    }

    ghost predicate Valid()
      reads this, nodes
    {
      && Tree(shape, |nodes|, top)
      && Linked(nodes, shape, 0, |nodes|)
      && Sorted(nodes)
      && root == At(nodes, top)
    }

    lemma InOrder()
      requires Valid()
      ensures Sorted(nodes)
    {}

    method SplayKey(key: int)
      requires Valid()
      modifies this, nodes
      ensures Valid() && nodes == old(nodes)
      ensures nodes != [] ==> AtKey(nodes, top, key)
    {
      if root == null {
        return;
      }
      // the right child of the dummy node holds the L tree, its left child the R tree
      var dummy := new Node(0, root.value);
      SplayAround(key, root, dummy);
    }

    method SplayAround(key: int, start: Node<V>, dummy: Node<V>)
      requires Valid() && root == start && dummy !in nodes
      modifies this, nodes, dummy
      ensures Valid() && nodes == old(nodes) && AtKey(nodes, top, key)
    {
      StartSplaying(nodes, shape, top, key, dummy, start);
      hide Splaying;
      hide Tree;
      hide Linked;
      var left: Node<V>, right: Node<V>, current: Node<V>;
      ghost var cut := Cut(shape, -1, 0, top, |nodes|, -1);
      left, right, current, cut := TopDown(nodes, cut, key, dummy, start);
      assert current == nodes[cut.c] by { CurrentIs(nodes, cut, key, dummy, left, right, current); }
      shape := AssembleNodes(nodes, cut, key, dummy, left, right, current);
      root, top := current, cut.c;
    }

    /** A new key gets a new node, which becomes the root; a key already there changes no node. */
    method Insert(key: int, value: V) returns (ghost k: nat)
      requires Valid()
      modifies this, nodes
      ensures Valid() && 0 <= k < |nodes| && nodes[k].key == key
      ensures HasKey(old(nodes), key) ==> nodes == old(nodes)
      ensures !HasKey(old(nodes), key) ==>
        fresh(nodes[k]) && nodes[k].value == value && k <= |old(nodes)| && nodes == Spread(old(nodes), k, nodes[k])
    {
      if root == null {
        root := new Node(key, value);
        nodes, shape, top := [root], Shape([0], [1], [-1], [-1]), 0;
        return 0;
      }
      SplayKey(key);
      if root.key == key {
        return top;
      }
      var node := new Node(key, value);
      k := AddRoot(node);
    }

    method AddRoot(node: Node<V>) returns (ghost k: int)
      requires Valid() && root != null && node !in nodes
      requires root.key != node.key && AtKey(nodes, top, node.key)
      modifies this, root, node
      ensures Valid() && 0 <= k <= |old(nodes)| && nodes == Spread(old(nodes), k, node)
      ensures !HasKey(old(nodes), node.key)
    {
      hide Nested;
      hide Bounds;
      hide LeftOk;
      hide RightOk;
      hide LinkedAt;
      hide InsertAt;
      k := PlaceAbove(nodes, shape, top, root, node);
      SortedSpread(nodes, k, node);
      InsertAtKeeps(shape, |nodes|, top, k);
      root := node;
      nodes, shape, top := Spread(nodes, k, node), InsertAt(shape, |nodes|, top, k), k;
    }

    /** Returns null where the source throws "Key not found". */
    method Remove(key: int) returns (removed: Node?<V>, ghost k: int)
      requires Valid()
      modifies this, nodes
      ensures Valid()
      ensures removed == null ==> nodes == old(nodes) && !HasKey(nodes, key)
      ensures removed != null ==>
        removed.key == key && 0 <= k < |old(nodes)| && removed == old(nodes)[k] && nodes == Without(old(nodes), k)
    {
      if root == null {
        return null, 0;
      }
      SplayKey(key);
      if root.key != key {
        return null, 0;
      }
      removed, k := root, top;
      RemoveRoot(key);
    }

    method RemoveRoot(key: int)
      requires Valid() && root != null && root.key == key
      modifies this, nodes
      ensures Valid() && nodes == Without(old(nodes), old(top))
    {
      hide Nested;
      hide LeftPart;
      hide Attach;
      ghost var all, s, t := nodes, shape, top;
      CurrentChildren(s, |all|, -1, 0, t, |all|, -1) by { InitialSplit(s, |all|, t); }
      assert LinkedAt(all, s, 0, |all|, t);
      LeftPartKeeps(s, |all|, t);
      LinkedLeftPart(all, s, t);
      if root.left == null {
        AttachKeeps(Shape([], [], [], []), s, |all|, t);
        LinkedAttach(all, s, t, Shape([], [], [], []));
        root := root.right;
        nodes, shape, top := Without(all, 0), Attach(Shape([], [], [], []), s, |all|, 0), Down(s.right[0]);
      } else {
        var right := root.right;
        root := root.left;
        nodes, shape, top := all[..t], LeftPart(s, |all|, t), s.left[t];
        SplayLeftPart(key, all, s, t);
        JoinRight(right, all, s, t);
      }
    }

    /** Splay the left part of `all` for a key above it; the rest of `all` keeps its links. */
    method SplayLeftPart(key: int, ghost all: seq<Node<V>>, ghost s: Shape, ghost t: int)
      requires Sized(s, |all|) && 0 < t < |all| && Linked(all, s, 0, |all|) && Distinct(all)
      requires Valid() && nodes == all[..t] && Separates(all, t, key, |all|)
      modifies this, nodes
      ensures Valid() && nodes == all[..t] && top == t - 1
      ensures forall i | t < i < |all| :: LinkedAt(all, s, 0, |all|, i)
    {
      SplayKey(key);
      assert nodes[t - 1].key < key;
      forall i | t < i < |all| ensures LinkedAt(all, s, 0, |all|, i) {
        assert old(LinkedAt(all, s, 0, |all|, i));
      }
    }

    method HangRight(right: Node?<V>)
      requires Valid() && root != null && top == |nodes| - 1
      modifies root
      ensures Linked(nodes, shape, |nodes|, |nodes|) && root.right == right
    {
      root.right := right;
      forall i | 0 <= i < |nodes| ensures LinkedAt(nodes, shape, |nodes|, |nodes|, i) {
        assert old(LinkedAt(nodes, shape, 0, |nodes|, i));
      }
    }

    /** Hang the right subtree of position t of `all` below the root, which has no right child. */
    method JoinRight(right: Node?<V>, ghost all: seq<Node<V>>, ghost s: Shape, ghost t: int)
      requires Tree(s, |all|, t) && 0 < t < |all| && Sorted(all) && Distinct(all) && right == At(all, s.right[t])
      requires Valid() && nodes == all[..t] && top == t - 1
      requires forall i | t < i < |all| :: LinkedAt(all, s, 0, |all|, i)
      modifies this, root
      ensures Valid() && nodes == Without(all, t)
    {
      hide Nested;
      hide Bounds;
      hide LeftOk;
      hide RightOk;
      hide Covers;
      hide Attach;
      HangRight(right);
      forall i | t < i < |all| ensures LinkedAt(all, s, 0, |all|, i) {
        assert old(LinkedAt(all, s, 0, |all|, i));
      }
      AttachKeeps(shape, s, |all|, t);
      LinkedAttach(all, s, t, shape);
      nodes, shape := Without(all, t), Attach(shape, s, |all|, t);
    }

    method Find(key: int) returns (node: Node?<V>)
      requires Valid()
      modifies this, nodes
      ensures Valid() && nodes == old(nodes)
      ensures node == null ==> !HasKey(nodes, key)
      ensures node != null ==> node in nodes && node.key == key
    {
      if root == null {
        return null;
      }
      SplayKey(key);
      return if root.key == key then root else null;
    }

    /** The last node of the subtree at position i, or of the whole tree. */
    method FindMax(start: Node?<V>, ghost i: int) returns (node: Node?<V>)
      requires Valid()
      requires start != null ==> 0 <= i < |nodes| && start == nodes[i]
      ensures start != null ==> 0 <= i < shape.hi[i] <= |nodes|
      ensures nodes == [] ==> node == null
      ensures nodes != [] ==> node == if start == null then nodes[|nodes| - 1] else nodes[shape.hi[i] - 1]
    {
      if root == null {
        return null;
      }
      ghost var j := if start == null then top else i;
      assert Bounds(shape, |nodes|, j, 0, |nodes|);
      var current: Node<V> := if start == null then root else start;
      ghost var end := shape.hi[j];
      assert RightOk(shape, |nodes|, j) && LinkedAt(nodes, shape, 0, |nodes|, j);
      while current.right != null
        invariant 0 <= j < |nodes| && current == nodes[j] && shape.hi[j] == end
        invariant RightOk(shape, |nodes|, j) && LinkedAt(nodes, shape, 0, |nodes|, j)
        decreases |nodes| - j
      {
        current := current.right;
        j := shape.right[j];
        assert RightOk(shape, |nodes|, j) && LinkedAt(nodes, shape, 0, |nodes|, j);
      }
      return current;
    }

    /** The strict predecessor of a key, present or not. */
    method FindGreatestLessThan(key: int) returns (node: Node?<V>, ghost i: int)
      requires Valid()
      modifies this, nodes
      ensures Valid() && nodes == old(nodes)
      ensures node == null ==> forall n | n in nodes :: n.key >= key
      ensures node != null ==>
        0 <= i < |nodes| && node == nodes[i] && node.key < key && (i + 1 < |nodes| ==> nodes[i + 1].key >= key)
    {
      if root == null {
        return null, 0;
      }
      SplayKey(key);
      assert LeftOk(shape, |nodes|, top) && LinkedAt(nodes, shape, 0, |nodes|, top);
      if root.key < key {
        return root, top;
      } else if root.left != null {
        node := FindMax(root.left, shape.left[top]);
        i := top - 1;
      } else {
        return null, 0;
      }
    }

    method ExportKeys() returns (result: seq<int>)
      requires Valid()
      ensures |result| == |nodes| && forall i | 0 <= i < |nodes| :: result[i] == nodes[i].key
    {
      result := [];
      if root != null {
        result := Traverse(root, top, result);
      }
    }

    /** In-order traversal of the subtree at position i, appending each key to result. */
    method Traverse(node: Node<V>, ghost i: int, result0: seq<int>) returns (result: seq<int>)
      requires Valid() && 0 <= i < |nodes| && node == nodes[i]
      ensures 0 <= shape.lo[i] < shape.hi[i] <= |nodes|
      ensures result == result0 + KeysOf(nodes, shape.lo[i], shape.hi[i])
      decreases shape.hi[i] - shape.lo[i]
    {
      Subtrees(i);
      hide Valid;
      hide KeysOf;
      var current: Node?<V> := node;
      ghost var j, from, end := i, shape.lo[i], shape.hi[i];
      result := result0;
      while current != null
        invariant 0 <= shape.lo[i] <= from <= end == shape.hi[i] <= |nodes|
        invariant current == null ==> from == end
        invariant current != null ==> 0 <= j < |nodes| && current == nodes[j] && shape.lo[j] == from && shape.hi[j] == end
        invariant result == result0 + KeysOf(nodes, shape.lo[i], from)
        decreases end - from
      {
        Subtrees(j);
        var left := current.left;
        if left != null {
          result := Traverse(left, shape.left[j], result);
        }
        result := result + [current.key];
        KeysOfSplit(nodes, shape.lo[i], from, j);
        current := current.right;
        j, from := shape.right[j], j + 1;
      }
    }

    /** Where the subtree at position i and those of its children lie. */
    lemma Subtrees(i: int)
      requires Valid() && 0 <= i < |nodes|
      ensures Sized(shape, |nodes|) && 0 <= shape.lo[i] <= i < shape.hi[i] <= |nodes|
      ensures var (j, x) := (shape.left[i], nodes[i].left);
        if x == null then shape.lo[i] == i
        else 0 <= j < |nodes| && x == nodes[j] && shape.lo[j] == shape.lo[i] && shape.hi[j] == i
      ensures var (j, x) := (shape.right[i], nodes[i].right);
        if x == null then shape.hi[i] == i + 1
        else 0 <= j < |nodes| && x == nodes[j] && shape.lo[j] == i + 1 && shape.hi[j] == shape.hi[i]
    {
      assert Bounds(shape, |nodes|, i, 0, |nodes|) && LinkedAt(nodes, shape, 0, |nodes|, i);
      assert LeftOk(shape, |nodes|, i) && RightOk(shape, |nodes|, i);
    }
  }

  ghost function KeysOf<V>(nodes: seq<Node<V>>, a: int, b: int): (keys: seq<int>)
    requires 0 <= a <= b <= |nodes|
    ensures |keys| == b - a
    ensures forall i {:trigger keys[i]} | 0 <= i < b - a :: keys[i] == nodes[a + i].key
  {
    seq(b - a, i requires 0 <= i < b - a => nodes[a + i].key)
  }

  lemma KeysOfSplit<V>(nodes: seq<Node<V>>, a: int, b: int, c: int)
    requires 0 <= a <= b <= c < |nodes|
    ensures KeysOf(nodes, a, c + 1) == KeysOf(nodes, a, b) + KeysOf(nodes, b, c) + [nodes[c].key]
  {}

  // ---------- the benchmark (splay.js:356-404) ----------

  const SPLAY_TREE_SIZE := 8000
  const SPLAY_TREE_MODIFICATIONS := 80

  ghost function AllKeys<V>(nodes: seq<Node<V>>): (keys: seq<int>) {
    KeysOf(nodes, 0, |nodes|)
  }

  /** Random keys are the elements of draws from pos0 on; ok is false when they run out. The first one that is
      not in the tree gets a new node. */
  method InsertNewNode<V>(tree: SplayTree<V>, draws: seq<int>, pos0: nat, payload: int -> V)
    returns (ok: bool, key: int, pos: nat, ghost k: nat)
    requires tree.Valid() && pos0 <= |draws|
    modifies tree, tree.nodes
    ensures tree.Valid() && pos0 <= pos <= |draws|
    ensures forall j | pos0 <= j < (if ok then pos - 1 else pos) :: HasKey(old(tree.nodes), draws[j])
    ensures !ok ==> pos == |draws| && tree.nodes == old(tree.nodes)
    ensures ok ==> pos0 < pos && key == draws[pos - 1] && !HasKey(old(tree.nodes), key)
    ensures ok ==>
      && k < |tree.nodes| && fresh(tree.nodes[k]) && tree.nodes[k].key == key && tree.nodes[k].value == payload(key)
      && k <= |old(tree.nodes)| && tree.nodes == Spread(old(tree.nodes), k, tree.nodes[k])
  {
    hide SplayTree.Valid;
    pos, k := pos0, 0;
    while pos < |draws|
      invariant pos0 <= pos <= |draws| && tree.Valid() && tree.nodes == old(tree.nodes)
      invariant forall j | pos0 <= j < pos :: HasKey(tree.nodes, draws[j])
    {
      key := draws[pos];
      pos := pos + 1;
      var found := tree.Find(key);
      if found == null {
        k := tree.Insert(key, payload(key));
        return true, key, pos, k;
      }
    }
    return false, 0, pos, k;
  }

  /** One round: a new key goes in, and its predecessor, or itself if it is the least, goes out. */
  method Replace<V>(tree: SplayTree<V>, draws: seq<int>, pos0: nat, payload: int -> V)
    returns (ok: bool, threw: bool, key: int, pos: nat, ghost i: nat)
    requires tree.Valid() && pos0 <= |draws|
    modifies tree, tree.nodes
    ensures tree.Valid() && pos0 <= pos <= |draws| && !threw
    ensures forall j | pos0 <= j < (if ok then pos - 1 else pos) :: HasKey(old(tree.nodes), draws[j])
    ensures !ok ==> pos == |draws| && tree.nodes == old(tree.nodes)
    ensures ok ==> pos0 < pos && key == draws[pos - 1] && !HasKey(old(tree.nodes), key) && Between(AllKeys(old(tree.nodes)), i, key)
    ensures ok && i == 0 ==> tree.nodes == old(tree.nodes)
    ensures ok && i > 0 ==>
      && i <= |tree.nodes| == |old(tree.nodes)| && fresh(tree.nodes[i - 1])
      && tree.nodes[i - 1].key == key && tree.nodes[i - 1].value == payload(key)
      && tree.nodes == old(tree.nodes)[i - 1 := tree.nodes[i - 1]]
  {
    hide SplayTree.Valid;
    hide HasKey;
    threw := false;
    ok, key, pos, i := InsertNewNode(tree, draws, pos0, payload);
    if ok {
      ghost var all, node := tree.nodes, tree.nodes[i];
      tree.InOrder();
      SpreadKeys(old(tree.nodes), i, node);
      var greatest, j := tree.FindGreatestLessThan(key);
      ghost var out := if greatest == null then i else j;
      Predecessor(all, i, greatest, j);
      HasKeyAt(all, out);
      var removed, k := tree.Remove(if greatest == null then key else greatest.key);
      threw := removed == null;
      if !threw { SamePosition(all, out, k); }
      Exchanged(old(tree.nodes), i, node, k);
    }
  }

  lemma HasKeyAt<V>(nodes: seq<Node<V>>, i: int)
    requires 0 <= i < |nodes|
    ensures HasKey(nodes, nodes[i].key)
  {}

  /** What is found as the greatest node below that at position i. */
  lemma Predecessor<V>(nodes: seq<Node<V>>, i: int, greatest: Node?<V>, j: int)
    requires Sorted(nodes) && 0 <= i < |nodes|
    requires greatest == null ==> forall n | n in nodes :: n.key >= nodes[i].key
    requires greatest != null ==>
      0 <= j < |nodes| && greatest == nodes[j] && greatest.key < nodes[i].key && (j + 1 < |nodes| ==> nodes[j + 1].key >= nodes[i].key)
    ensures if greatest == null then i == 0 else j == i - 1
  {
    if i > 0 { assert nodes[0] in nodes && nodes[0].key < nodes[i].key; }
  }

  lemma SortedKeys<V>(nodes: seq<Node<V>>)
    requires Sorted(nodes)
    ensures Ascending(AllKeys(nodes))
    ensures forall key :: HasKey(nodes, key) <==> key in AllKeys(nodes)
  {
    forall key | HasKey(nodes, key) ensures key in AllKeys(nodes) {
      var i :| 0 <= i < |nodes| && nodes[i].key == key;
      assert AllKeys(nodes)[i] == key;
    }
  }

  lemma SpreadKeys<V>(nodes: seq<Node<V>>, k: nat, node: Node<V>)
    requires k <= |nodes| && Sorted(Spread(nodes, k, node))
    ensures Between(AllKeys(nodes), k, node.key)
    ensures AllKeys(Spread(nodes, k, node)) == WithKey(AllKeys(nodes), node.key)
  {
    var all := Spread(nodes, k, node);
    forall j | 0 <= j < |nodes| ensures if j < k then nodes[j].key < node.key else node.key < nodes[j].key {
      assert all[if j < k then j else j + 1] == nodes[j];
    }
    BelowIs(AllKeys(nodes), k, node.key);
  }

  lemma ExchangedKeys<V>(nodes: seq<Node<V>>, i: nat, key: int, nodes': seq<Node<V>>)
    requires Between(AllKeys(nodes), i, key)
    requires i == 0 ==> nodes' == nodes
    requires i > 0 ==> i <= |nodes'| == |nodes| && nodes'[i - 1].key == key && nodes' == nodes[i - 1 := nodes'[i - 1]]
    ensures AllKeys(nodes') == Round(AllKeys(nodes), key)
  {
    BelowIs(AllKeys(nodes), i, key);
  }

  /** Node went in at position i; what goes out again is its predecessor, or itself if there is none. */
  lemma Exchanged<V>(nodes: seq<Node<V>>, i: nat, node: Node<V>, k: int)
    requires i <= |nodes| && Sorted(Spread(nodes, i, node)) && k == if i == 0 then 0 else i - 1
    ensures Without(Spread(nodes, i, node), k) == if i == 0 then nodes else nodes[i - 1 := node]
  {}

  lemma SamePosition<V>(nodes: seq<Node<V>>, i: int, j: int)
    requires Sorted(nodes) && 0 <= i < |nodes| && 0 <= j < |nodes| && nodes[i].key == nodes[j].key
    ensures i == j
  {}

  /** The draws up to the new key are those the source makes. */
  lemma DrawnFirst<V>(nodes: seq<Node<V>>, draws: seq<int>, pos0: nat, q: nat)
    requires Sorted(nodes) && pos0 <= q <= |draws| && (forall j | pos0 <= j < q :: HasKey(nodes, draws[j]))
    requires q < |draws| ==> !HasKey(nodes, draws[q])
    ensures FirstNew(AllKeys(nodes), draws, pos0) == q
  {
    SortedKeys(nodes);
    FirstNewIs(AllKeys(nodes), draws, pos0, q);
  }

  /** The tree holds the keys of a play that has used the draws before pos. */
  ghost predicate Shows<V>(nodes: seq<Node<V>>, pos: nat, p: Play) {
    p == Going(AllKeys(nodes), pos)
  }

  lemma FilledNext<V>(nodes: seq<Node<V>>, draws: seq<int>, pos: nat, q: nat, n: nat, size: nat)
    requires Sorted(nodes) && pos <= q <= |draws| && (forall j | pos <= j < q :: HasKey(nodes, draws[j]))
    requires (q < |draws| ==> !HasKey(nodes, draws[q])) && n < size && Shows(nodes, pos, Filled(draws, n))
    ensures if q == |draws| then Filled(draws, size).Stuck?
            else Filled(draws, n + 1) == Going(WithKey(AllKeys(nodes), draws[q]), q + 1)
  {
    DrawnFirst(nodes, draws, pos, q);
    FilledExactly(draws, n + 1);
    FilledExactly(draws, size);
  }

  lemma PlayedNext<V>(nodes: seq<Node<V>>, draws: seq<int>, pos: nat, q: nat, size: nat, n: nat, end: nat)
    requires Sorted(nodes) && pos <= q <= |draws| && (forall j | pos <= j < q :: HasKey(nodes, draws[j]))
    requires (q < |draws| ==> !HasKey(nodes, draws[q])) && n < end && Shows(nodes, pos, Played(draws, size, n))
    ensures if q == |draws| then Played(draws, size, end).Stuck?
            else Played(draws, size, n + 1) == Going(Round(AllKeys(nodes), draws[q]), q + 1)
  {
    DrawnFirst(nodes, draws, pos, q);
    if q == |draws| { StuckStays(draws, size, n + 1, end); }
  }

  method Setup<V>(draws: seq<int>, payload: int -> V) returns (ok: bool, tree: SplayTree<V>, pos: nat)
    ensures tree.Valid() && fresh(tree) && pos <= |draws| && forall j | 0 <= j < |tree.nodes| :: fresh(tree.nodes[j])
    ensures if ok then Shows(tree.nodes, pos, Filled(draws, SPLAY_TREE_SIZE)) else Filled(draws, SPLAY_TREE_SIZE).Stuck?
  {
    hide Filled;
    hide SplayTree.Valid;
    hide HasKey;
    tree := new SplayTree<V>();
    pos := 0;
    NotFilled(draws);
    hide AllKeys;
    hide Sorted;
    hide FirstNew;
    hide Round;
    hide WithKey;
    for n := 0 to SPLAY_TREE_SIZE
      invariant tree.Valid() && pos <= |draws| && Shows(tree.nodes, pos, Filled(draws, n))
      invariant fresh(tree) && forall j | 0 <= j < |tree.nodes| :: fresh(tree.nodes[j])
    {
      tree.InOrder();
      ghost var nodes, pos0 := tree.nodes, pos;
      var key;
      ghost var k;
      ok, key, pos, k := InsertNewNode(tree, draws, pos, payload);
      FilledNext(nodes, draws, pos0, if ok then pos - 1 else pos, n, SPLAY_TREE_SIZE);
      if !ok { return; }
      tree.InOrder();
      SpreadKeys(nodes, k, tree.nodes[k]);
    }
    ok := true;
  }

  method Modify<V>(tree: SplayTree<V>, draws: seq<int>, pos0: nat, payload: int -> V) returns (ok: bool, threw: bool, pos: nat)
    requires tree.Valid() && pos0 <= |draws| && Shows(tree.nodes, pos0, Filled(draws, SPLAY_TREE_SIZE))
    modifies tree, tree.nodes
    ensures tree.Valid() && !threw
    ensures var p := Played(draws, SPLAY_TREE_SIZE, SPLAY_TREE_MODIFICATIONS);
      if ok then Shows(tree.nodes, pos, p) else p.Stuck?
  {
    hide Filled;
    hide Played;
    hide SplayTree.Valid;
    hide Shows;
    pos, threw := pos0, false;
    NotPlayed(draws, SPLAY_TREE_SIZE);
    for n := 0 to SPLAY_TREE_MODIFICATIONS
      invariant tree.Valid() && pos <= |draws| && Shows(tree.nodes, pos, Played(draws, SPLAY_TREE_SIZE, n))
      invariant forall j | 0 <= j < |tree.nodes| :: tree.nodes[j] in old(tree.nodes) || fresh(tree.nodes[j])
    {
      ok, threw, pos := NextReplace(tree, draws, pos, payload, n);
      if threw || !ok { return; }
    }
    ok := true;
  }

  method NextReplace<V>(tree: SplayTree<V>, draws: seq<int>, pos0: nat, payload: int -> V, ghost n: nat)
    returns (ok: bool, threw: bool, pos: nat)
    requires tree.Valid() && pos0 <= |draws| && Shows(tree.nodes, pos0, Played(draws, SPLAY_TREE_SIZE, n))
    requires n < SPLAY_TREE_MODIFICATIONS
    modifies tree, tree.nodes
    ensures tree.Valid() && !threw && pos <= |draws|
    ensures forall j | 0 <= j < |tree.nodes| :: tree.nodes[j] in old(tree.nodes) || fresh(tree.nodes[j])
    ensures if ok then Shows(tree.nodes, pos, Played(draws, SPLAY_TREE_SIZE, n + 1))
            else Played(draws, SPLAY_TREE_SIZE, SPLAY_TREE_MODIFICATIONS).Stuck?
  {
    hide Filled;
    hide Played;
    hide SplayTree.Valid;
    hide HasKey;
    hide AllKeys;
    hide Sorted;
    hide FirstNew;
    hide Round;
    tree.InOrder();
    var key;
    ghost var nodes, i: nat := tree.nodes, 0;
    ok, threw, key, pos, i := Replace(tree, draws, pos0, payload);
    PlayedNext(nodes, draws, pos0, if ok then pos - 1 else pos, SPLAY_TREE_SIZE, n, SPLAY_TREE_MODIFICATIONS);
    if ok { ExchangedKeys(nodes, i, key, tree.nodes); }
  }

  /** Setup, run and teardown: they finish exactly if the draws last, with the keys of the play; however
      the keys fall, no key to remove is missing and the size and order checks never fail. */
  method Benchmark<V>(draws: seq<int>, payload: int -> V) returns (finished: bool, threw: bool, keys: seq<int>)
    ensures !threw
    ensures var p := Played(draws, SPLAY_TREE_SIZE, SPLAY_TREE_MODIFICATIONS);
      if finished then p.Going? && keys == p.keys else p.Stuck?
  {
    hide Filled;
    hide Played;
    NotPlayed(draws, SPLAY_TREE_SIZE);
    var tree, pos: nat, ok;
    ok, tree, pos := Setup(draws, payload);
    keys := [];
    if !ok {
      StuckStays(draws, SPLAY_TREE_SIZE, 0, SPLAY_TREE_MODIFICATIONS);
      return false, false, keys;
    }
    ok, threw, pos := Modify(tree, draws, pos, payload);
    if threw { return true, true, keys; }
    if !ok { return false, false, keys; }
    RoundsGrow(draws, SPLAY_TREE_SIZE, 0, SPLAY_TREE_MODIFICATIONS);
    keys := tree.ExportKeys();
    if |keys| != SPLAY_TREE_SIZE { return true, true, keys; }
    var i := 0;
    while i < |keys| - 1
      invariant 0 <= i <= |keys| - 1
    {
      assert tree.nodes[i].key < tree.nodes[i + 1].key;
      if keys[i] >= keys[i + 1] { return true, true, keys; }
      i := i + 1;
    }
    return true, false, keys;
  }
}
