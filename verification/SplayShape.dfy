/** The shape of a binary search tree over in-order positions, and what the steps of
    top-down splaying do to it (splay.js:579-638).

    Position i stands for the i-th node in key order, which no step ever changes. The
    subtree at i covers the positions lo[i] .. hi[i], and left[i], right[i] are its
    children, -1 for none. Every condition is local to one position. */
module SplayShape {

  datatype Shape = Shape(lo: seq<int>, hi: seq<int>, left: seq<int>, right: seq<int>)

  ghost predicate Sized(s: Shape, n: nat) {
    |s.lo| == n && |s.hi| == n && |s.left| == n && |s.right| == n
  }

  /** Index j is the root of a subtree that covers a..b, or -1 if that is empty. */
  ghost predicate Covers(s: Shape, n: nat, j: int, a: int, b: int)
    requires Sized(s, n)
  {
    if a == b then j == -1 else 0 <= a <= j < b <= n && s.lo[j] == a && s.hi[j] == b
  }

  ghost predicate Bounds(s: Shape, n: nat, i: int, a: int, b: int)
    requires Sized(s, n) && 0 <= i < n
  {
    a <= s.lo[i] <= i < s.hi[i] <= b
  }

  ghost predicate LeftOk(s: Shape, n: nat, i: int)
    requires Sized(s, n) && 0 <= i < n
  {
    Covers(s, n, s.left[i], s.lo[i], i)
  }

  ghost predicate RightOk(s: Shape, n: nat, i: int)
    requires Sized(s, n) && 0 <= i < n
  {
    Covers(s, n, s.right[i], i + 1, s.hi[i])
  }

  /** What lies in the subtree at i lies entirely on one side of i. */
  ghost predicate Nested(s: Shape, n: nat, i: int, j: int)
    requires Sized(s, n) && 0 <= i < n && 0 <= j < n
  {
    && (s.lo[i] <= j < i ==> s.lo[i] <= s.lo[j] && s.hi[j] <= i)
    && (i < j < s.hi[i] ==> i < s.lo[j] && s.hi[j] <= s.hi[i])
  }

  /** A tree over all n positions with its root at c. */
  ghost predicate Tree(s: Shape, n: nat, c: int) {
    && Sized(s, n)
    && Covers(s, n, c, 0, n)
    && (forall i, j | 0 <= i < n && 0 <= j < n :: Nested(s, n, i, j))
    && (forall i | 0 <= i < n :: Bounds(s, n, i, 0, n) && LeftOk(s, n, i) && RightOk(s, n, i))
  }

  /** The state inside the loop: the L tree covers 0..a with root l, the current subtree a..b
      with root c, the R tree b..n with root r. The right child of the last L node and the
      left child of the first R node are still to be filled in. */
  ghost predicate Split(s: Shape, n: nat, l: int, a: int, c: int, b: int, r: int) {
    && Sized(s, n)
    && 0 <= a <= c < b <= n
    && Covers(s, n, l, 0, a) && Covers(s, n, c, a, b) && Covers(s, n, r, b, n)
    && (forall i, j | 0 <= i < n && 0 <= j < n :: Nested(s, n, i, j))
    && (forall i | 0 <= i < n :: Local(s, n, a, b, i))
  }

  ghost predicate Local(s: Shape, n: nat, a: int, b: int, i: int)
    requires Sized(s, n) && 0 <= i < n
  {
    if i < a then Bounds(s, n, i, 0, a) && LeftOk(s, n, i) && (i != a - 1 ==> RightOk(s, n, i))
    else if i < b then Bounds(s, n, i, a, b) && LeftOk(s, n, i) && RightOk(s, n, i)
    else Bounds(s, n, i, b, n) && (i != b ==> LeftOk(s, n, i)) && RightOk(s, n, i)
  }

  /** The subtrees of L that reach its open end a are extended to reach a'. */
  ghost function StretchL(hi: seq<int>, a: int, a': int): seq<int>
    requires 0 <= a <= |hi|
  {
    seq(|hi|, i requires 0 <= i < |hi| => if i < a && hi[i] == a then a' else hi[i])
  }

  ghost function StretchR(lo: seq<int>, b: int, b': int): seq<int>
    requires 0 <= b <= |lo|
  {
    seq(|lo|, i requires 0 <= i < |lo| => if i >= b && lo[i] == b then b' else lo[i])
  }

  // current and its left subtree go to the right end of L
  ghost function LinkLeft(s: Shape, n: nat, a: int, c: int): Shape
    requires Sized(s, n) && 0 <= a <= c < n
  {
    Shape(s.lo, StretchL(s.hi, a, c + 1)[c := c + 1], s.left, if a == 0 then s.right else s.right[a - 1 := c])
  }

  // current and its right subtree go to the left end of R
  ghost function LinkRight(s: Shape, n: nat, b: int, c: int): Shape
    requires Sized(s, n) && 0 <= c < b <= n
  {
    Shape(StretchR(s.lo, b, c)[c := c], s.hi, if b == n then s.left else s.left[b := c], s.right)
  }

  // the right child p of current c becomes its parent
  ghost function RotateLeft(s: Shape, n: nat, c: int, p: int): Shape
    requires Sized(s, n) && 0 <= c < n && 0 <= p < n
  {
    Shape(s.lo[p := s.lo[c]], s.hi[c := p], s.left[p := c], s.right[c := s.left[p]])
  }

  // the left child p of current c becomes its parent
  ghost function RotateRight(s: Shape, n: nat, c: int, p: int): Shape
    requires Sized(s, n) && 0 <= c < n && 0 <= p < n
  {
    Shape(s.lo[c := p + 1], s.hi[p := s.hi[c]], s.left[c := s.right[p]], s.right[p := c])
  }

  // the subtrees of current close the open ends of L and R, which become its children
  ghost function Assemble(s: Shape, n: nat, l: int, a: int, c: int, b: int, r: int): Shape
    requires Sized(s, n) && 0 <= a <= c < b <= n
  {
    Shape(StretchR(s.lo, b, c + 1)[c := 0], StretchL(s.hi, a, c)[c := n],
          (if b == n then s.left else s.left[b := s.right[c]])[c := if a == 0 then s.left[c] else l],
          (if a == 0 then s.right else s.right[a - 1 := s.left[c]])[c := if b == n then s.right[c] else r])
  }

  /** Where the subtree at i lies, relative to the three trees and the current root. */
  ghost predicate Region(s: Shape, n: nat, a: int, c: int, b: int, i: int)
    requires Sized(s, n) && 0 <= i < n
  {
    if i < a then Bounds(s, n, i, 0, a)
    else if i < c then Bounds(s, n, i, a, c)
    else if i == c then Bounds(s, n, i, a, b)
    else if i < b then Bounds(s, n, i, c + 1, b)
    else Bounds(s, n, i, b, n)
  }

  lemma Regions(s: Shape, n: nat, l: int, a: int, c: int, b: int, r: int)
    requires Split(s, n, l, a, c, b, r)
    ensures forall i | 0 <= i < n :: Region(s, n, a, c, b, i)
  {
    forall i | 0 <= i < n ensures Region(s, n, a, c, b, i) {
      assert Nested(s, n, c, i) && Local(s, n, a, b, i);
    }
  }

  lemma LinkLeftNested(s: Shape, n: nat, l: int, a: int, c: int, b: int, r: int, i: int, j: int)
    requires Split(s, n, l, a, c, b, r) && s.right[c] != -1 && 0 <= i < n && 0 <= j < n
    ensures Nested(LinkLeft(s, n, a, c), n, i, j)
  {
    Regions(s, n, l, a, c, b, r);
    assert Local(s, n, a, b, c);
    assert Region(s, n, a, c, b, i) && Region(s, n, a, c, b, j);
    assert Nested(s, n, i, j);
  }

  lemma LinkLeftLocal(s: Shape, n: nat, l: int, a: int, c: int, b: int, r: int, i: int)
    requires Split(s, n, l, a, c, b, r) && s.right[c] != -1 && 0 <= i < n
    ensures Local(LinkLeft(s, n, a, c), n, c + 1, b, i)
  {
    Regions(s, n, l, a, c, b, r);
    assert Local(s, n, a, b, c);
    assert Region(s, n, a, c, b, i) && Local(s, n, a, b, i);
  }

  lemma LinkLeftKeeps(s: Shape, n: nat, l: int, a: int, c: int, b: int, r: int)
    requires Split(s, n, l, a, c, b, r) && s.right[c] != -1
    ensures Split(LinkLeft(s, n, a, c), n, if a == 0 then c else l, c + 1, s.right[c], b, r)
  {
    assert Local(s, n, a, b, c);
    var s', a', b' := LinkLeft(s, n, a, c), c + 1, b;
    forall i, j | 0 <= i < n && 0 <= j < n ensures Nested(s', n, i, j) {
      LinkLeftNested(s, n, l, a, c, b, r, i, j);
    }
    forall i | 0 <= i < n ensures Local(s', n, a', b', i) {
      LinkLeftLocal(s, n, l, a, c, b, r, i);
    }
  }

  lemma LinkRightNested(s: Shape, n: nat, l: int, a: int, c: int, b: int, r: int, i: int, j: int)
    requires Split(s, n, l, a, c, b, r) && s.left[c] != -1 && 0 <= i < n && 0 <= j < n
    ensures Nested(LinkRight(s, n, b, c), n, i, j)
  {
    Regions(s, n, l, a, c, b, r);
    assert Local(s, n, a, b, c);
    assert Region(s, n, a, c, b, i) && Region(s, n, a, c, b, j);
    assert Nested(s, n, i, j);
  }

  lemma LinkRightLocal(s: Shape, n: nat, l: int, a: int, c: int, b: int, r: int, i: int)
    requires Split(s, n, l, a, c, b, r) && s.left[c] != -1 && 0 <= i < n
    ensures Local(LinkRight(s, n, b, c), n, a, c, i)
  {
    Regions(s, n, l, a, c, b, r);
    assert Local(s, n, a, b, c);
    assert Region(s, n, a, c, b, i) && Local(s, n, a, b, i);
  }

  lemma LinkRightKeeps(s: Shape, n: nat, l: int, a: int, c: int, b: int, r: int)
    requires Split(s, n, l, a, c, b, r) && s.left[c] != -1
    ensures Split(LinkRight(s, n, b, c), n, l, a, s.left[c], c, if b == n then c else r)
  {
    assert Local(s, n, a, b, c);
    var s', a', b' := LinkRight(s, n, b, c), a, c;
    forall i, j | 0 <= i < n && 0 <= j < n ensures Nested(s', n, i, j) {
      LinkRightNested(s, n, l, a, c, b, r, i, j);
    }
    forall i | 0 <= i < n ensures Local(s', n, a', b', i) {
      LinkRightLocal(s, n, l, a, c, b, r, i);
    }
  }

  lemma RotateLeftNested(s: Shape, n: nat, l: int, a: int, c: int, p: int, b: int, r: int, i: int, j: int)
    requires Split(s, n, l, a, c, b, r) && s.right[c] == p && 0 <= p < n
    requires 0 <= i < n && 0 <= j < n
    ensures Nested(RotateLeft(s, n, c, p), n, i, j)
  {
    Regions(s, n, l, a, c, b, r);
    assert Local(s, n, a, b, c) && Local(s, n, a, b, p);
    assert Region(s, n, a, c, b, i) && Region(s, n, a, c, b, j);
    assert Nested(s, n, i, j) && Nested(s, n, p, j);
  }

  lemma RotateLeftLocal(s: Shape, n: nat, l: int, a: int, c: int, p: int, b: int, r: int, i: int)
    requires Split(s, n, l, a, c, b, r) && s.right[c] == p && 0 <= p < n
    requires 0 <= i < n
    ensures Local(RotateLeft(s, n, c, p), n, a, b, i)
  {
    Regions(s, n, l, a, c, b, r);
    assert Local(s, n, a, b, c) && Local(s, n, a, b, p);
    assert Region(s, n, a, c, b, i) && Local(s, n, a, b, i);
  }

  lemma RotateLeftKeeps(s: Shape, n: nat, l: int, a: int, c: int, p: int, b: int, r: int)
    requires Split(s, n, l, a, c, b, r) && s.right[c] == p && 0 <= p < n
    ensures Split(RotateLeft(s, n, c, p), n, l, a, p, b, r)
  {
    assert Local(s, n, a, b, c);
    forall i, j | 0 <= i < n && 0 <= j < n ensures Nested(RotateLeft(s, n, c, p), n, i, j) {
      RotateLeftNested(s, n, l, a, c, p, b, r, i, j);
    }
    forall i | 0 <= i < n ensures Local(RotateLeft(s, n, c, p), n, a, b, i) {
      RotateLeftLocal(s, n, l, a, c, p, b, r, i);
    }
  }

  lemma RotateRightNested(s: Shape, n: nat, l: int, a: int, c: int, p: int, b: int, r: int, i: int, j: int)
    requires Split(s, n, l, a, c, b, r) && s.left[c] == p && 0 <= p < n
    requires 0 <= i < n && 0 <= j < n
    ensures Nested(RotateRight(s, n, c, p), n, i, j)
  {
    Regions(s, n, l, a, c, b, r);
    assert Local(s, n, a, b, c) && Local(s, n, a, b, p);
    assert Region(s, n, a, c, b, i) && Region(s, n, a, c, b, j);
    assert Nested(s, n, i, j) && Nested(s, n, p, j);
  }

  lemma RotateRightLocal(s: Shape, n: nat, l: int, a: int, c: int, p: int, b: int, r: int, i: int)
    requires Split(s, n, l, a, c, b, r) && s.left[c] == p && 0 <= p < n
    requires 0 <= i < n
    ensures Local(RotateRight(s, n, c, p), n, a, b, i)
  {
    Regions(s, n, l, a, c, b, r);
    assert Local(s, n, a, b, c) && Local(s, n, a, b, p);
    assert Region(s, n, a, c, b, i) && Local(s, n, a, b, i);
  }

  lemma RotateRightKeeps(s: Shape, n: nat, l: int, a: int, c: int, p: int, b: int, r: int)
    requires Split(s, n, l, a, c, b, r) && s.left[c] == p && 0 <= p < n
    ensures Split(RotateRight(s, n, c, p), n, l, a, p, b, r)
  {
    assert Local(s, n, a, b, c);
    forall i, j | 0 <= i < n && 0 <= j < n ensures Nested(RotateRight(s, n, c, p), n, i, j) {
      RotateRightNested(s, n, l, a, c, p, b, r, i, j);
    }
    forall i | 0 <= i < n ensures Local(RotateRight(s, n, c, p), n, a, b, i) {
      RotateRightLocal(s, n, l, a, c, p, b, r, i);
    }
  }

  /** One position of the assembled tree. */
  lemma Assembled(s: Shape, n: nat, l: int, a: int, c: int, b: int, r: int, i: int)
    requires Sized(s, n) && 0 <= a <= c < b <= n && 0 <= i < n
    ensures var s' := Assemble(s, n, l, a, c, b, r);
      && Sized(s', n)
      && s'.lo[i] == (if i == c then 0 else if i >= b && s.lo[i] == b then c + 1 else s.lo[i])
      && s'.hi[i] == (if i == c then n else if i < a && s.hi[i] == a then c else s.hi[i])
      && s'.left[i] == (if i == c then (if a == 0 then s.left[c] else l) else if i == b then s.right[c] else s.left[i])
      && s'.right[i] == (if i == c then (if b == n then s.right[c] else r) else if i == a - 1 then s.left[c] else s.right[i])
  {}

  lemma AssembleNested(s: Shape, n: nat, l: int, a: int, c: int, b: int, r: int, i: int, j: int)
    requires Split(s, n, l, a, c, b, r) && 0 <= i < n && 0 <= j < n
    ensures Nested(Assemble(s, n, l, a, c, b, r), n, i, j)
  {
    Regions(s, n, l, a, c, b, r);
    assert Region(s, n, a, c, b, i) && Region(s, n, a, c, b, j);
    assert Nested(s, n, i, j);
  }

  lemma AssembleBounds(s: Shape, n: nat, l: int, a: int, c: int, b: int, r: int, i: int)
    requires Split(s, n, l, a, c, b, r) && 0 <= i < n
    ensures Bounds(Assemble(s, n, l, a, c, b, r), n, i, 0, n)
  {
    Regions(s, n, l, a, c, b, r);
    assert Local(s, n, a, b, c);
    assert Region(s, n, a, c, b, i) && Local(s, n, a, b, i);
    Assembled(s, n, l, a, c, b, r, i);
    hide Assemble;
  }

  lemma AssembleLeft(s: Shape, n: nat, l: int, a: int, c: int, b: int, r: int, i: int)
    requires Split(s, n, l, a, c, b, r) && 0 <= i < n
    ensures LeftOk(Assemble(s, n, l, a, c, b, r), n, i)
  {
    Regions(s, n, l, a, c, b, r);
    assert Local(s, n, a, b, c);
    assert Region(s, n, a, c, b, i) && Local(s, n, a, b, i);
    var s' := Assemble(s, n, l, a, c, b, r);
    Assembled(s, n, l, a, c, b, r, i);
    if 0 <= s'.left[i] < n { Assembled(s, n, l, a, c, b, r, s'.left[i]); }
    hide Assemble;
  }

  lemma AssembleRight(s: Shape, n: nat, l: int, a: int, c: int, b: int, r: int, i: int)
    requires Split(s, n, l, a, c, b, r) && 0 <= i < n
    ensures RightOk(Assemble(s, n, l, a, c, b, r), n, i)
  {
    Regions(s, n, l, a, c, b, r);
    assert Local(s, n, a, b, c);
    assert Region(s, n, a, c, b, i) && Local(s, n, a, b, i);
    var s' := Assemble(s, n, l, a, c, b, r);
    Assembled(s, n, l, a, c, b, r, i);
    if 0 <= s'.right[i] < n { Assembled(s, n, l, a, c, b, r, s'.right[i]); }
    hide Assemble;
  }

  lemma AssembleKeeps(s: Shape, n: nat, l: int, a: int, c: int, b: int, r: int)
    requires Split(s, n, l, a, c, b, r)
    ensures Tree(Assemble(s, n, l, a, c, b, r), n, c)
  {
    forall i, j | 0 <= i < n && 0 <= j < n ensures Nested(Assemble(s, n, l, a, c, b, r), n, i, j) {
      AssembleNested(s, n, l, a, c, b, r, i, j);
    }
    var s' := Assemble(s, n, l, a, c, b, r);
    forall i | 0 <= i < n ensures Bounds(s', n, i, 0, n) && LeftOk(s', n, i) && RightOk(s', n, i) {
      AssembleBounds(s, n, l, a, c, b, r, i);
      AssembleLeft(s, n, l, a, c, b, r, i);
      AssembleRight(s, n, l, a, c, b, r, i);
    }
  }

  lemma InitialSplit(s: Shape, n: nat, c: int)
    requires Tree(s, n, c) && n > 0
    ensures Split(s, n, -1, 0, c, n, -1)
  {
    forall i | 0 <= i < n ensures Local(s, n, 0, n, i) {
      assert Bounds(s, n, i, 0, n);
    }
  }

  /** The children of current stay between the open ends, and are missing only at an end. */
  lemma CurrentChildren(s: Shape, n: nat, l: int, a: int, c: int, b: int, r: int)
    requires Split(s, n, l, a, c, b, r)
    ensures if a == c then s.left[c] == -1 else a <= s.left[c] < c
    ensures if c + 1 == b then s.right[c] == -1 else c < s.right[c] < b
  {
    assert Local(s, n, a, b, c);
  }

  // ---------- insertion and removal at the root ----------

  function Up(j: int, p: int): int {
    if j >= p then j + 1 else j
  }

  /** A new root at position p takes the place of the root t, which loses the child on p's side. */
  ghost function InsertAt(s: Shape, n: nat, t: int, p: int): Shape
    requires Sized(s, n) && 0 <= t < n && t <= p <= t + 1
  {
    Shape(
      seq(n + 1, i requires 0 <= i <= n =>
        if i == p then 0 else if i < p then s.lo[i] else if i - 1 == t then p + 1 else s.lo[i - 1] + 1),
      seq(n + 1, i requires 0 <= i <= n =>
        if i == p then n + 1 else if i > p then s.hi[i - 1] + 1 else if i == t then p else s.hi[i]),
      seq(n + 1, i requires 0 <= i <= n =>
        if i == p then (if p == t then s.left[t] else t)
        else if i < p then s.left[i] else if i - 1 == t then -1 else Up(s.left[i - 1], p)),
      seq(n + 1, i requires 0 <= i <= n =>
        if i == p then (if p == t then t + 1 else Up(s.right[t], p))
        else if i > p then Up(s.right[i - 1], p) else if i == t then -1 else s.right[i]))
  }

  /** One position after an insertion. */
  lemma Inserted(s: Shape, n: nat, t: int, p: int, i: int)
    requires Sized(s, n) && 0 <= t < n && t <= p <= t + 1 && 0 <= i <= n
    ensures var s' := InsertAt(s, n, t, p);
      && Sized(s', n + 1)
      && s'.lo[i] == (if i == p then 0 else if i < p then s.lo[i] else if i - 1 == t then p + 1 else s.lo[i - 1] + 1)
      && s'.hi[i] == (if i == p then n + 1 else if i > p then s.hi[i - 1] + 1 else if i == t then p else s.hi[i])
      && s'.left[i] == (if i == p then (if p == t then s.left[t] else t)
           else if i < p then s.left[i] else if i - 1 == t then -1 else Up(s.left[i - 1], p))
      && s'.right[i] == (if i == p then (if p == t then t + 1 else Up(s.right[t], p))
           else if i > p then Up(s.right[i - 1], p) else if i == t then -1 else s.right[i])
  {}

  lemma InsertAtRoot(s: Shape, n: nat, t: int, p: int)
    requires Tree(s, n, t) && 0 <= t < n && t <= p <= t + 1
    ensures var s' := InsertAt(s, n, t, p); Bounds(s', n + 1, p, 0, n + 1) && LeftOk(s', n + 1, p) && RightOk(s', n + 1, p)
  {
    var s' := InsertAt(s, n, t, p);
    assert LeftOk(s, n, t) && RightOk(s, n, t);
    assert s'.lo[p] == 0 && s'.hi[p] == n + 1;
    assert s'.left[p] == if p == t then s.left[t] else t;
    assert s'.right[p] == if p == t then t + 1 else Up(s.right[t], p);
  }

  lemma InsertAtBounds(s: Shape, n: nat, t: int, p: int, i: int)
    requires Tree(s, n, t) && 0 <= t < n && t <= p <= t + 1 && 0 <= i <= n && i != p
    ensures Bounds(InsertAt(s, n, t, p), n + 1, i, 0, n + 1)
  {
    var k := if i < p then i else i - 1;
    assert Bounds(s, n, k, 0, n) && Nested(s, n, t, k) && s.lo[t] == 0 && s.hi[t] == n;
    Inserted(s, n, t, p, i);
    hide Tree;
    hide InsertAt;
  }

  lemma InsertAtLeft(s: Shape, n: nat, t: int, p: int, i: int)
    requires Tree(s, n, t) && 0 <= t < n && t <= p <= t + 1 && 0 <= i <= n && i != p
    ensures Sized(InsertAt(s, n, t, p), n + 1) && LeftOk(InsertAt(s, n, t, p), n + 1, i)
  {
    var k := if i < p then i else i - 1;
    assert LeftOk(s, n, t) && s.lo[t] == 0 && s.hi[t] == n;
    assert Bounds(s, n, k, 0, n) && LeftOk(s, n, k) && Nested(s, n, t, k);
    Inserted(s, n, t, p, i);
    if s.left[k] >= 0 { Inserted(s, n, t, p, Up(s.left[k], p)); }
    hide Tree;
    hide InsertAt;
  }

  lemma InsertAtRight(s: Shape, n: nat, t: int, p: int, i: int)
    requires Tree(s, n, t) && 0 <= t < n && t <= p <= t + 1 && 0 <= i <= n && i != p
    ensures Sized(InsertAt(s, n, t, p), n + 1) && RightOk(InsertAt(s, n, t, p), n + 1, i)
  {
    var k := if i < p then i else i - 1;
    assert RightOk(s, n, t) && s.lo[t] == 0 && s.hi[t] == n;
    assert Bounds(s, n, k, 0, n) && RightOk(s, n, k) && Nested(s, n, t, k);
    Inserted(s, n, t, p, i);
    if s.right[k] >= 0 { Inserted(s, n, t, p, Up(s.right[k], p)); }
    hide Tree;
    hide InsertAt;
  }

  lemma InsertAtNested(s: Shape, n: nat, t: int, p: int, i: int, j: int)
    requires Tree(s, n, t) && 0 <= t < n && t <= p <= t + 1 && 0 <= i <= n && 0 <= j <= n
    ensures Nested(InsertAt(s, n, t, p), n + 1, i, j)
  {
    var i', j' := if i > p then i - 1 else i, if j > p then j - 1 else j;
    if i' < n { assert Nested(s, n, t, i') && Bounds(s, n, i', 0, n); }
    if j' < n { assert Nested(s, n, t, j') && Bounds(s, n, j', 0, n); }
    if i' < n && j' < n { assert Nested(s, n, i', j'); }
    assert s.lo[t] == 0 && s.hi[t] == n;
    Inserted(s, n, t, p, i);
    Inserted(s, n, t, p, j);
    hide Tree;
    hide InsertAt;
  }

  lemma InsertAtKeeps(s: Shape, n: nat, t: int, p: int)
    requires Tree(s, n, t) && 0 <= t < n && t <= p <= t + 1
    ensures Tree(InsertAt(s, n, t, p), n + 1, p)
  {
    var s', n' := InsertAt(s, n, t, p), n + 1;
    forall i, j | 0 <= i < n' && 0 <= j < n' ensures Nested(s', n', i, j) { InsertAtNested(s, n, t, p, i, j); }
    forall i | 0 <= i < n' ensures Bounds(s', n', i, 0, n') && LeftOk(s', n', i) && RightOk(s', n', i) {
      if i == p { InsertAtRoot(s, n, t, p); } else { InsertAtBounds(s, n, t, p, i); InsertAtLeft(s, n, t, p, i); InsertAtRight(s, n, t, p, i); }
    }
  }

  /** The children of every position after an insertion, in terms of the positions before it. */
  lemma InsertAtChildren(s: Shape, n: nat, t: int, p: int, j: int)
    requires Tree(s, n, t) && 0 <= t < n && t <= p <= t + 1 && 0 <= j < n
    ensures var s' := InsertAt(s, n, t, p);
      && -1 <= s.left[j] < n && -1 <= s.right[j] < n
      && s'.left[Up(j, p)] == (if j == t == p then -1 else Up(s.left[j], p))
      && s'.right[Up(j, p)] == (if j == t == p - 1 then -1 else Up(s.right[j], p))
      && s'.left[p] == (if p == t then Up(s.left[t], p) else t)
      && s'.right[p] == (if p == t then t + 1 else Up(s.right[t], p))
  {
    assert LeftOk(s, n, j) && RightOk(s, n, j) && Nested(s, n, t, j) && LeftOk(s, n, t);
  }

  /** The left subtree of the root t, on its own. */
  ghost function LeftPart(s: Shape, n: nat, t: int): Shape
    requires Sized(s, n) && 0 <= t < n
  {
    Shape(s.lo[..t], s.hi[..t], s.left[..t], s.right[..t])
  }

  lemma LeftPartKeeps(s: Shape, n: nat, t: int)
    requires Tree(s, n, t) && 0 <= t < n
    ensures Tree(LeftPart(s, n, t), t, s.left[t])
  {
    var s' := LeftPart(s, n, t);
    assert LeftOk(s, n, t);
    forall i, j | 0 <= i < t && 0 <= j < t ensures Nested(s', t, i, j) { assert Nested(s, n, i, j); }
    forall i | 0 <= i < t ensures Bounds(s', t, i, 0, t) && LeftOk(s', t, i) && RightOk(s', t, i) {
      assert Nested(s, n, t, i);
      assert Bounds(s, n, i, 0, n) && LeftOk(s, n, i) && RightOk(s, n, i);
    }
  }

  function Down(j: int): int {
    if j > 0 then j - 1 else -1
  }

  /** A tree s1 over t positions with its last position at the root, if any, gets the right subtree of t in s. */
  ghost function Attach(s1: Shape, s: Shape, n: nat, t: int): Shape
    requires Sized(s, n) && 0 <= t < n && Sized(s1, t)
  {
    Shape(
      seq(n - 1, i requires 0 <= i < n - 1 => if i < t then s1.lo[i] else s.lo[i + 1] - 1),
      seq(n - 1, i requires 0 <= i < n - 1 => if i == t - 1 then n - 1 else if i < t then s1.hi[i] else s.hi[i + 1] - 1),
      seq(n - 1, i requires 0 <= i < n - 1 => if i < t then s1.left[i] else Down(s.left[i + 1])),
      seq(n - 1, i requires 0 <= i < n - 1 =>
        if i == t - 1 then Down(s.right[t]) else if i < t then s1.right[i] else Down(s.right[i + 1])))
  }

  /** Where the subtree at one position lies afterwards. */
  lemma Attached(s1: Shape, s: Shape, n: nat, t: int, i: int)
    requires Sized(s, n) && 0 <= t < n && Sized(s1, t) && 0 <= i < n - 1
    ensures var s' := Attach(s1, s, n, t);
      && Sized(s', n - 1)
      && s'.lo[i] == (if i < t then s1.lo[i] else s.lo[i + 1] - 1)
      && s'.hi[i] == (if i == t - 1 then n - 1 else if i < t then s1.hi[i] else s.hi[i + 1] - 1)
  {}

  lemma AttachLocal(s1: Shape, s: Shape, n: nat, t: int, i: int)
    requires Tree(s, n, t) && 0 <= t < n && Tree(s1, t, t - 1) && 0 <= i < n - 1
    ensures var s' := Attach(s1, s, n, t); Bounds(s', n - 1, i, 0, n - 1) && LeftOk(s', n - 1, i) && RightOk(s', n - 1, i)
  {
    var s' := Attach(s1, s, n, t);
    assert RightOk(s, n, t);
    if i < t - 1 {
      assert Bounds(s1, t, i, 0, t) && LeftOk(s1, t, i) && RightOk(s1, t, i) && Nested(s1, t, t - 1, i);
    } else if i == t - 1 {
      assert LeftOk(s1, t, i);
      assert s'.right[i] == Down(s.right[t]) && s.hi[t] == n;
    } else {
      var k := i + 1;
      assert s'.left[i] == Down(s.left[k]) && s'.right[i] == Down(s.right[k]);
      assert Nested(s, n, t, k) && s.hi[t] == n;
      assert Bounds(s, n, k, 0, n) && LeftOk(s, n, k) && RightOk(s, n, k);
    }
  }

  lemma AttachNested(s1: Shape, s: Shape, n: nat, t: int, i: int, j: int)
    requires Tree(s, n, t) && 0 <= t < n && Tree(s1, t, t - 1) && 0 <= i < n - 1 && 0 <= j < n - 1
    ensures Nested(Attach(s1, s, n, t), n - 1, i, j)
  {
    if i < t { assert Bounds(s1, t, i, 0, t) && Nested(s1, t, t - 1, i); }
    if j < t { assert Bounds(s1, t, j, 0, t) && Nested(s1, t, t - 1, j); }
    if i >= t { assert Bounds(s, n, i + 1, 0, n) && Nested(s, n, t, i + 1); }
    if j >= t { assert Bounds(s, n, j + 1, 0, n) && Nested(s, n, t, j + 1); }
    if i < t && j < t { assert Nested(s1, t, i, j); }
    if i >= t && j >= t { assert Nested(s, n, i + 1, j + 1); }
    Attached(s1, s, n, t, i);
    Attached(s1, s, n, t, j);
    hide Attach;
  }

  lemma AttachKeeps(s1: Shape, s: Shape, n: nat, t: int)
    requires Tree(s, n, t) && 0 <= t < n && Tree(s1, t, t - 1)
    ensures Tree(Attach(s1, s, n, t), n - 1, if t > 0 then t - 1 else Down(s.right[t]))
  {
    var s', n' := Attach(s1, s, n, t), n - 1;
    assert RightOk(s, n, t);
    forall i, j | 0 <= i < n' && 0 <= j < n' ensures Nested(s', n', i, j) { AttachNested(s1, s, n, t, i, j); }
    forall i | 0 <= i < n' ensures Bounds(s', n', i, 0, n') && LeftOk(s', n', i) && RightOk(s', n', i) {
      AttachLocal(s1, s, n, t, i);
    }
  }

  lemma AttachChildren(s1: Shape, s: Shape, n: nat, t: int, i: int)
    requires Tree(s, n, t) && 0 <= t < n && Tree(s1, t, t - 1) && 0 <= i < n - 1
    ensures var s' := Attach(s1, s, n, t);
      && (s.right[t] == -1 || t < s.right[t] < n)
      && (i < t ==> -1 <= s1.left[i] < t && s'.left[i] == s1.left[i])
      && (i < t - 1 ==> -1 <= s1.right[i] < t && s'.right[i] == s1.right[i])
      && (i == t - 1 ==> s'.right[i] == Down(s.right[t]))
    ensures var s', k := Attach(s1, s, n, t), i + 1;
      i >= t ==>
        && (s.left[k] == -1 || t < s.left[k] < n) && s'.left[i] == Down(s.left[k])
        && (s.right[k] == -1 || t < s.right[k] < n) && s'.right[i] == Down(s.right[k])
  {
    assert RightOk(s, n, t);
    if i < t {
      assert LeftOk(s1, t, i) && RightOk(s1, t, i);
    } else {
      assert LeftOk(s, n, i + 1) && RightOk(s, n, i + 1) && Nested(s, n, t, i + 1);
    }
  }
}
