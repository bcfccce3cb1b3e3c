/** The B+-tree (cpp/bplus_tree.h): heap nodes with key, child and value lists, split on the way
    back up. Each node carries, for the proof only, its height above the leaves and the interval
    of keys it is responsible for; the tree's shape is stated node by node in those terms, over
    the contents of all its nodes as one value. */
module BPlusTree {
  import opened Bytes

  const ORDER: nat := 64
  const MIN_KEYS: nat := 32

  class Node {
    const isLeaf: bool
    var keys: seq<int64>
    var children: seq<Node> // internal only
    var values: seq<int64>  // leaf only, parallel to keys
    var next: Node?         // leaf only

    ghost const level: nat
    ghost const lo: int
    ghost var hi: int

    constructor (isLeaf: bool, keys: seq<int64>, children: seq<Node>, values: seq<int64>, next: Node?,
                 ghost level: nat, ghost lo: int, ghost hi: int)
      ensures this.isLeaf == isLeaf && this.level == level && this.lo == lo
      ensures Now() == View(keys, children, values, next, hi)
    {
      this.isLeaf, this.keys, this.children, this.values, this.next := isLeaf, keys, children, values, next;
      this.level, this.lo, this.hi := level, lo, hi;
    }

    ghost function Now(): View
      reads this
    {
      View(keys, children, values, next, hi)
    }
  }

  /** What a node holds. Its height, the low end of its interval and whether it is a leaf never
      change. */
  datatype View = View(keys: seq<int64>, children: seq<Node>, values: seq<int64>, next: Node?, hi: int)

  /** What every node of a tree holds. */
  type Nodes = map<Node, View>

  ghost predicate Increasing(keys: seq<int64>) {
    forall i, j :: 0 <= i < j < |keys| ==> keys[i] < keys[j]
  }

  predicate HasKey(keys: seq<int64>, k: int) {
    exists i :: 0 <= i < |keys| && keys[i] == k
  }

  /** The node by itself: sorted keys within its interval, lists of matching lengths. */
  ghost predicate Shape(n: Node, v: View) {
    && -TWO_63 <= n.lo < v.hi <= TWO_63 && Increasing(v.keys)
    && (if n.isLeaf then n.level == 0 && v.children == [] && |v.values| == |v.keys| && forall i :: 0 <= i < |v.keys| ==> n.lo <= v.keys[i] < v.hi
        else n.level > 0 && |v.children| == |v.keys| + 1 && v.values == [] && v.next == null && forall i :: 0 <= i < |v.keys| ==> n.lo < v.keys[i] < v.hi)
  }

  /** The interval of child i, from the node's separators. */
  ghost function Low(n: Node, v: View, i: nat): int
    requires i <= |v.keys|
  {
    if i == 0 then n.lo else v.keys[i - 1]
  }

  ghost function High(v: View, i: nat): int
    requires i <= |v.keys|
  {
    if i == |v.keys| then v.hi else v.keys[i]
  }

  ghost predicate ChildAt(h: Nodes, n: Node, v: View, i: nat, child: Node)
    requires i <= |v.keys|
  {
    child in h && child.level + 1 == n.level && child.lo == Low(n, v, i) && h[child].hi == High(v, i)
  }

  /** Separators bound the subtrees: every child is a node of the tree, one level down, with the
      interval between its separators. */
  ghost predicate ChildrenOk(h: Nodes, n: Node, v: View) {
    Shape(n, v) && forall i :: 0 <= i < |v.children| ==> ChildAt(h, n, v, i, v.children[i])
  }

  /** Leaves are linked in key order, up to the last. */
  ghost predicate Threaded(h: Nodes, n: Node, v: View) {
    n.isLeaf ==>
      (if v.hi == TWO_63 then v.next == null
       else v.next != null && v.next in h && v.next.isLeaf && v.next.lo == v.hi)
  }

  /** A leaf holds exactly the entries with keys in its interval. */
  ghost predicate HoldsEntries(contents: map<int, int64>, n: Node, v: View) {
    n.isLeaf && |v.values| == |v.keys| ==>
      && (forall i :: 0 <= i < |v.keys| ==> v.keys[i] in contents && contents[v.keys[i]] == v.values[i])
      && (forall k :: k in contents && n.lo <= k < v.hi ==> HasKey(v.keys, k))
  }

  /** At most ORDER keys (one more while it is being split), and at least half of that but for the
      root. */
  ghost predicate Occupied(n: Node, v: View, root: Node, over: Node?) {
    && |v.keys| <= (if n == over then ORDER + 1 else ORDER)
    && (n != root ==> |v.keys| >= MIN_KEYS)
    && (!n.isLeaf ==> |v.keys| >= 1)
  }

  /** Nodes of one level have intervals apart. */
  ghost predicate Apart(h: Nodes, a: Node, b: Node)
    requires a in h && b in h
  {
    a.level == b.level ==> h[a].hi <= b.lo || h[b].hi <= a.lo
  }

  ghost predicate AllApart(h: Nodes) {
    forall a, b :: a in h && b in h && a != b ==> Apart(h, a, b)
  }

  /** Everything about one node, but for the children of the node whose child is being split. */
  ghost predicate NodeOk(h: Nodes, contents: map<int, int64>, root: Node, over: Node?, parent: Node?, n: Node)
    requires n in h
  {
    && n.level <= root.level
    && Shape(n, h[n]) && Threaded(h, n, h[n]) && HoldsEntries(contents, n, h[n]) && Occupied(n, h[n], root, over)
    && (n != parent ==> ChildrenOk(h, n, h[n]))
  }

  /** All is well everywhere but where said. */
  ghost predicate TreeOk(h: Nodes, contents: map<int, int64>, root: Node, over: Node?, parent: Node?) {
    && root in h && root.lo == -TWO_63
    && (forall n :: n in h ==> NodeOk(h, contents, root, over, parent, n))
    && AllApart(h)
  }

  // ---- Searching one node ----

  /** std::upper_bound: how many keys are at most k. */
  method UpperBound(keys: seq<int64>, k: int64) returns (i: nat)
    requires Increasing(keys)
    ensures i <= |keys| && IsUpperBound(keys, k, i)
  {
    i := 0;
    while i < |keys| && keys[i] <= k
      invariant i <= |keys| && forall j :: 0 <= j < i ==> keys[j] <= k
    {
      i := i + 1;
    }
  }

  ghost predicate IsUpperBound(keys: seq<int64>, k: int, i: nat)
    requires i <= |keys|
  {
    (forall j :: 0 <= j < i ==> keys[j] <= k) && (forall j :: i <= j < |keys| ==> k < keys[j])
  }

  /** std::lower_bound: how many keys are below k. */
  method LowerBound(keys: seq<int64>, k: int64) returns (i: nat)
    requires Increasing(keys)
    ensures i <= |keys| && (forall j :: 0 <= j < i ==> keys[j] < k) && (forall j :: i <= j < |keys| ==> k <= keys[j])
  {
    i := 0;
    while i < |keys| && keys[i] < k
      invariant i <= |keys| && forall j :: 0 <= j < i ==> keys[j] < k
    {
      i := i + 1;
    }
  }

  // ---- A list with one more element ----

  predicate IsInserted<T(==)>(out: seq<T>, s: seq<T>, i: nat, x: T) {
    && |out| == |s| + 1 && i <= |s| && out[i] == x
    && (forall j :: 0 <= j < i ==> out[j] == s[j])
    && (forall j :: i < j < |out| ==> out[j] == s[j - 1])
  }

  function InsertAt<T>(s: seq<T>, i: nat, x: T): (out: seq<T>)
    requires i <= |s|
    ensures IsInserted(out, s, i, x)
  {
    s[..i] + [x] + s[i..]
  }

  // ---- A leaf with one more entry, or another value for one ----

  lemma EntryInserted(n: Node, v: View, w: View, i: nat, key: int64, value: int64, contents: map<int, int64>)
    requires n.isLeaf && Shape(n, v) && HoldsEntries(contents, n, v) && n.lo <= key < v.hi && i <= |v.keys|
    requires (forall j :: 0 <= j < i ==> v.keys[j] < key) && (forall j :: i <= j < |v.keys| ==> key < v.keys[j])
    requires IsInserted(w.keys, v.keys, i, key) && IsInserted(w.values, v.values, i, value)
    requires w.children == v.children && w.next == v.next && w.hi == v.hi
    ensures Shape(n, w) && HoldsEntries(contents[key := value], n, w) && key !in contents
  {
    assert !HasKey(v.keys, key);
    InsertedIncreases(v.keys, w.keys, i, key);
    InsertedHasKeys(v.keys, w.keys, i, key);
    hide Increasing, HasKey;
  }

  lemma InsertedIncreases(s: seq<int64>, out: seq<int64>, i: nat, key: int64)
    requires Increasing(s) && IsInserted(out, s, i, key)
    requires (forall j :: 0 <= j < i ==> s[j] < key) && (forall j :: i <= j < |s| ==> key < s[j])
    ensures Increasing(out)
  {
  }

  lemma InsertedHasKeys(s: seq<int64>, out: seq<int64>, i: nat, key: int64)
    requires IsInserted(out, s, i, key)
    ensures forall k :: HasKey(out, k) <==> k == key || HasKey(s, k)
  {
    forall k ensures HasKey(out, k) <==> k == key || HasKey(s, k) {
      if k == key { assert out[i] == k; }
      if HasKey(s, k) {
        var j :| 0 <= j < |s| && s[j] == k;
        assert out[if j < i then j else j + 1] == k;
      }
      if HasKey(out, k) && k != key {
        var j :| 0 <= j < |out| && out[j] == k;
        assert s[if j < i then j else j - 1] == k;
      }
    }
  }

  lemma ValueReplaced(n: Node, v: View, w: View, i: nat, key: int64, value: int64, contents: map<int, int64>)
    requires n.isLeaf && Shape(n, v) && HoldsEntries(contents, n, v) && i < |v.keys| && v.keys[i] == key
    requires w == v.(values := v.values[i := value])
    ensures Shape(n, w) && HoldsEntries(contents[key := value], n, w) && key in contents
  {
  }

  /** Children do not notice changes that keep every interval. */
  lemma ChildrenStay(h: Nodes, h': Nodes, n: Node, v: View)
    requires ChildrenOk(h, n, v) && forall x :: x in h ==> x in h' && h'[x].hi == h[x].hi
    ensures ChildrenOk(h', n, v)
  {
    forall i | 0 <= i < |v.children| ensures ChildAt(h', n, v, i, v.children[i]) { assert ChildAt(h, n, v, i, v.children[i]); }
  }

  /** Entries of other leaves do not notice a change at a key of this one. */
  lemma OtherLeaf(h: Nodes, contents: map<int, int64>, leaf: Node, n: Node, key: int64, value: int64)
    requires leaf in h && n in h && leaf.isLeaf && leaf.level == 0 && leaf.lo <= key < h[leaf].hi
    requires Apart(h, n, leaf) && Shape(n, h[n]) && HoldsEntries(contents, n, h[n])
    ensures HoldsEntries(contents[key := value], n, h[n])
  {
  }

  /** The rest of the tree does not notice a change at a key of one leaf. */
  lemma NodeOf(h: Nodes, contents: map<int, int64>, root: Node, over: Node?, parent: Node?, n: Node)
    requires TreeOk(h, contents, root, over, parent) && n in h
    ensures NodeOk(h, contents, root, over, parent, n)
  {
  }

  lemma LeafParts(h: Nodes, contents: map<int, int64>, root: Node, over: Node?, parent: Node?, leaf: Node)
    requires leaf in h && leaf.isLeaf && NodeOk(h, contents, root, over, parent, leaf)
    ensures Shape(leaf, h[leaf]) && HoldsEntries(contents, leaf, h[leaf]) && leaf.level == 0 && h[leaf].children == []
    ensures |h[leaf].values| == |h[leaf].keys| && h[leaf].hi <= TWO_63 && (over != leaf ==> |h[leaf].keys| <= ORDER)
    ensures forall i :: 0 <= i < |h[leaf].keys| ==> leaf.lo <= h[leaf].keys[i] < h[leaf].hi
  {
  }

  lemma LeafChanged(h: Nodes, contents: map<int, int64>, root: Node, leaf: Node, w: View, key: int64, value: int64)
    requires TreeOk(h, contents, root, null, null) && leaf in h && leaf.isLeaf && leaf.lo <= key < h[leaf].hi
    requires Shape(leaf, w) && HoldsEntries(contents[key := value], leaf, w)
    requires w.children == h[leaf].children && w.next == h[leaf].next && w.hi == h[leaf].hi
    requires |h[leaf].keys| <= |w.keys| <= |h[leaf].keys| + 1
    ensures TreeOk(h[leaf := w], contents[key := value], root, leaf, null)
  {
    var h' := h[leaf := w];
    assert NodeOk(h, contents, root, null, null, leaf);
    assert leaf.level == 0 && ChildrenOk(h', leaf, w);
    hide Shape, ChildrenOk, HoldsEntries;
    forall n | n in h' ensures NodeOk(h', contents[key := value], root, leaf, null, n) {
      if n != leaf {
        assert NodeOk(h, contents, root, null, null, n) && Apart(h, n, leaf);
        ChildrenStay(h, h', n, h[n]);
        OtherLeaf(h, contents, leaf, n, key, value);
      }
    }
    forall a, b | a in h' && b in h' && a != b ensures Apart(h', a, b) { assert Apart(h, a, b); }
  }

  // ---- Splitting a node ----

  /** The child's only parent, or none if the child is the root. */
  ghost predicate IsParent(h: Nodes, root: Node, parent: Node?, i: nat, child: Node) {
    child in h &&
    (if parent == null then child == root && h[child].hi == TWO_63
     else parent in h && !parent.isLeaf && i < |h[parent].children| && h[parent].children[i] == child)
  }

  lemma Inside(n: Node, v: View, i: nat)
    requires Shape(n, v) && !n.isLeaf && i <= |v.keys| && |v.keys| >= 1
    ensures n.lo <= Low(n, v, i) < High(v, i) <= v.hi && (n.lo < Low(n, v, i) || High(v, i) < v.hi)
  {
  }

  lemma SeparateChildren(n: Node, v: View, i: nat, j: nat)
    requires Shape(n, v) && !n.isLeaf && i <= |v.keys| && j <= |v.keys| && i != j
    ensures Low(n, v, i) != Low(n, v, j)
  {
  }

  /** No other node has this child, nor this one a second time, and the root has no parent. */
  lemma OnlyParent(h: Nodes, contents: map<int, int64>, root: Node, over: Node?, parent: Node?, i: nat, child: Node, n: Node, j: nat)
    requires TreeOk(h, contents, root, over, null) && IsParent(h, root, parent, i, child)
    requires n in h && j < |h[n].children| && h[n].children[j] == child
    ensures n == parent && j == i
  {
    assert NodeOk(h, contents, root, over, null, n) && ChildAt(h, n, h[n], j, child);
    Inside(n, h[n], j);
    if parent != null {
      assert NodeOk(h, contents, root, over, null, parent) && ChildAt(h, parent, h[parent], i, child);
      Inside(parent, h[parent], i);
      assert n != parent ==> Apart(h, n, parent);
      if j != i && n == parent { SeparateChildren(n, h[n], i, j); }
    }
  }

  /** left has been split and right not yet been hung under its parent. */
  ghost predicate Pending(h: Nodes, root: Node, parent: Node?, i: nat, left: Node, right: Node, up: int) {
    && left in h && right in h && left != right && left.level == right.level && left.isLeaf == right.isLeaf
    && left.lo < up < h[right].hi && h[left].hi == up == right.lo
    && |h[left].keys| >= MIN_KEYS && |h[right].keys| >= MIN_KEYS
    && (if parent == null then left == root && h[right].hi == TWO_63
        else parent in h && !parent.isLeaf && PendingUnder(h, parent, h[parent], i, left, right))
  }

  ghost predicate PendingUnder(h: Nodes, parent: Node, v: View, i: nat, left: Node, right: Node)
    requires right in h
  {
    && Shape(parent, v) && i < |v.children| && v.children[i] == left && i <= |v.keys|
    && left.level + 1 == parent.level && left.lo == Low(parent, v, i) && h[right].hi == High(v, i)
    && forall j :: 0 <= j < |v.children| && j != i ==> ChildAt(h, parent, v, j, v.children[j])
  }

  /** What splitting any node does to its own view: the two halves meet at up. */
  ghost predicate Halves(h: Nodes, contents: map<int, int64>, left: Node, right: Node, l: View, r: View, up: int)
    requires left in h
  {
    && right !in h && right.level == left.level && right.isLeaf == left.isLeaf && right.lo == up
    && Shape(left, l) && Shape(right, r) && l.hi == up && r.hi == h[left].hi
    && MIN_KEYS <= |l.keys| <= ORDER && MIN_KEYS <= |r.keys| <= ORDER
    && HoldsEntries(contents, left, l) && HoldsEntries(contents, right, r)
    && (left.isLeaf ==> l.next == right && r.next == h[left].next)
  }

  lemma ApartAfterSplit(h: Nodes, left: Node, right: Node, l: View, r: View, up: int)
    requires AllApart(h) && left in h && right !in h && right.level == left.level && right.lo == up && l.hi == up
    requires left.lo < up < r.hi && r.hi == h[left].hi
    ensures AllApart(h[left := l][right := r])
  {
    var h' := h[left := l][right := r];
    forall a, b | a in h' && b in h' && a != b ensures Apart(h', a, b) {
      if a != right && b != right { assert Apart(h, a, b); }
      if a == right && b != left { assert Apart(h, left, b); }
      if b == right && a != left { assert Apart(h, a, left); }
    }
  }

  /** Other nodes' children are where they were. */
  lemma OthersAfterSplit(h: Nodes, contents: map<int, int64>, root: Node, parent: Node?, i: nat, left: Node, right: Node,
                         l: View, r: View, n: Node)
    requires TreeOk(h, contents, root, left, null) && IsParent(h, root, parent, i, left) && right !in h
    requires n in h && n != left && n != parent
    ensures ChildrenOk(h[left := l][right := r], n, h[n])
  {
    var h', v := h[left := l][right := r], h[n];
    assert NodeOk(h, contents, root, left, null, n);
    forall j: nat | j < |v.children| ensures ChildAt(h', n, v, j, v.children[j]) {
      assert ChildAt(h, n, v, j, v.children[j]);
      if v.children[j] == left { OnlyParent(h, contents, root, left, parent, i, left, n, j); }
    }
  }

  /** After any split everything is right but for the parent, which still has to take right in. */
  lemma SplitDone(h: Nodes, contents: map<int, int64>, root: Node, parent: Node?, i: nat, left: Node, right: Node,
                  l: View, r: View, up: int)
    requires TreeOk(h, contents, root, left, null) && IsParent(h, root, parent, i, left)
    requires Halves(h, contents, left, right, l, r, up) && left.lo < up < r.hi && left != parent
    requires ChildrenOk(h[left := l][right := r], left, l) && ChildrenOk(h[left := l][right := r], right, r)
    ensures var h' := h[left := l][right := r];
      TreeOk(h', contents, root, null, parent) && Pending(h', root, parent, i, left, right, up)
  {
    var h' := h[left := l][right := r];
    ApartAfterSplit(h, left, right, l, r, up);
    ThreadedAfterSplit(h, contents, root, left, right, l, r, up);
    assert right != parent;
    PendingAfterSplit(h, contents, root, parent, i, left, right, l, r, up);
    hide Shape, Threaded, HoldsEntries, ChildrenOk, AllApart, Pending;
    forall n | n in h' ensures NodeOk(h', contents, root, null, parent, n) {
      if n != left && n != right {
        assert NodeOk(h, contents, root, left, null, n);
        if n != parent { OthersAfterSplit(h, contents, root, parent, i, left, right, l, r, n); }
      }
    }
  }

  lemma ThreadedAfterSplit(h: Nodes, contents: map<int, int64>, root: Node, left: Node, right: Node, l: View, r: View, up: int)
    requires TreeOk(h, contents, root, left, null) && left in h && Halves(h, contents, left, right, l, r, up) && up < r.hi
    ensures var h' := h[left := l][right := r]; forall n :: n in h' ==> Threaded(h', n, h'[n])
  {
    var h' := h[left := l][right := r];
    forall n | n in h' ensures Threaded(h', n, h'[n]) {
      assert NodeOk(h, contents, root, left, null, left);
      if n != left && n != right { assert NodeOk(h, contents, root, left, null, n); }
    }
  }

  lemma PendingAfterSplit(h: Nodes, contents: map<int, int64>, root: Node, parent: Node?, i: nat, left: Node, right: Node,
                          l: View, r: View, up: int)
    requires TreeOk(h, contents, root, left, null) && IsParent(h, root, parent, i, left) && left != parent
    requires Halves(h, contents, left, right, l, r, up) && left.lo < up < r.hi
    ensures Pending(h[left := l][right := r], root, parent, i, left, right, up)
  {
    var h' := h[left := l][right := r];
    if parent != null {
      var v := h[parent];
      assert NodeOk(h, contents, root, left, null, parent) && ChildAt(h, parent, v, i, left);
      hide Shape, Halves;
      forall j: nat | j < |v.children| && j != i ensures ChildAt(h', parent, v, j, v.children[j]) {
        assert ChildAt(h, parent, v, j, v.children[j]);
        if v.children[j] == left { OnlyParent(h, contents, root, left, parent, i, left, parent, j); }
      }
    }
  }

  lemma HalvesIncrease(keys: seq<int64>, a: nat, b: nat)
    requires Increasing(keys) && a <= b <= |keys|
    ensures Increasing(keys[..a]) && Increasing(keys[b..])
  {
    forall i, j | 0 <= i < j < |keys| - b ensures keys[b..][i] < keys[b..][j] {
      assert keys[b + i] < keys[b + j];
    }
  }

  /** A leaf split in the middle: 32 keys stay, 33 go right, and the two are linked. */
  lemma LeafHalves(h: Nodes, contents: map<int, int64>, root: Node, leaf: Node, right: Node, mid: nat, l: View, r: View)
    requires TreeOk(h, contents, root, leaf, null) && leaf in h && leaf.isLeaf && |h[leaf].keys| == ORDER + 1
    requires mid == |h[leaf].keys| / 2 && right !in h && right.isLeaf && right.level == 0 && right.lo == h[leaf].keys[mid]
    requires var v := h[leaf];
      l == View(v.keys[..mid], [], v.values[..mid], right, v.keys[mid]) && r == View(v.keys[mid..], [], v.values[mid..], v.next, v.hi)
    ensures var up := h[leaf].keys[mid];
      && Halves(h, contents, leaf, right, l, r, up) && leaf.lo < up < r.hi
      && ChildrenOk(h[leaf := l][right := r], leaf, l) && ChildrenOk(h[leaf := l][right := r], right, r)
  {
    var v, up := h[leaf], h[leaf].keys[mid];
    assert NodeOk(h, contents, root, leaf, null, leaf);
    LeafShapes(leaf, right, v, mid, l, r);
    LeafEntries(contents, leaf, right, v, mid, l, r);
    hide HoldsEntries, TreeOk, NodeOk;
  }

  lemma LeafShapes(leaf: Node, right: Node, v: View, mid: nat, l: View, r: View)
    requires leaf.isLeaf && Shape(leaf, v) && 0 < mid < |v.keys| && right.isLeaf && right.level == 0 && right.lo == v.keys[mid]
    requires l == View(v.keys[..mid], [], v.values[..mid], right, v.keys[mid]) && r == View(v.keys[mid..], [], v.values[mid..], v.next, v.hi)
    ensures Shape(leaf, l) && Shape(right, r) && leaf.lo < v.keys[mid] < v.hi
  {
    HalvesIncrease(v.keys, mid, mid);
    assert leaf.lo <= v.keys[0] < v.keys[mid];
  }

  lemma LeafEntries(contents: map<int, int64>, leaf: Node, right: Node, v: View, mid: nat, l: View, r: View)
    requires leaf.isLeaf && Shape(leaf, v) && HoldsEntries(contents, leaf, v) && mid < |v.keys| && right.isLeaf && right.lo == v.keys[mid]
    requires l == View(v.keys[..mid], [], v.values[..mid], right, v.keys[mid]) && r == View(v.keys[mid..], [], v.values[mid..], v.next, v.hi)
    ensures HoldsEntries(contents, leaf, l) && HoldsEntries(contents, right, r)
  {
    var up := v.keys[mid];
    forall k | k in contents && leaf.lo <= k < up ensures HasKey(l.keys, k) {
      var i :| 0 <= i < |v.keys| && v.keys[i] == k;
      assert l.keys[i] == k;
    }
    forall k | k in contents && up <= k < r.hi ensures HasKey(r.keys, k) {
      assert HasKey(v.keys, k);
      var i :| 0 <= i < |v.keys| && v.keys[i] == k;
      assert r.keys[i - mid] == k;
    }
  }

  /** An internal node split in the middle: 32 keys on either side, the middle one goes up. */
  lemma InternalHalves(h: Nodes, contents: map<int, int64>, root: Node, node: Node, right: Node, mid: nat, l: View, r: View)
    requires TreeOk(h, contents, root, node, null) && node in h && !node.isLeaf && |h[node].keys| == ORDER + 1
    requires mid == |h[node].keys| / 2 && right !in h && !right.isLeaf && right.level == node.level && right.lo == h[node].keys[mid]
    requires var v := h[node];
      && |v.children| == |v.keys| + 1
      && l == View(v.keys[..mid], v.children[..mid + 1], [], null, v.keys[mid])
      && r == View(v.keys[mid + 1..], v.children[mid + 1..], [], null, v.hi)
    ensures var up := h[node].keys[mid];
      && Halves(h, contents, node, right, l, r, up) && node.lo < up < r.hi
      && ChildrenOk(h[node := l][right := r], node, l) && ChildrenOk(h[node := l][right := r], right, r)
  {
    var (v, up, h') := (h[node], h[node].keys[mid], h[node := l][right := r]);
    assert NodeOk(h, contents, root, node, null, node);
    HalvesIncrease(v.keys, mid, mid + 1);
    hide ChildAt;
    ChildrenHalved(h, node, right, mid, l, r);
  }

  /** The children left of the middle key stay, the others go to the new node. */
  lemma ChildrenHalved(h: Nodes, node: Node, right: Node, mid: nat, l: View, r: View)
    requires node in h && !node.isLeaf && right !in h && !right.isLeaf && right.level == node.level
    requires mid < |h[node].keys| && right.lo == h[node].keys[mid] && |h[node].children| == |h[node].keys| + 1
    requires var v := h[node];
      && l == View(v.keys[..mid], v.children[..mid + 1], [], null, v.keys[mid])
      && r == View(v.keys[mid + 1..], v.children[mid + 1..], [], null, v.hi)
    requires forall j: nat :: j < |h[node].children| ==> ChildAt(h, node, h[node], j, h[node].children[j])
    ensures forall j: nat :: j < |l.children| ==> ChildAt(h[node := l][right := r], node, l, j, l.children[j])
    ensures forall j: nat :: j < |r.children| ==> ChildAt(h[node := l][right := r], right, r, j, r.children[j])
  {
    var (v, h') := (h[node], h[node := l][right := r]);
    forall j: nat | j < |l.children| ensures ChildAt(h', node, l, j, l.children[j]) { assert ChildAt(h, node, v, j, v.children[j]); }
    forall j: nat | j < |r.children| ensures ChildAt(h', right, r, j, r.children[j]) {
      var k := mid + 1 + j;
      assert ChildAt(h, node, v, k, v.children[k]);
    }
  }

  // ---- The parent takes the new node in ----

  /** upper_bound finds the place right after left. */
  lemma PlaceOfRight(h: Nodes, parent: Node, v: View, i: nat, left: Node, right: Node, up: int, k: nat)
    requires right in h && PendingUnder(h, parent, v, i, left, right) && left.lo < up < h[right].hi
    requires k <= |v.keys| && IsUpperBound(v.keys, up, k)
    ensures k == i && (forall j :: 0 <= j < i ==> v.keys[j] < up)
  {
    forall j | 0 <= j < i ensures v.keys[j] < up { if j < i - 1 { assert v.keys[j] < v.keys[i - 1]; } }
  }

  lemma ParentTakes(h: Nodes, contents: map<int, int64>, root: Node, parent: Node, i: nat, left: Node, right: Node, up: int64, w: View)
    requires TreeOk(h, contents, root, null, parent) && Pending(h, root, parent, i, left, right, up)
    requires var v := h[parent];
      && i <= |v.keys| && IsUpperBound(v.keys, up, i)
      && IsInserted(w.keys, v.keys, i, up) && IsInserted(w.children, v.children, i + 1, right)
      && w.values == v.values && w.next == v.next && w.hi == v.hi
    ensures TreeOk(h[parent := w], contents, root, parent, null)
  {
    var (h', v) := (h[parent := w], h[parent]);
    assert NodeOk(h, contents, root, null, parent, parent);
    PlaceOfRight(h, parent, v, i, left, right, up, i);
    InsertedIncreases(v.keys, w.keys, i, up);
    TakenShape(h, parent, v, i, left, right, up, w);
    TakenChildren(h, root, parent, i, left, right, up, w);
    assert NodeOk(h', contents, root, parent, null, parent);
    hide Shape, ChildrenOk, HoldsEntries, Pending, Increasing, IsUpperBound, IsInserted;
    forall n | n in h' ensures NodeOk(h', contents, root, parent, null, n) {
      if n != parent {
        assert NodeOk(h, contents, root, null, parent, n);
        ChildrenStay(h, h', n, h[n]);
      }
    }
    forall a, b | a in h' && b in h' && a != b ensures Apart(h', a, b) { assert Apart(h, a, b); }
  }

  lemma TakenShape(h: Nodes, parent: Node, v: View, i: nat, left: Node, right: Node, up: int64, w: View)
    requires right in h && PendingUnder(h, parent, v, i, left, right) && left.lo < up < h[right].hi && !parent.isLeaf
    requires IsInserted(w.keys, v.keys, i, up) && IsInserted(w.children, v.children, i + 1, right) && Increasing(w.keys)
    requires w.values == v.values && w.next == v.next && w.hi == v.hi
    ensures Shape(parent, w)
  {
    forall j | 0 <= j < |w.keys| ensures parent.lo < w.keys[j] < w.hi {
      if j > i { assert w.keys[j] == v.keys[j - 1]; }
    }
  }

  lemma TakenChildren(h: Nodes, root: Node, parent: Node, i: nat, left: Node, right: Node, up: int64, w: View)
    requires parent in h && Pending(h, root, parent, i, left, right, up) && Shape(parent, w)
    requires IsInserted(w.keys, h[parent].keys, i, up) && IsInserted(w.children, h[parent].children, i + 1, right)
    requires w.hi == h[parent].hi
    ensures ChildrenOk(h[parent := w], parent, w)
  {
    var (h', v) := (h[parent := w], h[parent]);
    forall j: nat | j < |w.children| ensures ChildAt(h', parent, w, j, w.children[j]) {
      if j < i {
        assert ChildAt(h, parent, v, j, v.children[j]);
      } else if j > i + 1 {
        assert ChildAt(h, parent, v, j - 1, v.children[j - 1]);
      }
    }
  }

  /** The root itself split: the tree grows by one level. */
  lemma RootGrows(h: Nodes, contents: map<int, int64>, root: Node, right: Node, up: int64, taller: Node, w: View)
    requires TreeOk(h, contents, root, null, null) && Pending(h, root, null, 0, root, right, up)
    requires taller !in h && !taller.isLeaf && taller.level == root.level + 1 && taller.lo == -TWO_63
    requires w == View([up], [root, right], [], null, TWO_63)
    ensures TreeOk(h[taller := w], contents, taller, null, null)
  {
    var h' := h[taller := w];
    forall n | n in h ensures n.level <= root.level { assert NodeOk(h, contents, root, null, null, n); }
    assert ChildAt(h', taller, w, 0, root) && ChildAt(h', taller, w, 1, right);
    forall n | n in h' ensures NodeOk(h', contents, taller, null, null, n) {
      if n != taller {
        assert NodeOk(h, contents, root, null, null, n);
        ChildrenStay(h, h', n, h[n]);
      }
    }
    forall a, b | a in h' && b in h' && a != b ensures Apart(h', a, b) {
      if a != taller && b != taller { assert Apart(h, a, b); }
    }
  }

  // ---- The way down ----

  /** The node after path[k] on the way down to node. */
  function NextOn(path: seq<Node>, k: nat, node: Node): Node
    requires k < |path|
  {
    if k + 1 < |path| then path[k + 1] else node
  }

  ghost predicate Leads(h: Nodes, parent: Node, i: nat, child: Node) {
    parent in h && !parent.isLeaf && i < |h[parent].children| && h[parent].children[i] == child && child.level + 1 == parent.level
  }

  /** path goes from the root down to node, at the children with these numbers. */
  ghost predicate PathOk(h: Nodes, root: Node, path: seq<Node>, at: seq<nat>, node: Node) {
    && |at| == |path| && root == (if path == [] then node else path[0])
    && forall k: nat :: k < |path| ==> Leads(h, path[k], at[k], NextOn(path, k, node))
  }

  lemma PathGrows(h: Nodes, root: Node, path: seq<Node>, at: seq<nat>, node: Node, i: nat, child: Node)
    requires PathOk(h, root, path, at, node) && Leads(h, node, i, child)
    ensures PathOk(h, root, path + [node], at + [i], child)
  {
    var longer := path + [node];
    forall k: nat | k < |longer| ensures Leads(h, longer[k], (at + [i])[k], NextOn(longer, k, child)) {
      if k < |path| { assert Leads(h, path[k], at[k], NextOn(path, k, node)); }
    }
  }

  /** The path to the node above, with that node as its end. */
  lemma PathAbove(h: Nodes, root: Node, path: seq<Node>, at: seq<nat>, node: Node)
    requires PathOk(h, root, path, at, node) && path != []
    ensures var n := |path| - 1; PathOk(h, root, path[..n], at[..n], path[n]) && Leads(h, path[n], at[n], node)
  {
    var n := |path| - 1;
    assert Leads(h, path[n], at[n], NextOn(path, n, node));
    forall k: nat | k < n ensures Leads(h, path[..n][k], at[..n][k], NextOn(path[..n], k, path[n])) {
      assert Leads(h, path[k], at[k], NextOn(path, k, node));
    }
  }

  lemma {:induction false} PathLevels(h: Nodes, root: Node, path: seq<Node>, at: seq<nat>, node: Node, k: nat)
    requires PathOk(h, root, path, at, node) && k < |path|
    ensures path[k].level == node.level + |path| - k
    decreases |path| - k
  {
    assert Leads(h, path[k], at[k], NextOn(path, k, node));
    if k + 1 < |path| { PathLevels(h, root, path, at, node, k + 1); }
  }

  lemma PathInTree(h: Nodes, root: Node, path: seq<Node>, at: seq<nat>, node: Node)
    requires PathOk(h, root, path, at, node)
    ensures |at| == |path| && forall k :: 0 <= k < |path| ==> path[k] in h
  {
    forall k: nat | k < |path| ensures path[k] in h { assert Leads(h, path[k], at[k], NextOn(path, k, node)); }
  }

  /** Changes at or below the end of a path leave the path. */
  lemma PathStays(h: Nodes, h': Nodes, root: Node, path: seq<Node>, at: seq<nat>, node: Node)
    requires PathOk(h, root, path, at, node)
    requires forall n :: n in h && n.level > node.level ==> n in h' && h'[n] == h[n]
    ensures PathOk(h', root, path, at, node)
  {
    forall k: nat | k < |path| ensures Leads(h', path[k], at[k], NextOn(path, k, node)) {
      PathLevels(h, root, path, at, node, k);
      assert Leads(h, path[k], at[k], NextOn(path, k, node));
    }
  }

  function Above(path: seq<Node>): Node? {
    if path == [] then null else path[|path| - 1]
  }

  function AboveAt(at: seq<nat>): nat {
    if at == [] then 0 else at[|at| - 1]
  }

  class BPlusTree {
    var root: Node
    var count: nat
    ghost var nodes: Nodes
    ghost var contents: map<int, int64>

    ghost predicate Mirrored()
      reads this, nodes.Keys
    {
      forall n :: n in nodes ==> n.Now() == nodes[n]
    }

    ghost predicate Valid()
      reads this, nodes.Keys
    {
      Mirrored() && TreeOk(nodes, contents, root, null, null) && nodes[root].hi == TWO_63 && count == |contents|
    }

    constructor ()
      ensures Valid() && contents == map[] && fresh(nodes.Keys)
    {
      var leaf := new Node(true, [], [], [], null, 0, -TWO_63, TWO_63);
      root, count, nodes, contents := leaf, 0, map[leaf := View([], [], [], null, TWO_63)], map[];
    }

    /** One step down: the child whose interval has the key. */
    method Child(node: Node, key: int64) returns (child: Node, i: nat)
      requires Valid() && node in nodes && !node.isLeaf && node.lo <= key < nodes[node].hi
      ensures Leads(nodes, node, i, child) && child in nodes && child.lo <= key < nodes[child].hi
    {
      assert NodeOk(nodes, contents, root, null, null, node);
      i := UpperBound(node.keys, key);
      child := node.children[i];
      assert ChildAt(nodes, node, nodes[node], i, child);
    }

    method FindLeaf(key: int64) returns (leaf: Node)
      requires Valid()
      ensures leaf in nodes && leaf.isLeaf && leaf.lo <= key < nodes[leaf].hi
    {
      leaf := root;
      while !leaf.isLeaf
        invariant leaf in nodes && leaf.lo <= key < nodes[leaf].hi
        decreases leaf.level
      {
        var i;
        leaf, i := Child(leaf, key);
      }
    }

    method Search(key: int64) returns (found: bool, value: int64)
      requires Valid()
      ensures found <==> key in contents
      ensures found ==> value == contents[key]
    {
      var leaf := FindLeaf(key);
      assert NodeOk(nodes, contents, root, null, null, leaf);
      var i := LowerBound(leaf.keys, key);
      if i < |leaf.keys| && leaf.keys[i] == key { return true, leaf.values[i]; }
      assert !HasKey(leaf.keys, key);
      return false, 0;
    }

    method Size() returns (n: nat)
      requires Valid()
      ensures n == |contents|
    {
      n := count;
    }

    /** The leaf for a key, and the ancestors passed on the way down to it. */
    method FindPath(key: int64) returns (node: Node, path: seq<Node>, ghost at: seq<nat>)
      requires Valid()
      ensures node in nodes && node.isLeaf && node.lo <= key < nodes[node].hi && PathOk(nodes, root, path, at, node)
    {
      path, at, node := [], [], root;
      while !node.isLeaf
        invariant node in nodes && node.lo <= key < nodes[node].hi && PathOk(nodes, root, path, at, node)
        decreases node.level
      {
        var child, i := Child(node, key);
        PathGrows(nodes, root, path, at, node, i, child);
        path, at := path + [node], at + [i];
        node := child;
      }
    }

    /** The tree after an insert is the map after an update. */
    method Insert(key: int64, value: int64)
      requires Valid()
      modifies this, nodes.Keys
      ensures Valid() && contents == old(contents)[key := value] && fresh(nodes.Keys - old(nodes.Keys))
    {
      hide TreeOk, PathOk, NodeOk;
      var leaf, path;
      ghost var at;
      leaf, path, at := FindPath(key);
      ghost var before := nodes;
      InsertIntoLeaf(leaf, key, value);
      PathStays(before, nodes, root, path, at, leaf);
      PathInTree(nodes, root, path, at, leaf);
      if |leaf.keys| > ORDER {
        SplitLeafAndPropagate(leaf, path, at);
      } else {
        Settled(leaf);
      }
    }

    /** The record of what nodes hold catches up with one node. */
    ghost method Note(n: Node)
      requires forall x :: x in nodes && x != n ==> x.Now() == nodes[x]
      modifies this`nodes
      ensures Mirrored() && nodes == old(nodes)[n := n.Now()]
    {
      nodes := nodes[n := n.Now()];
    }

    /** Everything as it should be, but that one node may have a key too many. */
    ghost predicate Overfull(node: Node)
      reads this, nodes.Keys
    {
      && Mirrored() && TreeOk(nodes, contents, root, node, null) && nodes[root].hi == TWO_63 && count == |contents|
      && node in nodes
    }

    method InsertIntoLeaf(leaf: Node, key: int64, value: int64)
      requires Valid() && leaf in nodes && leaf.isLeaf && leaf.lo <= key < nodes[leaf].hi
      modifies this`count, this`contents, this`nodes, leaf
      ensures Overfull(leaf) && contents == old(contents)[key := value]
      ensures nodes == old(nodes)[leaf := leaf.Now()] && |leaf.keys| <= ORDER + 1
    {
      hide TreeOk, NodeOk, Shape, HoldsEntries;
      NodeOf(nodes, contents, root, null, null, leaf);
      LeafParts(nodes, contents, root, null, null, leaf);
      assert leaf.Now() == nodes[leaf];
      var grew := PutInLeaf(leaf, key, value, contents);
      if grew { count := count + 1; }
      LeafChanged(nodes, contents, root, leaf, leaf.Now(), key, value);
      contents := contents[key := value];
      Note(leaf);
    }

    /** A node with no key too many: the tree is as it should be. */
    lemma Settled(node: Node)
      requires Overfull(node) && |node.keys| <= ORDER
      ensures Valid()
    {
      assert node.Now() == nodes[node];
      NotOverfull(nodes, contents, root, node);
    }

    /** Halfway up: left is split, and right is to go under the end of path. */
    ghost predicate Halfway(left: Node, right: Node, up: int, path: seq<Node>, at: seq<nat>)
      reads this, nodes.Keys
    {
      Mirrored() && count == |contents| && HalfwayUp(nodes, contents, root, left, right, up, path, at)
    }

    method SplitLeafAndPropagate(leaf: Node, path: seq<Node>, ghost at: seq<nat>)
      requires Overfull(leaf) && leaf.isLeaf && PathOk(nodes, root, path, at, leaf) && |leaf.keys| == ORDER + 1
      requires leaf in nodes && |at| == |path| && forall k :: 0 <= k < |path| ==> path[k] in nodes
      modifies this, nodes.Keys
      ensures Valid() && contents == old(contents) && fresh(nodes.Keys - old(nodes.Keys))
    {
      hide *;
      ghost var before := nodes.Keys;
      var right, up := SplitLeaf(leaf, path, at);
      ghost var halfway := nodes.Keys;
      Propagate(leaf, right, up, path, at);
      assert nodes.Keys - before <= (nodes.Keys - halfway) + {right};
    }

    /** Back up toward the root until a parent has room. */
    method Propagate(leaf: Node, newLeaf: Node, upKey: int64, path: seq<Node>, ghost at: seq<nat>)
      requires Halfway(leaf, newLeaf, upKey, path, at) && |at| == |path|
      requires forall k :: 0 <= k < |path| ==> path[k] in nodes
      modifies this, nodes.Keys
      ensures Valid() && contents == old(contents) && fresh(nodes.Keys - old(nodes.Keys))
    {
      hide *;
      var left, right, up := leaf, newLeaf, upKey;
      var level: nat := |path|;
      assert path[..level] == path && at[..level] == at;
      while level > 0
        invariant level <= |path| && Halfway(left, right, up, path[..level], at[..level])
        invariant contents == old(contents) && fresh(nodes.Keys - old(nodes.Keys))
      {
        level := level - 1;
        var more, newRight, newUp := Climb(path[level], left, right, up, path[..level + 1], at[..level + 1]);
        if !more { return; }
        left, right, up := path[level], newRight, newUp;
        assert path[..level + 1][..level] == path[..level] && at[..level + 1][..level] == at[..level];
      }
      assert path[..0] == [] && at[..0] == [];
      GrowRoot(left, right, up);
    }

    /** One level of the way back up: the parent takes the new node in, and is split if that is
        one too many. */
    method Climb(parent: Node, left: Node, right: Node, up: int64, path: seq<Node>, ghost at: seq<nat>)
      returns (more: bool, newRight: Node, newUp: int64)
      requires path != [] && parent == path[|path| - 1] && Halfway(left, right, up, path, at) && |at| == |path|
      modifies this`nodes, parent
      ensures !more ==> Valid() && nodes.Keys == old(nodes.Keys)
      ensures more ==> Halfway(parent, newRight, newUp, path[..|path| - 1], at[..|path| - 1])
      ensures more ==> fresh(newRight) && nodes.Keys == old(nodes.Keys) + {newRight}
    {
      hide *;
      TakeIn(parent, left, right, up, path, at);
      if |parent.keys| <= ORDER {
        Settled(parent);
        return false, right, up;
      }
      newRight, newUp := SplitInternal(parent, path[..|path| - 1], at[..|path| - 1]);
      more := true;
    }

    method SplitLeaf(leaf: Node, path: seq<Node>, ghost at: seq<nat>) returns (right: Node, up: int64)
      requires Overfull(leaf) && leaf.isLeaf && PathOk(nodes, root, path, at, leaf) && |leaf.keys| == ORDER + 1
      modifies this`nodes, leaf
      ensures Halfway(leaf, right, up, path, at) && fresh(right) && nodes.Keys == old(nodes.Keys) + {right}
    {
      hide TreeOk, NodeOk, PathOk, SplitReady;
      NodeOf(nodes, contents, root, leaf, null, leaf);
      LeafParts(nodes, contents, root, leaf, null, leaf);
      assert leaf.Now() == nodes[leaf];
      var mid := |leaf.keys| / 2;
      ghost var v := nodes[leaf];
      up := leaf.keys[mid];
      right := new Node(true, leaf.keys[mid..], [], leaf.values[mid..], leaf.next, 0, leaf.keys[mid], leaf.hi);
      leaf.keys := leaf.keys[..mid];
      leaf.values := leaf.values[..mid];
      leaf.next := right;
      leaf.hi := up;
      LeafSplitReady(nodes, contents, root, leaf, right, mid, path, at, leaf.Now(), right.Now());
      Split(leaf, right, up, path, at);
    }

    /** The ghost side of a split, leaf or not. */
    ghost method Split(left: Node, right: Node, up: int, path: seq<Node>, at: seq<nat>)
      requires SplitReady(nodes, contents, root, left, right, up, path, at, left.Now(), right.Now()) && count == |contents|
      requires forall n :: n in nodes && n != left ==> n.Now() == nodes[n]
      modifies this`nodes
      ensures Halfway(left, right, up, path, at) && nodes.Keys == old(nodes).Keys + {right}
    {
      hide *;
      SplitView(nodes, contents, root, left, right, up, path, at, left.Now(), right.Now());
      NoteBoth(left, right);
      IsHalfway(left, right, up, path, at);
    }

    lemma IsHalfway(left: Node, right: Node, up: int, path: seq<Node>, at: seq<nat>)
      requires Mirrored() && count == |contents| && HalfwayUp(nodes, contents, root, left, right, up, path, at)
      ensures Halfway(left, right, up, path, at)
    {
    }

    ghost method NoteBoth(n: Node, other: Node)
      requires forall x :: x in nodes && x != n ==> x.Now() == nodes[x]
      modifies this`nodes
      ensures Mirrored() && nodes == old(nodes)[n := n.Now()][other := other.Now()]
    {
      nodes := nodes[n := n.Now()][other := other.Now()];
    }

    /** The new separator and the new child go into the parent. */
    method TakeIn(parent: Node, left: Node, right: Node, up: int64, path: seq<Node>, ghost at: seq<nat>)
      requires path != [] && parent == path[|path| - 1] && Halfway(left, right, up, path, at)
      modifies this`nodes, parent
      ensures Overfull(parent) && nodes.Keys == old(nodes.Keys) && |at| == |path|
      ensures PathOk(nodes, root, path[..|path| - 1], at[..|path| - 1], parent) && !parent.isLeaf
      ensures |parent.keys| <= ORDER + 1
    {
      hide *;
      ghost var h := nodes;
      CanTake(parent, left, right, up, path, at);
      var i := UpperBound(parent.keys, up);
      AddChild(parent, i, up, right);
      TakenIn(h, contents, root, left, right, up, path, at, i, parent.Now());
      Note(parent);
      TakenMeans(nodes, contents, root, parent, path, at);
      KeysAsNoted(parent);
      IsOverfull(parent);
    }

    lemma CanTake(parent: Node, left: Node, right: Node, up: int, path: seq<Node>, at: seq<nat>)
      requires path != [] && parent == path[|path| - 1] && Halfway(left, right, up, path, at)
      ensures HalfwayUp(nodes, contents, root, left, right, up, path, at) && count == |contents|
      ensures parent in nodes && parent.Now() == nodes[parent] && nodes[parent].keys == parent.keys
      ensures forall n :: n in nodes ==> n.Now() == nodes[n]
      ensures Increasing(parent.keys) && |parent.children| == |parent.keys| + 1
    {
      ReadyToTake(nodes, contents, root, left, right, up, path, at);
    }

    lemma KeysAsNoted(n: Node)
      requires n in nodes && n.Now() == nodes[n]
      ensures nodes[n].keys == n.keys
    {
    }

    lemma IsOverfull(node: Node)
      requires Mirrored() && TreeOk(nodes, contents, root, node, null) && node in nodes && root in nodes
      requires nodes[root].hi == TWO_63 && count == |contents|
      ensures Overfull(node)
    {
    }

    method SplitInternal(node: Node, path: seq<Node>, ghost at: seq<nat>) returns (right: Node, up: int64)
      requires Overfull(node) && !node.isLeaf && PathOk(nodes, root, path, at, node) && |node.keys| == ORDER + 1
      modifies this`nodes, node
      ensures Halfway(node, right, up, path, at) && fresh(right) && nodes.Keys == old(nodes.Keys) + {right}
    {
      assert NodeOk(nodes, contents, root, node, null, node);
      var mid := |node.keys| / 2;
      up := node.keys[mid];
      right := new Node(false, node.keys[mid + 1..], node.children[mid + 1..], [], null, node.level, node.keys[mid], node.hi);
      node.keys := node.keys[..mid];
      node.children := node.children[..mid + 1];
      node.hi := up;
      InternalSplitReady(nodes, contents, root, node, right, mid, path, at, node.Now(), right.Now());
      Split(node, right, up, path, at);
    }

    /** The root itself split: a new root above the two halves. */
    method GrowRoot(left: Node, right: Node, up: int64)
      requires Halfway(left, right, up, [], [])
      modifies this`nodes, this`root
      ensures Valid() && fresh(root) && nodes.Keys == old(nodes.Keys) + {root}
    {
      hide TreeOk, Pending;
      var taller := new Node(false, [up], [left, right], [], null, left.level + 1, -TWO_63, TWO_63);
      RootGrows(nodes, contents, root, right, up, taller, taller.Now());
      Note(taller);
      root := taller;
    }
  }

  /** The entry goes where lower_bound says, or replaces the value there. */
  method PutInLeaf(leaf: Node, key: int64, value: int64, ghost contents: map<int, int64>) returns (grew: bool)
    requires leaf.isLeaf && Shape(leaf, leaf.Now()) && HoldsEntries(contents, leaf, leaf.Now()) && leaf.lo <= key < leaf.hi
    modifies leaf
    ensures Shape(leaf, leaf.Now()) && HoldsEntries(contents[key := value], leaf, leaf.Now())
    ensures leaf.children == old(leaf.children) && leaf.next == old(leaf.next) && leaf.hi == old(leaf.hi)
    ensures grew == (key !in contents) && |leaf.keys| == |old(leaf.keys)| + if grew then 1 else 0
  {
    ghost var v := leaf.Now();
    var i := LowerBound(leaf.keys, key);
    if i < |leaf.keys| && leaf.keys[i] == key {
      leaf.values := leaf.values[i := value]; // already present: overwrite
      ValueReplaced(leaf, v, leaf.Now(), i, key, value, contents);
      return false;
    }
    leaf.keys := InsertAt(leaf.keys, i, key);
    leaf.values := InsertAt(leaf.values, i, value);
    EntryInserted(leaf, v, leaf.Now(), i, key, value, contents);
    return true;
  }

  /** The two halves of a split node, ready to replace it. */
  ghost predicate SplitReady(h: Nodes, contents: map<int, int64>, root: Node, left: Node, right: Node, up: int,
                             path: seq<Node>, at: seq<nat>, l: View, r: View)
  {
    && left in h && right !in h && TreeOk(h, contents, root, left, null)
    && root in h && h[root].hi == TWO_63 && PathOk(h, root, path, at, left)
    && Halves(h, contents, left, right, l, r, up) && left.lo < up < r.hi
    && ChildrenOk(h[left := l][right := r], left, l) && ChildrenOk(h[left := l][right := r], right, r)
  }

  lemma LeafSplitReady(h: Nodes, contents: map<int, int64>, root: Node, leaf: Node, right: Node, mid: nat, path: seq<Node>, at: seq<nat>,
                       l: View, r: View)
    requires leaf in h && TreeOk(h, contents, root, leaf, null) && h[root].hi == TWO_63 && PathOk(h, root, path, at, leaf)
    requires leaf.isLeaf && |h[leaf].keys| == ORDER + 1
    requires mid == |h[leaf].keys| / 2 && right !in h && right.isLeaf && right.level == 0 && right.lo == h[leaf].keys[mid]
    requires var v := h[leaf];
      && |v.values| == |v.keys|
      && l == View(v.keys[..mid], [], v.values[..mid], right, v.keys[mid]) && r == View(v.keys[mid..], [], v.values[mid..], v.next, v.hi)
    ensures SplitReady(h, contents, root, leaf, right, h[leaf].keys[mid], path, at, l, r)
  {
    assert NodeOk(h, contents, root, leaf, null, leaf);
    hide TreeOk, NodeOk, PathOk, Halves, ChildrenOk;
    LeafHalves(h, contents, root, leaf, right, mid, l, r);
  }

  lemma InternalSplitReady(h: Nodes, contents: map<int, int64>, root: Node, node: Node, right: Node, mid: nat, path: seq<Node>, at: seq<nat>,
                           l: View, r: View)
    requires node in h && TreeOk(h, contents, root, node, null) && h[root].hi == TWO_63 && PathOk(h, root, path, at, node)
    requires !node.isLeaf && |h[node].keys| == ORDER + 1
    requires mid == |h[node].keys| / 2 && right !in h && !right.isLeaf && right.level == node.level && right.lo == h[node].keys[mid]
    requires var v := h[node];
      && |v.children| == |v.keys| + 1
      && l == View(v.keys[..mid], v.children[..mid + 1], [], null, v.keys[mid])
      && r == View(v.keys[mid + 1..], v.children[mid + 1..], [], null, v.hi)
    ensures SplitReady(h, contents, root, node, right, h[node].keys[mid], path, at, l, r)
  {
    assert root in h;
    hide TreeOk, NodeOk, PathOk, Halves, ChildrenOk;
    InternalHalves(h, contents, root, node, right, mid, l, r);
  }

  lemma SplitView(h: Nodes, contents: map<int, int64>, root: Node, left: Node, right: Node, up: int, path: seq<Node>, at: seq<nat>,
                  l: View, r: View)
    requires SplitReady(h, contents, root, left, right, up, path, at, l, r)
    ensures HalfwayUp(h[left := l][right := r], contents, root, left, right, up, path, at)
    ensures left in h && right !in h
  {
    hide TreeOk, Halves, ChildrenOk, Pending, IsParent, NodeOk, Shape;
    ParentOfPath(h, root, path, at, left);
    if path != [] { PathLevels(h, root, path, at, left, 0); }
    SplitDone(h, contents, root, Above(path), AboveAt(at), left, right, l, r, up);
    PathStays(h, h[left := l][right := r], root, path, at, left);
  }

  ghost predicate HalfwayUp(h: Nodes, contents: map<int, int64>, root: Node, left: Node, right: Node, up: int, path: seq<Node>, at: seq<nat>) {
    && TreeOk(h, contents, root, null, Above(path))
    && Pending(h, root, Above(path), AboveAt(at), left, right, up)
    && PathOk(h, root, path, at, left)
    && (path != [] ==> root in h && h[root].hi == TWO_63)
  }

  lemma ReadyToTake(h: Nodes, contents: map<int, int64>, root: Node, left: Node, right: Node, up: int, path: seq<Node>, at: seq<nat>)
    requires path != [] && HalfwayUp(h, contents, root, left, right, up, path, at)
    ensures var parent := path[|path| - 1];
      parent in h && Increasing(h[parent].keys) && |h[parent].children| == |h[parent].keys| + 1
  {
  }

  /** The parent has taken the new node in, and may have a key too many. */
  ghost predicate Taken(h: Nodes, contents: map<int, int64>, root: Node, parent: Node, path: seq<Node>, at: seq<nat>) {
    && parent in h && root in h && h[root].hi == TWO_63 && |at| == |path| > 0 && path[|path| - 1] == parent && !parent.isLeaf
    && TreeOk(h, contents, root, parent, null) && |h[parent].keys| <= ORDER + 1
    && PathOk(h, root, path[..|path| - 1], at[..|path| - 1], parent)
  }

  lemma TakenMeans(h: Nodes, contents: map<int, int64>, root: Node, parent: Node, path: seq<Node>, at: seq<nat>)
    requires Taken(h, contents, root, parent, path, at)
    ensures parent in h && root in h && h[root].hi == TWO_63 && |at| == |path| > 0 && path[|path| - 1] == parent && !parent.isLeaf
    ensures TreeOk(h, contents, root, parent, null) && |h[parent].keys| <= ORDER + 1
    ensures PathOk(h, root, path[..|path| - 1], at[..|path| - 1], parent)
  {
  }

  /** One more separator, and the new child right after it. */
  ghost predicate TakenBy(v: View, w: View, i: nat, up: int64, child: Node) {
    && IsInserted(w.keys, v.keys, i, up) && IsInserted(w.children, v.children, i + 1, child)
    && w.values == v.values && w.next == v.next && w.hi == v.hi
  }

  method AddChild(n: Node, i: nat, up: int64, child: Node)
    requires i <= |n.keys| && |n.children| == |n.keys| + 1
    modifies n
    ensures TakenBy(old(n.Now()), n.Now(), i, up, child)
  {
    n.keys := InsertAt(n.keys, i, up);
    n.children := InsertAt(n.children, i + 1, child);
  }

  lemma TakenIn(h: Nodes, contents: map<int, int64>, root: Node, left: Node, right: Node, up: int64, path: seq<Node>, at: seq<nat>,
                i: nat, w: View)
    requires path != [] && HalfwayUp(h, contents, root, left, right, up, path, at)
    requires var parent := path[|path| - 1];
      && parent in h && i <= |h[parent].keys| && IsUpperBound(h[parent].keys, up, i) && TakenBy(h[parent], w, i, up, right)
    ensures var parent := path[|path| - 1]; Taken(h[parent := w], contents, root, parent, path, at)
  {
    var parent := path[|path| - 1];
    assert NodeOk(h, contents, root, null, parent, parent);
    assert PendingUnder(h, parent, h[parent], AboveAt(at), left, right);
    PathAbove(h, root, path, at, left);
    hide TreeOk, NodeOk, PathOk, PendingUnder, Shape, Increasing;
    PlaceOfRight(h, parent, h[parent], AboveAt(at), left, right, up, i);
    ParentTakes(h, contents, root, parent, i, left, right, up, w);
    TakenView(h, contents, root, parent, left, path, at, w);
  }

  lemma TakenView(h: Nodes, contents: map<int, int64>, root: Node, parent: Node, left: Node, path: seq<Node>, at: seq<nat>, w: View)
    requires path != [] && parent == path[|path| - 1] && PathOk(h, root, path, at, left)
    requires parent in h && root in h && h[root].hi == TWO_63 && w.hi == h[parent].hi
    requires TreeOk(h[parent := w], contents, root, parent, null)
    ensures |at| == |path| && PathOk(h[parent := w], root, path[..|path| - 1], at[..|path| - 1], parent)
    ensures h[parent := w][root].hi == TWO_63
  {
    var h' := h[parent := w];
    PathAbove(h, root, path, at, left);
    hide TreeOk;
    PathStays(h, h', root, path[..|path| - 1], at[..|path| - 1], parent);
  }

  lemma ParentOfPath(h: Nodes, root: Node, path: seq<Node>, at: seq<nat>, node: Node)
    requires PathOk(h, root, path, at, node) && node in h && (path == [] ==> h[node].hi == TWO_63)
    ensures IsParent(h, root, Above(path), AboveAt(at), node) && Above(path) != node
  {
    if path != [] {
      var n := |path| - 1;
      assert Leads(h, path[n], at[n], NextOn(path, n, node));
    }
  }

  /** A node with no key too many is none too many. */
  lemma NotOverfull(h: Nodes, contents: map<int, int64>, root: Node, node: Node)
    requires TreeOk(h, contents, root, node, null) && node in h && |h[node].keys| <= ORDER
    ensures TreeOk(h, contents, root, null, null)
  {
    forall n | n in h ensures NodeOk(h, contents, root, null, null, n) { assert NodeOk(h, contents, root, node, null, n); }
  }

  // ---- The tree as a whole ----

  /** However a leaf is reached from the root, it is as deep as the root is high. */
  lemma LeavesAtOneDepth(h: Nodes, contents: map<int, int64>, root: Node, path: seq<Node>, at: seq<nat>, leaf: Node)
    requires TreeOk(h, contents, root, null, null) && PathOk(h, root, path, at, leaf) && leaf in h && leaf.isLeaf
    ensures |path| == root.level
  {
    assert NodeOk(h, contents, root, null, null, leaf);
    if path != [] { PathLevels(h, root, path, at, leaf, 0); }
  }

  /** The keys met by following the next links from a leaf on. */
  ghost function WalkFrom(h: Nodes, contents: map<int, int64>, root: Node, n: Node): seq<int64>
    requires TreeOk(h, contents, root, null, null) && n in h && n.isLeaf
    decreases TWO_63 - n.lo
  {
    assert NodeOk(h, contents, root, null, null, n);
    h[n].keys + (if h[n].next == null then [] else WalkFrom(h, contents, root, h[n].next))
  }

  /** The walk lists every key of the map from the leaf's first on, in increasing order: from the
      first leaf, the whole map. */
  lemma {:induction false} WalkListsAll(h: Nodes, contents: map<int, int64>, root: Node, n: Node)
    requires TreeOk(h, contents, root, null, null) && n in h && n.isLeaf
    ensures var walk := WalkFrom(h, contents, root, n);
      Increasing(walk) && forall k :: HasKey(walk, k) <==> k in contents && n.lo <= k < TWO_63
    decreases TWO_63 - n.lo
  {
    assert NodeOk(h, contents, root, null, null, n);
    var here, next := h[n].keys, h[n].next;
    LeafKeys(contents, n, h[n]);
    if next != null {
      WalkListsAll(h, contents, root, next);
      var rest := WalkFrom(h, contents, root, next);
      hide TreeOk, NodeOk, HoldsEntries, WalkFrom;
      JoinedKeys(here, rest, h[n].hi);
    } else {
      assert here + [] == here;
    }
  }

  lemma LeafKeys(contents: map<int, int64>, n: Node, v: View)
    requires n.isLeaf && Shape(n, v) && HoldsEntries(contents, n, v)
    ensures forall k :: HasKey(v.keys, k) <==> k in contents && n.lo <= k < v.hi
  {
    forall k | HasKey(v.keys, k) ensures k in contents && n.lo <= k < v.hi {
      var i :| 0 <= i < |v.keys| && v.keys[i] == k;
    }
  }

  lemma JoinedKeys(a: seq<int64>, b: seq<int64>, mid: int)
    requires Increasing(a) && Increasing(b)
    requires (forall k :: HasKey(a, k) ==> k < mid) && (forall k :: HasKey(b, k) ==> mid <= k)
    ensures Increasing(a + b) && forall k :: HasKey(a + b, k) <==> HasKey(a, k) || HasKey(b, k)
  {
    forall i | 0 <= i < |a| ensures a[i] < mid { assert HasKey(a, a[i]); }
    forall i | 0 <= i < |b| ensures mid <= b[i] { assert HasKey(b, b[i]); }
    forall k ensures HasKey(a + b, k) <==> HasKey(a, k) || HasKey(b, k) {
      if HasKey(a, k) { var i :| 0 <= i < |a| && a[i] == k; assert (a + b)[i] == k; }
      if HasKey(b, k) { var i :| 0 <= i < |b| && b[i] == k; assert (a + b)[|a| + i] == k; }
      if HasKey(a + b, k) {
        var i :| 0 <= i < |a + b| && (a + b)[i] == k;
        if i < |a| { assert a[i] == k; } else { assert b[i - |a|] == k; }
      }
    }
  }
}
