/** The binary tree of data-structures/binary_tree/src/lib.rs. A Rust
    `Node` owns its data and two optional boxed children; here a child link
    is a `Tree`, `Empty` standing for `None`, and the receiver of every Rust
    method is a `Tree` that is a `Node`. Methods that mutate `self` return
    the new tree instead. The element type is `int`: the source's bound is
    `PartialOrd + Copy`, and the `char` instantiation of its tests is
    modelled by the characters' code points, which is how `char` compares. */
module BinaryTree {
  import opened Wrappers
  import opened Sequences

  datatype Tree = Empty | Node(left: Tree, data: int, right: Tree)

  /** A route from the root: `false` steps to the left child, `true` to the
      right one. */
  type Path = seq<bool>

  function Elems(t: Tree): multiset<int> {
    match t
    case Empty => multiset{}
    case Node(l, d, r) => Elems(l) + multiset{d} + Elems(r)
  }

  function Max(a: int, b: int): int {
    if a < b then b else a
  }

  /** The number of nodes on the longest route down from `t`. */
  function Height(t: Tree): nat {
    match t
    case Empty => 0
    case Node(l, _, r) => 1 + Max(Height(l), Height(r))
  }

  function Child(t: Tree, right: bool): Tree {
    match t
    case Empty => Empty
    case Node(l, _, r) => if right then r else l
  }

  /** The subtree reached by following `p`; `Empty` once the route leaves
      the tree. */
  function Sub(t: Tree, p: Path): Tree
    decreases p
  {
    if p == [] then t else Sub(Child(t, p[0]), p[1..])
  }

  /** The data stored at the end of `p`, if a node is there. */
  function Label(t: Tree, p: Path): Option<int> {
    var s := Sub(t, p);
    if s.Node? then Some(s.data) else None
  }

  lemma {:induction false} SubEmpty(p: Path)
    ensures Sub(Empty, p) == Empty
    decreases p
  {
    if p != [] {
      SubEmpty(p[1..]);
    }
  }

  lemma {:induction false} SubSnoc(t: Tree, p: Path, b: bool)
    ensures Sub(t, p + [b]) == Child(Sub(t, p), b)
    decreases p
  {
    if p != [] {
      assert (p + [b])[1..] == p[1..] + [b];
      SubSnoc(Child(t, p[0]), p[1..], b);
    }
  }

  /** `Node::new`: a single node without children. */
  function New(data: int): (t: Tree)
    ensures t.Node? && Elems(t) == multiset{data}
    ensures forall p :: Label(t, p) == if p == [] then Some(data) else None
  {
    var t := Node(Empty, data, Empty);
    assert forall p | p != [] :: Sub(t, p) == Empty by {
      forall p | p != [] ensures Sub(t, p) == Empty {
        SubEmpty(p[1..]);
      }
    }
    t
  }

  // ---------------------------------------------------------------- find

  /** `find`: the walk a binary search tree lookup makes, left for smaller
      and right for larger, whatever order the tree actually has. */
  function Find(t: Tree, x: int): (r: Option<int>)
    ensures r == None || r == Some(x)
    ensures r.Some? ==> x in Elems(t)
  {
    match t
    case Empty => None
    case Node(l, d, rt) =>
      if x == d then Some(x)
      else if x < d then Find(l, x)
      else Find(rt, x)
  }

  /** The order `find` presumes: everything left of a node is smaller and
      everything right of it larger. */
  predicate IsSearchTree(t: Tree) {
    match t
    case Empty => true
    case Node(l, d, r) =>
      IsSearchTree(l) && IsSearchTree(r) && Around(Elems(l), d, Elems(r))
  }

  /** Every element of `a` is smaller than `d`, every element of `b` larger. */
  predicate Around(a: multiset<int>, d: int, b: multiset<int>) {
    (forall y | y in a :: y < d) && (forall y | y in b :: d < y)
  }

  /** On a search tree `find` is also complete. */
  lemma {:induction false} FindSearchTree(t: Tree, x: int)
    requires IsSearchTree(t)
    ensures Find(t, x).Some? <==> x in Elems(t)
  {
    match t
    case Empty =>
    case Node(l, d, r) =>
      FindSearchTree(l, x);
      FindSearchTree(r, x);
  }

  // -------------------------------------------------------------- insert

  /** `p` names a free child position: every node along it exists but
      nothing is at its end. */
  predicate Open(t: Tree, p: Path)
    decreases p
  {
    if p == [] then t.Empty? else t.Node? && Open(Child(t, p[0]), p[1..])
  }

  /** The free positions are the missing children of existing nodes. */
  lemma {:induction false} OpenSnoc(t: Tree, p: Path, b: bool)
    requires Sub(t, p).Node? && Child(Sub(t, p), b).Empty?
    ensures Open(t, p + [b])
    decreases p
  {
    if p == [] {
      assert ([b])[1..] == [];
    } else {
      if t.Empty? {
        SubEmpty(p);
        assert false;
      }
      assert (p + [b])[1..] == p[1..] + [b];
      OpenSnoc(Child(t, p[0]), p[1..], b);
    }
  }

  /** The tree with a new leaf holding `x` at the free position `p`. */
  function Graft(t: Tree, p: Path, x: int): (r: Tree)
    requires Open(t, p)
    ensures r.Node? && Elems(r) == Elems(t) + multiset{x}
    decreases p
  {
    if p == [] then Node(Empty, x, Empty)
    else
      var c := Graft(Child(t, p[0]), p[1..], x);
      AddOne(Elems(t.left), multiset{t.data}, Elems(t.right), multiset{x});
      if p[0] then Node(t.left, t.data, c) else Node(c, t.data, t.right)
  }

  /** Adding to either end of a three-part union adds to the whole. */
  lemma AddOne(a: multiset<int>, b: multiset<int>, c: multiset<int>, x: multiset<int>)
    ensures a + b + (c + x) == a + b + c + x
    ensures (a + x) + b + c == a + b + c + x
  {
  }

  lemma SameHead(q: Path, p: Path)
    requires q != [] && p != [] && q[0] == p[0]
    ensures q == p <==> q[1..] == p[1..]
  {
    if q[1..] == p[1..] {
      assert q == [q[0]] + q[1..];
      assert p == [p[0]] + p[1..];
    }
  }

  /** Grafting fills `p` and changes no other position. */
  lemma {:induction false} GraftLabel(t: Tree, p: Path, x: int, q: Path)
    requires Open(t, p)
    ensures Label(Graft(t, p, x), q) == if q == p then Some(x) else Label(t, q)
    decreases p
  {
    var g := Graft(t, p, x);
    if p == [] {
      if q != [] {
        SubEmpty(q[1..]);
        SubEmpty(q);
        assert Sub(g, q) == Sub(Empty, q[1..]);
      }
    } else if q == [] {
      assert Label(g, q) == Some(t.data);
    } else {
      assert Label(g, q) == Label(Child(g, q[0]), q[1..]);
      assert Label(t, q) == Label(Child(t, q[0]), q[1..]);
      if q[0] == p[0] {
        assert Child(g, q[0]) == Graft(Child(t, p[0]), p[1..], x);
        GraftLabel(Child(t, p[0]), p[1..], x, q[1..]);
        SameHead(q, p);
      } else {
        assert Child(g, q[0]) == Child(t, q[0]);
      }
    }
  }

  function Trees(queue: seq<(Path, Tree)>): seq<Tree> {
    seq(|queue|, k requires 0 <= k < |queue| => queue[k].1)
  }

  /** All the data held by the trees of a queue. */
  function Pool(queue: seq<Tree>): multiset<int> {
    if queue == [] then multiset{} else Elems(queue[0]) + Pool(queue[1..])
  }

  lemma {:induction false} PoolAppend(a: seq<Tree>, b: seq<Tree>)
    ensures Pool(a + b) == Pool(a) + Pool(b)
    decreases |a|
  {
    if a == [] {
      assert a + b == b;
    } else {
      assert (a + b)[1..] == a[1..] + b;
      PoolAppend(a[1..], b);
    }
  }

  /** Every queued entry is a node of `t` together with its route. */
  predicate Queued(t: Tree, queue: seq<(Path, Tree)>) {
    forall k | 0 <= k < |queue| :: queue[k].1.Node? && Sub(t, queue[k].0) == queue[k].1
  }

  lemma PoolSingle(n: Tree)
    ensures Pool([n]) == Elems(n)
  {
    assert [n][1..] == [];
  }

  /** The queue after a full node is taken and its children queued. */
  function Advance(queue: seq<(Path, Tree)>): seq<(Path, Tree)>
    requires queue != [] && queue[0].1.Node?
  {
    var (p, n) := queue[0];
    queue[1..] + [(p + [false], n.left), (p + [true], n.right)]
  }

  lemma AdvanceQueued(t: Tree, queue: seq<(Path, Tree)>)
    requires Queued(t, queue) && queue != []
    requires queue[0].1.left.Node? && queue[0].1.right.Node?
    ensures Queued(t, Advance(queue))
    ensures |Pool(Trees(Advance(queue)))| < |Pool(Trees(queue))|
  {
    var (p, n) := queue[0];
    var next := Advance(queue);
    forall k | 0 <= k < |next|
      ensures next[k].1.Node? && Sub(t, next[k].0) == next[k].1
    {
      if k < |queue| - 1 {
        assert next[k] == queue[k + 1];
      } else if k == |queue| - 1 {
        SubSnoc(t, p, false);
      } else {
        SubSnoc(t, p, true);
      }
    }
    var rest := Trees(queue)[1..];
    assert Trees(next) == rest + [n.left] + [n.right];
    assert Trees(queue) == [n] + rest;
    PoolAppend([n], rest);
    PoolAppend(rest + [n.left], [n.right]);
    PoolAppend(rest, [n.left]);
    PoolSingle(n);
    PoolSingle(n.left);
    PoolSingle(n.right);
  }

  /** The breadth-first search of `insert`: take the oldest queued node;
      a missing left child is the place, else a missing right child is;
      else queue both children (left first) and go on. The result is the
      route of the place found. */
  function Slot(t: Tree, queue: seq<(Path, Tree)>): (r: Option<Path>)
    requires Queued(t, queue)
    ensures queue != [] ==> r.Some? && r.value != [] && Open(t, r.value)
    decreases |Pool(Trees(queue))|
  {
    if queue == [] then None
    else
      var (p, n) := queue[0];
      if n.left.Empty? then
        OpenSnoc(t, p, false);
        Some(p + [false])
      else if n.right.Empty? then
        OpenSnoc(t, p, true);
        Some(p + [true])
      else
        AdvanceQueued(t, queue);
        Slot(t, Advance(queue))
  }

  /** `insert`: nothing happens when `find` reports the value; otherwise a
      leaf holding it is put at the first free child position in
      breadth-first order. */
  function Insert(t: Tree, x: int): (r: Tree)
    requires t.Node?
    ensures r.Node?
    ensures Find(t, x).Some? ==> r == t
    ensures Find(t, x).None? ==> Elems(r) == Elems(t) + multiset{x}
  {
    if Find(t, x).Some? then t
    else Graft(t, Slot(t, [([], t)]).value, x)
  }

  /** An insert that goes ahead adds exactly one node, at a free position,
      and leaves every other position as it was. */
  lemma InsertAddsLeaf(t: Tree, x: int)
    requires t.Node? && Find(t, x).None?
    ensures exists p :: p != [] && Open(t, p) &&
               forall q :: Label(Insert(t, x), q) == if q == p then Some(x) else Label(t, q)
  {
    var p := Slot(t, [([], t)]).value;
    forall q ensures Label(Insert(t, x), q) == if q == p then Some(x) else Label(t, q) {
      GraftLabel(t, p, x, q);
    }
  }

  /** `insert` of each value of `xs` in turn: every value ends up in the
      tree, nothing is lost, and nothing beyond one copy of each value is
      added. */
  function Fold(t: Tree, xs: seq<int>): (r: Tree)
    requires t.Node?
    ensures r.Node?
    ensures Elems(t) <= Elems(r)
    ensures Elems(r) <= Elems(t) + multiset(xs)
    ensures forall x | x in xs :: x in Elems(r)
    decreases |xs|
  {
    if xs == [] then t
    else
      var u := Insert(t, xs[0]);
      var r := Fold(u, xs[1..]);
      InsertBounds(t, xs[0]);
      ChainBounds(Elems(t), Elems(u), Elems(r), xs);
      r
  }

  lemma InsertBounds(t: Tree, x: int)
    requires t.Node?
    ensures Elems(t) <= Elems(Insert(t, x)) && Elems(Insert(t, x)) <= Elems(t) + multiset{x}
    ensures x in Elems(Insert(t, x))
  {
  }

  lemma ChainBounds(a: multiset<int>, b: multiset<int>, c: multiset<int>, xs: seq<int>)
    requires xs != []
    requires a <= b && b <= a + multiset{xs[0]} && xs[0] in b
    requires b <= c && c <= b + multiset(xs[1..]) && forall x | x in xs[1..] :: x in c
    ensures a <= c && c <= a + multiset(xs) && forall x | x in xs :: x in c
  {
    assert xs == [xs[0]] + xs[1..];
  }

  /** The `node!` macro: a tree from its first value, then `insert` of each
      of the others in turn. It holds every given value and at most as
      many copies of each as were given. */
  function Build(xs: seq<int>): (r: Tree)
    requires xs != []
    ensures r.Node?
    ensures Elems(r) <= multiset(xs)
    ensures forall x | x in xs :: x in Elems(r)
  {
    assert xs == [xs[0]] + xs[1..];
    Fold(New(xs[0]), xs[1..])
  }

  lemma {:induction false} FoldSnoc(t: Tree, xs: seq<int>, x: int)
    requires t.Node?
    ensures Fold(t, xs + [x]) == Insert(Fold(t, xs), x)
    decreases |xs|
  {
    if xs == [] {
      assert Fold(Insert(t, x), []) == Insert(t, x);
    } else {
      assert (xs + [x])[1..] == xs[1..] + [x];
      FoldSnoc(Insert(t, xs[0]), xs[1..], x);
    }
  }

  lemma BuildSnoc(xs: seq<int>, x: int)
    requires xs != []
    ensures Build(xs + [x]) == Insert(Build(xs), x)
  {
    assert (xs + [x])[1..] == xs[1..] + [x];
    FoldSnoc(New(xs[0]), xs[1..], x);
  }

  // ------------------------------------------------------ complete trees

  /** The route to the node at level-order position `i` of a complete
      tree, where position `k` has its children at `2k+1` and `2k+2`. */
  function IndexPath(i: nat): Path
    decreases i
  {
    if i == 0 then [] else IndexPath((i - 1) / 2) + [i % 2 == 0]
  }

  lemma {:induction false} IndexPathInjective(i: nat, j: nat)
    requires IndexPath(i) == IndexPath(j)
    ensures i == j
    decreases i
  {
    if i != 0 && j != 0 {
      var a, b := IndexPath(i), IndexPath(j);
      assert a[..|a| - 1] == IndexPath((i - 1) / 2);
      assert b[..|b| - 1] == IndexPath((j - 1) / 2);
      IndexPathInjective((i - 1) / 2, (j - 1) / 2);
      assert a[|a| - 1] == b[|b| - 1];
    }
  }

  /** The subtree at level-order position `i`. */
  function At(t: Tree, i: nat): Tree {
    Sub(t, IndexPath(i))
  }

  lemma ChildPaths(k: nat)
    ensures IndexPath(2 * k + 1) == IndexPath(k) + [false]
    ensures IndexPath(2 * k + 2) == IndexPath(k) + [true]
  {
    assert (2 * k + 1 - 1) / 2 == k && (2 * k + 2 - 1) / 2 == k;
  }

  lemma AtChildren(t: Tree, k: nat)
    ensures IndexPath(2 * k + 1) == IndexPath(k) + [false]
    ensures IndexPath(2 * k + 2) == IndexPath(k) + [true]
    ensures At(t, 2 * k + 1) == Child(At(t, k), false)
    ensures At(t, 2 * k + 2) == Child(At(t, k), true)
  {
    ChildPaths(k);
    SubSnoc(t, IndexPath(k), false);
    SubSnoc(t, IndexPath(k), true);
  }

  /** `t` has nodes at exactly the level-order positions below `n`. */
  ghost predicate Complete(t: Tree, n: nat) {
    forall i: nat :: At(t, i).Node? <==> i < n
  }

  /** `s` lists the data at positions `k`, `k+1`, ... of `t`. */
  predicate ListsFrom(t: Tree, k: nat, s: seq<int>) {
    forall j | 0 <= j < |s| :: Label(t, IndexPath(k + j)) == Some(s[j])
  }

  /** The array layout of a complete tree: `xs[i]` sits at level-order
      position `i`. */
  function Heap(xs: seq<int>, i: nat): Tree
    decreases |xs| - i
  {
    if i >= |xs| then Empty else Node(Heap(xs, 2 * i + 1), xs[i], Heap(xs, 2 * i + 2))
  }

  lemma {:induction false} HeapAt(xs: seq<int>, i: nat)
    ensures At(Heap(xs, 0), i) == Heap(xs, i)
    decreases i
  {
    if i != 0 {
      var k := (i - 1) / 2;
      HeapAt(xs, k);
      AtChildren(Heap(xs, 0), k);
    }
  }

  lemma HeapLayout(xs: seq<int>)
    ensures Complete(Heap(xs, 0), |xs|)
    ensures ListsFrom(Heap(xs, 0), 0, xs)
  {
    forall i: nat
      ensures At(Heap(xs, 0), i).Node? <==> i < |xs|
      ensures i < |xs| ==> Label(Heap(xs, 0), IndexPath(i)) == Some(xs[i])
    {
      HeapAt(xs, i);
      assert Label(Heap(xs, 0), IndexPath(i)) == if Heap(xs, i).Node? then Some(Heap(xs, i).data) else None;
    }
  }

  /** Two complete trees of the same size with the same data at every
      position are the same tree. */
  lemma {:induction false} SameLayout(t: Tree, u: Tree, n: nat, k: nat)
    requires Complete(t, n) && Complete(u, n)
    requires exists s :: |s| == n && ListsFrom(t, 0, s) && ListsFrom(u, 0, s)
    ensures At(t, k) == At(u, k)
    decreases n - k
  {
    if k < n {
      AtChildren(t, k);
      AtChildren(u, k);
      SameLayout(t, u, n, 2 * k + 1);
      SameLayout(t, u, n, 2 * k + 2);
      var s :| |s| == n && ListsFrom(t, 0, s) && ListsFrom(u, 0, s);
      assert Label(t, IndexPath(0 + k)) == Some(s[k]);
      assert Label(u, IndexPath(0 + k)) == Some(s[k]);
    } else {
      assert !At(t, k).Node? && !At(u, k).Node?;
    }
  }

  /** The queue entries of the search of `insert` for positions `lo..hi`. */
  function Entries(t: Tree, lo: nat, hi: int): seq<(Path, Tree)> {
    seq(if lo <= hi then hi - lo + 1 else 0, j requires 0 <= j => (IndexPath(lo + j), At(t, lo + j)))
  }

  /** On a complete tree with `n` nodes the search of `insert`, having
      taken positions `0..k-1`, finds position `n`. */
  lemma {:induction false} SlotComplete(t: Tree, n: nat, k: nat)
    requires Complete(t, n) && 2 * k < n
    ensures Queued(t, Entries(t, k, 2 * k))
    ensures Slot(t, Entries(t, k, 2 * k)) == Some(IndexPath(n))
    decreases n - k
  {
    EntriesQueued(t, n, k);
    CompleteAround(t, n, k);
    if 2 * k + 2 < n {
      EntriesAdvance(t, k);
      SlotComplete(t, n, k + 1);
    } else {
      assert !At(t, n).Node?;
      EntriesStop(t, n, k);
    }
  }

  lemma EntriesQueued(t: Tree, n: nat, k: nat)
    requires Complete(t, n) && 2 * k < n
    ensures Queued(t, Entries(t, k, 2 * k))
  {
    var q := Entries(t, k, 2 * k);
    forall j | 0 <= j < |q| ensures q[j].1.Node? && Sub(t, q[j].0) == q[j].1 {
      assert k + j < n;
    }
  }

  /** The head of the queue has both children: they join its end. */
  lemma EntriesAdvance(t: Tree, k: nat)
    requires At(t, k).Node? && At(t, 2 * k + 1).Node? && At(t, 2 * k + 2).Node?
    ensures Entries(t, k, 2 * k)[0].1.left.Node? && Entries(t, k, 2 * k)[0].1.right.Node?
    ensures Advance(Entries(t, k, 2 * k)) == Entries(t, k + 1, 2 * k + 2)
  {
    var q := Entries(t, k, 2 * k);
    AtChildren(t, k);
    assert q[0] == (IndexPath(k), At(t, k));
    EntriesTail(t, k, 2 * k);
    EntriesSnoc(t, k + 1, 2 * k);
  }

  lemma EntriesTail(t: Tree, lo: nat, hi: int)
    requires lo <= hi
    ensures Entries(t, lo, hi)[1..] == Entries(t, lo + 1, hi)
  {
    var a, b := Entries(t, lo, hi)[1..], Entries(t, lo + 1, hi);
    forall j | 0 <= j < |b| ensures a[j] == b[j] {
      assert a[j] == Entries(t, lo, hi)[j + 1];
    }
  }

  /** Two more positions at the end of the queue. */
  lemma EntriesSnoc(t: Tree, lo: nat, hi: nat)
    requires lo <= hi + 1
    ensures Entries(t, lo, hi) + [(IndexPath(hi + 1), At(t, hi + 1)), (IndexPath(hi + 2), At(t, hi + 2))]
            == Entries(t, lo, hi + 2)
  {
    var a := Entries(t, lo, hi) + [(IndexPath(hi + 1), At(t, hi + 1)), (IndexPath(hi + 2), At(t, hi + 2))];
    var b := Entries(t, lo, hi + 2);
    var m := hi + 1 - lo;
    assert |a| == |b| == m + 2;
    forall j | 0 <= j < m ensures a[j] == b[j] {
      assert a[j] == Entries(t, lo, hi)[j];
    }
    assert b[m] == (IndexPath(hi + 1), At(t, hi + 1));
    assert b[m + 1] == (IndexPath(hi + 2), At(t, hi + 2));
  }

  /** The head of the queue lacks a child: that child's place is `n`. */
  lemma EntriesStop(t: Tree, n: nat, k: nat)
    requires Queued(t, Entries(t, k, 2 * k))
    requires 2 * k < n <= 2 * k + 2 && At(t, k).Node? && !At(t, n).Node?
    requires n == 2 * k + 2 ==> At(t, 2 * k + 1).Node?
    ensures Slot(t, Entries(t, k, 2 * k)) == Some(IndexPath(n))
  {
    var q := Entries(t, k, 2 * k);
    AtChildren(t, k);
    assert q[0] == (IndexPath(k), At(t, k));
    if n == 2 * k + 2 {
      assert At(t, 2 * k + 1).Node?;
    }
  }

  /** On a complete tree with `n` nodes, `insert` of a value that `find`
      misses fills position `n`, whether or not the value is already
      elsewhere in the tree. */
  lemma InsertPlace(t: Tree, n: nat, x: int)
    requires t.Node? && Complete(t, n) && Find(t, x).None?
    ensures Open(t, IndexPath(n))
    ensures Insert(t, x) == Graft(t, IndexPath(n), x)
  {
    assert At(t, 0) == t;
    assert Entries(t, 0, 0) == [([], t)];
    SlotComplete(t, n, 0);
  }

  /** ... and changes nothing else, so the tree stays complete. */
  lemma InsertComplete(t: Tree, n: nat, x: int)
    requires t.Node? && Complete(t, n) && Find(t, x).None?
    ensures Complete(Insert(t, x), n + 1)
    ensures forall i: nat :: Label(Insert(t, x), IndexPath(i)) == if i == n then Some(x) else Label(t, IndexPath(i))
  {
    InsertPlace(t, n, x);
    var r := Insert(t, x);
    forall i: nat
      ensures Label(r, IndexPath(i)) == if i == n then Some(x) else Label(t, IndexPath(i))
      ensures At(r, i).Node? <==> i < n + 1
    {
      GraftLabel(t, IndexPath(n), x, IndexPath(i));
      if IndexPath(i) == IndexPath(n) {
        IndexPathInjective(i, n);
      }
      assert Label(t, IndexPath(i)).Some? <==> At(t, i).Node?;
      assert Label(r, IndexPath(i)).Some? <==> At(r, i).Node?;
    }
  }

  /** `node!` of distinct values is complete and holds them in level order. */
  lemma {:induction false} BuildLevels(xs: seq<int>)
    requires xs != [] && Distinct(xs)
    ensures Elems(Build(xs)) == multiset(xs)
    ensures Complete(Build(xs), |xs|)
    ensures ListsFrom(Build(xs), 0, xs)
    decreases |xs|
  {
    if |xs| == 1 {
      BuildOne(xs[0]);
      assert xs == [xs[0]];
    } else {
      var ys, x := xs[..|xs| - 1], xs[|xs| - 1];
      assert xs == ys + [x];
      assert Distinct(ys);
      BuildLevels(ys);
      BuildStep(ys, x);
    }
  }

  lemma BuildOne(x: int)
    ensures Elems(Build([x])) == multiset{x}
    ensures Complete(Build([x]), 1)
    ensures ListsFrom(Build([x]), 0, [x])
  {
    var t := Build([x]);
    assert t == New(x);
    forall i: nat ensures At(t, i).Node? <==> i < 1 {
      assert Label(t, IndexPath(i)).Some? <==> At(t, i).Node?;
    }
    assert Label(t, IndexPath(0)) == Some(x);
  }

  lemma BuildStep(ys: seq<int>, x: int)
    requires ys != [] && x !in ys
    requires Elems(Build(ys)) == multiset(ys)
    requires Complete(Build(ys), |ys|) && ListsFrom(Build(ys), 0, ys)
    ensures Elems(Build(ys + [x])) == multiset(ys + [x])
    ensures Complete(Build(ys + [x]), |ys| + 1)
    ensures ListsFrom(Build(ys + [x]), 0, ys + [x])
  {
    var t := Build(ys);
    BuildSnoc(ys, x);
    assert x !in multiset(ys);
    assert Find(t, x).None?;
    InsertComplete(t, |ys|, x);
    var r := Insert(t, x);
    forall j | 0 <= j < |ys| + 1 ensures Label(r, IndexPath(j)) == Some((ys + [x])[j]) {
      if j < |ys| {
        assert Label(t, IndexPath(0 + j)) == Some(ys[j]);
      }
    }
  }

  /** `node!` of distinct values is their array layout. */
  lemma BuildIsHeap(xs: seq<int>)
    requires xs != [] && Distinct(xs)
    ensures Build(xs) == Heap(xs, 0)
  {
    BuildLevels(xs);
    HeapLayout(xs);
    SameLayout(Build(xs), Heap(xs, 0), |xs|, 0);
  }

  // ---------------------------------------------------------- traversals

  /** `inorder`: left subtree, node, right subtree. */
  function Inorder(t: Tree): (r: seq<int>)
    ensures multiset(r) == Elems(t)
  {
    match t
    case Empty => []
    case Node(l, d, rt) => Inorder(l) + [d] + Inorder(rt)
  }

  predicate Increasing(s: seq<int>) {
    forall i, j | 0 <= i < j < |s| :: s[i] < s[j]
  }

  lemma IncreasingSplit(a: seq<int>, d: int, b: seq<int>)
    requires Increasing(a + [d] + b)
    ensures Increasing(a) && Increasing(b) && Around(multiset(a), d, multiset(b))
  {
    var s := a + [d] + b;
    forall i, j | 0 <= i < j < |a| ensures a[i] < a[j] {
      assert s[i] == a[i] && s[j] == a[j];
    }
    forall i, j | 0 <= i < j < |b| ensures b[i] < b[j] {
      assert s[|a| + 1 + i] == b[i] && s[|a| + 1 + j] == b[j];
    }
    forall y | y in multiset(a) ensures y < d {
      assert y in a;
      var i :| 0 <= i < |a| && a[i] == y;
      assert s[i] == y && s[|a|] == d;
    }
    forall y | y in multiset(b) ensures d < y {
      assert y in b;
      var i :| 0 <= i < |b| && b[i] == y;
      assert s[|a| + 1 + i] == y && s[|a|] == d;
    }
  }

  lemma IncreasingJoin(a: seq<int>, d: int, b: seq<int>)
    requires Increasing(a) && Increasing(b) && Around(multiset(a), d, multiset(b))
    ensures Increasing(a + [d] + b)
  {
    var s := a + [d] + b;
    forall i, j | 0 <= i < j < |s| ensures s[i] < s[j] {
      if j < |a| {
        assert s[i] == a[i] && s[j] == a[j];
      } else if i < |a| {
        assert s[i] == a[i] && a[i] in multiset(a);
        if j > |a| {
          assert s[j] == b[j - |a| - 1] && b[j - |a| - 1] in multiset(b);
        }
      } else if i == |a| {
        assert s[j] == b[j - |a| - 1] && b[j - |a| - 1] in multiset(b);
      } else {
        assert s[i] == b[i - |a| - 1] && s[j] == b[j - |a| - 1];
      }
    }
  }

  /** A tree is a search tree exactly when its in-order listing is
      strictly increasing. */
  lemma {:induction false} InorderSearchTree(t: Tree)
    ensures IsSearchTree(t) <==> Increasing(Inorder(t))
  {
    match t
    case Empty =>
    case Node(l, d, r) =>
      InorderSearchTree(l);
      InorderSearchTree(r);
      var a, b := Inorder(l), Inorder(r);
      assert Inorder(t) == a + [d] + b;
      assert multiset(a) == Elems(l) && multiset(b) == Elems(r);
      if Increasing(a + [d] + b) {
        IncreasingSplit(a, d, b);
      }
      if IsSearchTree(t) {
        IncreasingJoin(a, d, b);
      }
  }

  /** `preorder`: node, left subtree, right subtree. */
  function Preorder(t: Tree): (r: seq<int>)
    ensures multiset(r) == Elems(t)
    ensures t.Node? ==> r != [] && r[0] == t.data
  {
    match t
    case Empty => []
    case Node(l, d, rt) =>
      var r := [d] + Preorder(l) + Preorder(rt);
      assert multiset(r) == multiset{d} + multiset(Preorder(l)) + multiset(Preorder(rt));
      r
  }

  /** `postorder`: left subtree, right subtree, node. */
  function Postorder(t: Tree): (r: seq<int>)
    ensures multiset(r) == Elems(t)
    ensures t.Node? ==> r != [] && r[|r| - 1] == t.data
  {
    match t
    case Empty => []
    case Node(l, d, rt) =>
      var r := Postorder(l) + Postorder(rt) + [d];
      assert multiset(r) == multiset(Postorder(l)) + multiset(Postorder(rt)) + multiset{d};
      r
  }

  /** The children of a node that exist, left first. */
  function Kids(n: Tree): seq<Tree>
    requires n.Node?
  {
    (if n.left.Node? then [n.left] else []) + (if n.right.Node? then [n.right] else [])
  }

  lemma KidsPool(n: Tree)
    requires n.Node?
    ensures Pool(Kids(n)) == Elems(n.left) + Elems(n.right)
  {
    PoolSingle(n.left);
    PoolSingle(n.right);
    PoolAppend([n.left], [n.right]);
    if n.left.Empty? {
      assert Kids(n) == if n.right.Node? then [n.right] else [];
    } else if n.right.Empty? {
      assert Kids(n) == [n.left];
    }
  }

  /** The loop of `levelorder`: emit the oldest queued node, queue its
      children. Only nodes are ever queued; an `Empty` entry would be
      skipped. */
  function LevelFrom(queue: seq<Tree>): (r: seq<int>)
    ensures multiset(r) == Pool(queue)
    decreases |Pool(queue)|, |queue|
  {
    if queue == [] then []
    else
      var n := queue[0];
      assert queue == [n] + queue[1..];
      PoolAppend([n], queue[1..]);
      if n.Empty? then LevelFrom(queue[1..])
      else
        PoolAppend(queue[1..], Kids(n));
        KidsPool(n);
        [n.data] + LevelFrom(queue[1..] + Kids(n))
  }

  /** `levelorder`: breadth-first, each level left to right. */
  function LevelOrder(t: Tree): (r: seq<int>)
    requires t.Node?
    ensures multiset(r) == Elems(t)
    ensures r != [] && r[0] == t.data
  {
    assert Pool([t]) == Elems(t);
    LevelFrom([t])
  }

  /** The trees at level-order positions `lo..hi`. */
  function Window(t: Tree, lo: nat, hi: int): seq<Tree> {
    seq(if lo <= hi then hi - lo + 1 else 0, j requires 0 <= j => At(t, lo + j))
  }

  /** The queue of `levelorder` after positions `0..k-1` of a complete tree
      with `n` nodes have been emitted: it holds the positions from `k` up
      to the last child of those. */
  function Frontier(t: Tree, n: nat, k: nat): seq<Tree> {
    Window(t, k, if 2 * k < n then 2 * k else n - 1)
  }

  /** What a complete tree says about position `k` and its children. */
  lemma CompleteAround(t: Tree, n: nat, k: nat)
    requires Complete(t, n) && k < n
    ensures At(t, k).Node?
    ensures At(t, 2 * k + 1).Node? <==> 2 * k + 1 < n
    ensures At(t, 2 * k + 2).Node? <==> 2 * k + 2 < n
  {
  }

  lemma FrontierStep(t: Tree, n: nat, k: nat)
    requires k < n && At(t, k).Node?
    requires At(t, 2 * k + 1).Node? <==> 2 * k + 1 < n
    requires At(t, 2 * k + 2).Node? <==> 2 * k + 2 < n
    ensures Frontier(t, n, k) != [] && Frontier(t, n, k)[0] == At(t, k) && At(t, k).Node?
    ensures Frontier(t, n, k)[1..] + Kids(At(t, k)) == Frontier(t, n, k + 1)
  {
    var hi := if 2 * k < n then 2 * k else n - 1;
    var mid := if 2 * k + 1 < n then 2 * k + 1 else n;
    var hi' := if 2 * k + 2 < n then 2 * k + 2 else n - 1;
    assert Frontier(t, n, k)[0] == At(t, k + 0);
    WindowTail(t, k, hi);
    KidsWindow(t, n, k);
    WindowSplit(t, k + 1, mid, hi');
  }

  lemma WindowTail(t: Tree, lo: nat, hi: int)
    requires lo <= hi
    ensures Window(t, lo, hi)[1..] == Window(t, lo + 1, hi)
  {
    var w, w' := Window(t, lo, hi)[1..], Window(t, lo + 1, hi);
    forall j | 0 <= j < |w'| ensures w[j] == w'[j] {
      assert w[j] == At(t, lo + (j + 1));
    }
  }

  lemma WindowSplit(t: Tree, lo: nat, mid: nat, hi: int)
    requires lo <= mid <= hi + 1
    ensures Window(t, lo, mid - 1) + Window(t, mid, hi) == Window(t, lo, hi)
  {
    var a, b, w := Window(t, lo, mid - 1), Window(t, mid, hi), Window(t, lo, hi);
    forall j | 0 <= j < |w| ensures (a + b)[j] == w[j] {
      if j >= |a| {
        assert (a + b)[j] == b[j - |a|] == At(t, mid + (j - |a|));
      }
    }
  }

  /** The children of position `k` of a complete tree with `n` nodes are
      the positions from `2k+1` up to `2k+2` that are below `n`. */
  lemma KidsWindow(t: Tree, n: nat, k: nat)
    requires At(t, k).Node?
    requires At(t, 2 * k + 1).Node? <==> 2 * k + 1 < n
    requires At(t, 2 * k + 2).Node? <==> 2 * k + 2 < n
    requires 2 * k + 2 < n ==> 2 * k + 1 < n
    ensures Kids(At(t, k)) ==
      Window(t, if 2 * k + 1 < n then 2 * k + 1 else n, if 2 * k + 2 < n then 2 * k + 2 else n - 1)
  {
    AtChildren(t, k);
    if 2 * k + 1 < n {
      assert Window(t, 2 * k + 1, 2 * k + 1)[0] == At(t, 2 * k + 1 + 0);
      if 2 * k + 2 < n {
        assert Window(t, 2 * k + 1, 2 * k + 2)[1] == At(t, 2 * k + 1 + 1);
      }
    }
  }

  lemma ListsUnique(t: Tree, k: nat, s: seq<int>, s': seq<int>)
    requires ListsFrom(t, k, s) && ListsFrom(t, k, s') && |s| == |s'|
    ensures s == s'
  {
    forall j | 0 <= j < |s| ensures s[j] == s'[j] {
      assert Label(t, IndexPath(k + j)) == Some(s[j]);
    }
  }

  lemma LabelsCons(t: Tree, k: nat, d: int, rest: seq<int>)
    requires Label(t, IndexPath(k)) == Some(d) && ListsFrom(t, k + 1, rest)
    ensures ListsFrom(t, k, [d] + rest)
  {
    forall j | 0 < j < |rest| + 1 ensures Label(t, IndexPath(k + j)) == Some(([d] + rest)[j]) {
      assert Label(t, IndexPath(k + 1 + (j - 1))) == Some(rest[j - 1]);
    }
  }

  /** On a complete tree with `n` nodes, the rest of `levelorder` from
      position `k` lists positions `k..n-1` in order. */
  lemma {:induction false} LevelComplete(t: Tree, n: nat, k: nat)
    requires Complete(t, n) && k <= n
    ensures |LevelFrom(Frontier(t, n, k))| == n - k
    ensures ListsFrom(t, k, LevelFrom(Frontier(t, n, k)))
    decreases n - k
  {
    if k < n {
      CompleteAround(t, n, k);
      LevelComplete(t, n, k + 1);
      LevelStep(t, n, k);
    } else {
      assert Frontier(t, n, k) == [];
    }
  }

  /** One step of `LevelComplete`: emitting position `k` puts its label in
      front of the rest. */
  lemma LevelStep(t: Tree, n: nat, k: nat)
    requires k < n && At(t, k).Node?
    requires At(t, 2 * k + 1).Node? <==> 2 * k + 1 < n
    requires At(t, 2 * k + 2).Node? <==> 2 * k + 2 < n
    requires |LevelFrom(Frontier(t, n, k + 1))| == n - (k + 1)
    requires ListsFrom(t, k + 1, LevelFrom(Frontier(t, n, k + 1)))
    ensures |LevelFrom(Frontier(t, n, k))| == n - k
    ensures ListsFrom(t, k, LevelFrom(Frontier(t, n, k)))
  {
    FrontierStep(t, n, k);
    var q := Frontier(t, n, k);
    var rest := LevelFrom(Frontier(t, n, k + 1));
    assert LevelFrom(q) == [At(t, k).data] + rest;
    assert Label(t, IndexPath(k)) == Some(At(t, k).data);
    LabelsCons(t, k, At(t, k).data, rest);
  }

  /** `levelorder` of a complete tree lists its positions in order. */
  lemma LevelOrderComplete(t: Tree, n: nat)
    requires t.Node? && Complete(t, n)
    ensures |LevelOrder(t)| == n
    ensures ListsFrom(t, 0, LevelOrder(t))
  {
    assert At(t, 0) == t;
    assert Frontier(t, n, 0) == [t];
    LevelComplete(t, n, 0);
  }

  /** `node!` followed by `levelorder` gives back distinct values in the
      order they were given. */
  lemma LevelOrderBuild(xs: seq<int>)
    requires xs != [] && Distinct(xs)
    ensures LevelOrder(Build(xs)) == xs
  {
    BuildLevels(xs);
    LevelOrderComplete(Build(xs), |xs|);
    ListsUnique(Build(xs), 0, LevelOrder(Build(xs)), xs);
  }

  // --------------------------------------------------------------- depth

  /** `depth`, by the source's four cases on which children exist. */
  function Depth(t: Tree): (r: int)
    requires t.Node?
    ensures r >= 1
  {
    match (t.left, t.right)
    case (Empty, Empty) => 1
    case (Node(_, _, _), Empty) => 1 + Depth(t.left)
    case (Empty, Node(_, _, _)) => 1 + Depth(t.right)
    case (Node(_, _, _), Node(_, _, _)) => 1 + Max(Depth(t.left), Depth(t.right))
  }

  lemma {:induction false} DepthIsHeight(t: Tree)
    requires t.Node?
    ensures Depth(t) == Height(t)
  {
    if t.left.Node? {
      DepthIsHeight(t.left);
    }
    if t.right.Node? {
      DepthIsHeight(t.right);
    }
  }

  /** No node lies deeper than the height. */
  lemma {:induction false} BelowHeight(t: Tree, p: Path)
    requires Sub(t, p).Node?
    ensures |p| < Height(t)
    decreases p
  {
    if p != [] {
      if t.Empty? {
        SubEmpty(p);
        assert false;
      }
      BelowHeight(Child(t, p[0]), p[1..]);
    }
  }

  /** Some node lies exactly at the height's last level. */
  lemma {:induction false} ReachesHeight(t: Tree)
    requires t.Node?
    ensures exists p :: Sub(t, p).Node? && |p| + 1 == Height(t)
  {
    var b := Height(t.left) < Height(t.right);
    var c := Child(t, b);
    if c.Empty? {
      assert Sub(t, []).Node?;
    } else {
      ReachesHeight(c);
      var p :| Sub(c, p).Node? && |p| + 1 == Height(c);
      assert ([b] + p)[1..] == p;
      assert Sub(t, [b] + p).Node?;
    }
  }

  // -------------------------------------------------------------- delete

  /** Some node on the route `p`, from the root to its end, holds `x`. */
  predicate Hit(t: Tree, p: Path, x: int)
    decreases p
  {
    t.Node? && (t.data == x || (p != [] && Hit(Child(t, p[0]), p[1..], x)))
  }

  /** `delete`: `true`, and no change, when the receiver itself holds `x`;
      otherwise `false`, every child subtree whose root holds `x` cut off,
      and the search continued inside the children that stay. */
  function Delete(t: Tree, x: int): (r: (bool, Tree))
    requires t.Node?
    ensures r.0 <==> t.data == x
    ensures r.0 ==> r.1 == t
    ensures r.1.Node? && r.1.data == t.data
    ensures !r.0 ==> x !in Elems(r.1)
    ensures Elems(r.1) <= Elems(t)
    decreases t, 0
  {
    if t.data == x then (true, t)
    else
      var l, rt := Prune(t.left, x), Prune(t.right, x);
      SubUnion(Elems(l), Elems(t.left), multiset{t.data}, Elems(rt), Elems(t.right));
      (false, Node(l, t.data, rt))
  }

  /** One `if let Some(..)` arm of `delete`: a child that is present is
      searched, and cut off when its root holds `x`. */
  function Prune(c: Tree, x: int): (r: Tree)
    ensures c.Empty? || c.data == x ==> r.Empty?
    ensures c.Node? && c.data != x ==> r.Node? && r.data == c.data
    ensures x !in Elems(r) && Elems(r) <= Elems(c)
    decreases c, 1
  {
    if c.Empty? then Empty
    else
      var (gone, c') := Delete(c, x);
      if gone then Empty else c'
  }

  lemma SubUnion(a': multiset<int>, a: multiset<int>, b: multiset<int>, c': multiset<int>, c: multiset<int>)
    requires a' <= a && c' <= c
    ensures a' + b + c' <= a + b + c
  {
  }

  /** After a delete that returns `false`, a route leads to a node exactly
      when no node along it holds `x`, and then to the same data. */
  lemma {:induction false} DeleteLabel(t: Tree, x: int, p: Path)
    requires t.Node? && t.data != x
    ensures Label(Delete(t, x).1, p) == if Hit(t, p, x) then None else Label(t, p)
    decreases p
  {
    if p != [] {
      var c := Child(t, p[0]);
      DeleteUnfold(t, x, p);
      if c.Empty? || c.data == x {
        SubEmpty(p[1..]);
      } else {
        DeleteLabel(c, x, p[1..]);
      }
    }
  }

  /** A route into the tree left by `delete` continues in the pruned child. */
  lemma DeleteUnfold(t: Tree, x: int, p: Path)
    requires t.Node? && t.data != x && p != []
    ensures Label(Delete(t, x).1, p) == Label(Prune(Child(t, p[0]), x), p[1..])
    ensures Label(t, p) == Label(Child(t, p[0]), p[1..])
    ensures Hit(t, p, x) == Hit(Child(t, p[0]), p[1..], x)
  {
    assert Child(Delete(t, x).1, p[0]) == Prune(Child(t, p[0]), x);
    LabelStep(Delete(t, x).1, p);
    LabelStep(t, p);
  }

  lemma LabelStep(t: Tree, p: Path)
    requires p != []
    ensures Label(t, p) == Label(Child(t, p[0]), p[1..])
  {
  }

  // ----------------------------------------------------------- scenarios

  function Leaf(x: int): Tree {
    Node(Empty, x, Empty)
  }

  /** `node!(1, 2, 3, 4, 5, 6, 7)`. */
  const Seven: Tree := Node(Node(Leaf(4), 2, Leaf(5)), 1, Node(Leaf(6), 3, Leaf(7)))

  /** `node!(1, 2, 3, 4, 5)`. */
  const Five: Tree := Node(Node(Leaf(4), 2, Leaf(5)), 1, Leaf(3))

  lemma SevenBuilt()
    ensures Build([1, 2, 3, 4, 5, 6, 7]) == Seven
  {
    BuildIsHeap([1, 2, 3, 4, 5, 6, 7]);
  }

  lemma FiveBuilt()
    ensures Build([1, 2, 3, 4, 5]) == Five
  {
    BuildIsHeap([1, 2, 3, 4, 5]);
  }

  /** The three-level full tree holding `x1..x7` in level order. */
  function Full(x1: int, x2: int, x3: int, x4: int, x5: int, x6: int, x7: int): Tree {
    Node(Node(Leaf(x4), x2, Leaf(x5)), x1, Node(Leaf(x6), x3, Leaf(x7)))
  }

  lemma Join(a: int, b: int, c: int, d: int, e: int, f: int, g: int)
    ensures [a, b, c] + [d] + [e, f, g] == [a, b, c, d, e, f, g]
    ensures [a] + [b, c, d] + [e, f, g] == [a, b, c, d, e, f, g]
    ensures [a, b, c] + [d, e, f] + [g] == [a, b, c, d, e, f, g]
  {
  }

  lemma CherryInorder(a: int, b: int, c: int)
    ensures Inorder(Node(Leaf(a), b, Leaf(c))) == [a, b, c]
  {
    assert Inorder(Leaf(a)) == [a] && Inorder(Leaf(c)) == [c];
  }

  lemma CherryPreorder(a: int, b: int, c: int)
    ensures Preorder(Node(Leaf(a), b, Leaf(c))) == [b, a, c]
  {
    assert Preorder(Leaf(a)) == [a] && Preorder(Leaf(c)) == [c];
  }

  lemma CherryPostorder(a: int, b: int, c: int)
    ensures Postorder(Node(Leaf(a), b, Leaf(c))) == [a, c, b]
  {
    assert Postorder(Leaf(a)) == [a] && Postorder(Leaf(c)) == [c];
  }

  lemma FullInorder(x1: int, x2: int, x3: int, x4: int, x5: int, x6: int, x7: int)
    ensures Inorder(Full(x1, x2, x3, x4, x5, x6, x7)) == [x4, x2, x5, x1, x6, x3, x7]
  {
    var l, r := Node(Leaf(x4), x2, Leaf(x5)), Node(Leaf(x6), x3, Leaf(x7));
    assert Full(x1, x2, x3, x4, x5, x6, x7) == Node(l, x1, r);
    CherryInorder(x4, x2, x5);
    CherryInorder(x6, x3, x7);
    assert Inorder(Node(l, x1, r)) == [x4, x2, x5] + [x1] + [x6, x3, x7];
    Join(x4, x2, x5, x1, x6, x3, x7);
  }

  lemma FullPreorder(x1: int, x2: int, x3: int, x4: int, x5: int, x6: int, x7: int)
    ensures Preorder(Full(x1, x2, x3, x4, x5, x6, x7)) == [x1, x2, x4, x5, x3, x6, x7]
  {
    var l, r := Node(Leaf(x4), x2, Leaf(x5)), Node(Leaf(x6), x3, Leaf(x7));
    assert Full(x1, x2, x3, x4, x5, x6, x7) == Node(l, x1, r);
    CherryPreorder(x4, x2, x5);
    CherryPreorder(x6, x3, x7);
    assert Preorder(Node(l, x1, r)) == [x1] + [x2, x4, x5] + [x3, x6, x7];
    Join(x1, x2, x4, x5, x3, x6, x7);
  }

  lemma FullPostorder(x1: int, x2: int, x3: int, x4: int, x5: int, x6: int, x7: int)
    ensures Postorder(Full(x1, x2, x3, x4, x5, x6, x7)) == [x4, x5, x2, x6, x7, x3, x1]
  {
    var l, r := Node(Leaf(x4), x2, Leaf(x5)), Node(Leaf(x6), x3, Leaf(x7));
    assert Full(x1, x2, x3, x4, x5, x6, x7) == Node(l, x1, r);
    CherryPostorder(x4, x2, x5);
    CherryPostorder(x6, x3, x7);
    assert Postorder(Node(l, x1, r)) == [x4, x5, x2] + [x6, x7, x3] + [x1];
    Join(x4, x5, x2, x6, x7, x3, x1);
  }

  lemma FullDepth(x1: int, x2: int, x3: int, x4: int, x5: int, x6: int, x7: int)
    ensures Depth(Full(x1, x2, x3, x4, x5, x6, x7)) == 3
  {
    var l, r := Node(Leaf(x4), x2, Leaf(x5)), Node(Leaf(x6), x3, Leaf(x7));
    assert Full(x1, x2, x3, x4, x5, x6, x7) == Node(l, x1, r);
    assert Depth(Leaf(x4)) == 1 && Depth(Leaf(x6)) == 1;
    assert Depth(l) == 2 && Depth(r) == 2;
  }

  lemma SevenLevelOrder()
    ensures LevelOrder(Seven) == [1, 2, 3, 4, 5, 6, 7]
  {
    var xs := [1, 2, 3, 4, 5, 6, 7];
    LevelOrderBuild(xs);
    SevenBuilt();
  }

  /** The `transversal` test: the four traversals and the depth of
      `node!(1, 2, 3, 4, 5, 6, 7)`. */
  lemma TraversalScenario()
    ensures Build([1, 2, 3, 4, 5, 6, 7]) == Seven
    ensures Inorder(Seven) == [4, 2, 5, 1, 6, 3, 7]
    ensures Preorder(Seven) == [1, 2, 4, 5, 3, 6, 7]
    ensures Postorder(Seven) == [4, 5, 2, 6, 7, 3, 1]
    ensures LevelOrder(Seven) == [1, 2, 3, 4, 5, 6, 7]
    ensures Depth(Seven) == 3
  {
    SevenBuilt();
    assert Seven == Full(1, 2, 3, 4, 5, 6, 7);
    FullInorder(1, 2, 3, 4, 5, 6, 7);
    FullPreorder(1, 2, 3, 4, 5, 6, 7);
    FullPostorder(1, 2, 3, 4, 5, 6, 7);
    FullDepth(1, 2, 3, 4, 5, 6, 7);
    SevenLevelOrder();
  }

  /** `node!('a', 'g', 'b', 'e')`, as code points. */
  const Letters: Tree := Node(Node(Leaf(101), 103, Empty), 97, Leaf(98))

  lemma LettersBuilt()
    ensures Build([97, 103, 98, 101]) == Letters
  {
    BuildIsHeap([97, 103, 98, 101]);
  }

  /** The tree `delete(3)` leaves of `node!(1, 2, 3, 4, 5)`. */
  const FiveCut: Tree := Node(Node(Leaf(4), 2, Leaf(5)), 1, Empty)

  lemma FiveDelete()
    ensures Delete(Five, 3) == (false, FiveCut)
  {
    var l := Node(Leaf(4), 2, Leaf(5));
    assert Delete(Leaf(4), 3) == (false, Leaf(4));
    assert Delete(Leaf(5), 3) == (false, Leaf(5));
    assert Delete(l, 3) == (false, l);
    assert Delete(Leaf(3), 3) == (true, Leaf(3));
  }

  /** The `basics` test: on `node!(1, 2, 3, 4, 5)` 3 is found and 42 is
      not; on the `char` tree 'b' is found; after `delete(3)` 3 is gone. */
  lemma BasicsScenario()
    ensures Build([1, 2, 3, 4, 5]) == Five && Build([97, 103, 98, 101]) == Letters
    ensures Find(Five, 3) == Some(3) && Find(Five, 42) == None
    ensures Find(Letters, 98) == Some(98)
    ensures Delete(Five, 3) == (false, FiveCut) && Find(FiveCut, 3) == None
  {
    FiveBuilt();
    LettersBuilt();
    FiveFinds();
    FiveDelete();
  }

  lemma FiveFinds()
    ensures Find(Five, 3) == Some(3) && Find(Five, 42) == None
    ensures Find(Letters, 98) == Some(98)
  {
  }

  /** The `macro_test` test: `node!` is `new` followed by `insert`s. */
  lemma MacroScenario()
    ensures Insert(Insert(New(1), 2), 3) == Build([1, 2, 3])
    ensures Depth(Build([1, 2, 3])) == 2
  {
    BuildIsHeap([1, 2, 3]);
  }

  /** `find` follows the search-tree route, so on `node!(1, 2, 3, 4, 5)` it
      misses the 2 that is there (2 sits left of 1), and `insert` then adds
      a second 2. */
  lemma FindMisses()
    ensures 2 in Elems(Five) && Find(Five, 2) == None
    ensures Elems(Insert(Five, 2))[2] == 2
  {
  }

  /** The second 2 goes where any missed value would: level-order
      position 5 of `node!(1, 2, 3, 4, 5)`. */
  lemma FindMissesPlace()
    ensures Insert(Five, 2) == Graft(Five, IndexPath(5), 2)
  {
    FiveComplete();
    FindMisses();
    InsertPlace(Five, 5, 2);
  }

  lemma FiveComplete()
    ensures Complete(Five, 5)
  {
    var xs := [1, 2, 3, 4, 5];
    assert Distinct(xs);
    BuildLevels(xs);
    FiveBuilt();
  }
}
