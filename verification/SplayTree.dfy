/** Top-down splay tree with subtree sizes (algo_splaytree.c, algo_splaytree.h).

    Nodes live on the heap and are relinked in place, as in the source.  The shape of the
    heap is described by a ghost value of type Tree, whose branches carry the very nodes.
    A node's key and data never change after creation, so equal in-order node sequences
    mean equal (key, data) sequences. */
module SplayTree {

  // ---------------------------------------------------------------- heap nodes

  class Node {
    var left: Node?
    var right: Node?
    const key: int
    var size: int
    const data: object?

    constructor (key: int, data: object?)
      ensures this.key == key && this.data == data && left == null && right == null
    {
      this.key := key;
      this.data := data;
      left, right, size := null, null, 0;
    }
  }

  /** The macro splaytree_size. */
  function NodeSize(x: Node?): int
    reads x
  {
    if x == null then 0 else x.size
  }

  /** Keys come from a hash whose highest bit is stripped. */
  predicate KeyInRange(k: int) { 0 <= k < 0x8000_0000 }

  /** The macro compare: a 32-bit signed subtraction. */
  function Compare(i: int, j: int): (c: int)
    requires KeyInRange(i) && KeyInRange(j)
    ensures -0x8000_0000 < c < 0x8000_0000
    ensures (c < 0 <==> i < j) && (c == 0 <==> i == j)
  {
    i - j
  }

  // ---------------------------------------------------------------- abstract trees

  datatype Tree = Leaf | Branch(left: Tree, node: Node, right: Tree)

  ghost function Elems(t: Tree): set<Node> {
    match t
    case Leaf => {}
    case Branch(l, n, r) => Elems(l) + {n} + Elems(r)
  }

  ghost function InOrder(t: Tree): seq<Node> {
    match t
    case Leaf => []
    case Branch(l, n, r) => InOrder(l) + [n] + InOrder(r)
  }

  ghost function Count(t: Tree): nat {
    match t
    case Leaf => 0
    case Branch(l, n, r) => Count(l) + 1 + Count(r)
  }

  const TOP := 0x8000_0000

  /** Strict search order with all keys strictly between lo and hi. */
  ghost predicate Search(t: Tree, lo: int, hi: int) {
    match t
    case Leaf => true
    case Branch(l, n, r) => lo < n.key < hi && Search(l, lo, n.key) && Search(r, n.key, hi)
  }

  /** The heap below root has exactly the shape t. */
  ghost predicate Links(t: Tree, root: Node?)
    reads Elems(t)
  {
    match t
    case Leaf => root == null
    case Branch(l, n, r) => root == n && Links(l, n.left) && Links(r, n.right)
  }

  /** Every size field is the node count of its subtree. */
  ghost predicate Sized(t: Tree)
    reads Elems(t)
  {
    match t
    case Leaf => true
    case Branch(l, n, r) => n.size == Count(t) && Sized(l) && Sized(r)
  }

  ghost predicate Valid(t: Tree, root: Node?)
    reads Elems(t)
  {
    Search(t, -1, TOP) && Links(t, root) && Sized(t)
  }

  // ---------------------------------------------------------------- spines

  /** The two side trees that the splay builds: a path of linked nodes, each with a finished
      subtree.  Small collects nodes below the key and grows through the right field,
      Large collects nodes above it and grows through the left field. */
  datatype Side = Small | Large
  datatype Part = Part(sub: Tree, node: Node)

  ghost function Inner(side: Side, n: Node): Node?
    reads n
  {
    if side.Small? then n.right else n.left
  }

  ghost function Outer(side: Side, n: Node): Node?
    reads n
  {
    if side.Small? then n.left else n.right
  }

  ghost function Build(side: Side, ps: seq<Part>, inner: Tree): Tree {
    if ps == [] then inner
    else if side.Small? then Branch(ps[0].sub, ps[0].node, Build(side, ps[1..], inner))
    else Branch(Build(side, ps[1..], inner), ps[0].node, ps[0].sub)
  }

  /** The bound that the first k parts of a spine put on everything after them. */
  ghost function Edge(side: Side, ps: seq<Part>, k: nat): int
    requires k <= |ps|
  {
    if k > 0 then ps[k - 1].node.key else if side.Small? then -1 else TOP
  }

  /** Part k lies between the part before it and its own node, on the proper side of key i. */
  ghost predicate PartOk(side: Side, ps: seq<Part>, k: nat, i: int)
    requires k < |ps|
  {
    var key := ps[k].node.key;
    if side.Small? then Edge(side, ps, k) < key < i && Search(ps[k].sub, Edge(side, ps, k), key)
    else i < key < Edge(side, ps, k) && Search(ps[k].sub, key, Edge(side, ps, k))
  }

  ghost predicate SpineOk(side: Side, ps: seq<Part>, i: int) {
    forall k :: 0 <= k < |ps| ==> PartOk(side, ps, k, i)
  }

  lemma KeysWithin(t: Tree, lo: int, hi: int, x: Node)
    requires Search(t, lo, hi) && x in Elems(t)
    ensures lo < x.key < hi
  {
  }

  lemma SearchWiden(t: Tree, lo: int, hi: int, lo': int, hi': int)
    requires Search(t, lo, hi) && lo' <= lo && hi <= hi'
    ensures Search(t, lo', hi')
  {
  }

  lemma EdgeMonotone(side: Side, ps: seq<Part>, j: nat, k: nat, i: int)
    requires SpineOk(side, ps, i) && j <= k <= |ps|
    ensures if side.Small? then Edge(side, ps, j) <= Edge(side, ps, k) else Edge(side, ps, k) <= Edge(side, ps, j)
    decreases k
  {
    if j < k {
      EdgeMonotone(side, ps, j, k - 1, i);
      assert PartOk(side, ps, k - 1, i);
    }
  }

  /** Plugging a tree into the hole of the spine from part k on. */
  lemma BuildSearch(side: Side, ps: seq<Part>, k: nat, inner: Tree, lim: int, i: int)
    requires SpineOk(side, ps, i) && k <= |ps|
    requires if side.Small? then Search(inner, Edge(side, ps, |ps|), lim) && Edge(side, ps, |ps|) < lim
             else Search(inner, lim, Edge(side, ps, |ps|)) && lim < Edge(side, ps, |ps|)
    ensures if side.Small? then Search(Build(side, ps[k..], inner), Edge(side, ps, k), lim)
            else Search(Build(side, ps[k..], inner), lim, Edge(side, ps, k))
    decreases |ps| - k
  {
    if k < |ps| {
      assert ps[k..][1..] == ps[k + 1..];
      assert PartOk(side, ps, k, i);
      EdgeMonotone(side, ps, k + 1, |ps|, i);
      BuildSearch(side, ps, k + 1, inner, lim, i);
    }
  }

  lemma BuildCount(side: Side, ps: seq<Part>, inner: Tree)
    ensures Count(Build(side, ps, inner)) == Count(Build(side, ps, Leaf)) + Count(inner)
  {
    if ps != [] { BuildCount(side, ps[1..], inner); }
  }

  lemma {:induction false} BuildInOrder(side: Side, ps: seq<Part>, inner: Tree)
    ensures InOrder(Build(side, ps, inner)) ==
            if side.Small? then InOrder(Build(side, ps, Leaf)) + InOrder(inner)
            else InOrder(inner) + InOrder(Build(side, ps, Leaf))
  {
    if ps != [] {
      BuildInOrder(side, ps[1..], inner);
      var p, a, b := ps[0], InOrder(Build(side, ps[1..], Leaf)), InOrder(inner);
      if side.Small? {
        assert InOrder(p.sub) + [p.node] + (a + b) == (InOrder(p.sub) + [p.node] + a) + b;
      } else {
        assert (b + a) + [p.node] + InOrder(p.sub) == b + (a + [p.node] + InOrder(p.sub));
      }
    } else {
      assert [] + InOrder(inner) == InOrder(inner) == InOrder(inner) + [];
    }
  }

  lemma BuildSnoc(side: Side, ps: seq<Part>, p: Part, inner: Tree)
    ensures Build(side, ps + [p], inner) == Build(side, ps, Build(side, [p], inner))
  {
    if ps != [] {
      assert (ps + [p])[1..] == ps[1..] + [p];
      BuildSnoc(side, ps[1..], p, inner);
    }
  }

  // ---------------------------------------------------------------- splay

  /** The in-order sequence of the two side trees around the current tree. */
  ghost function Around(ls: seq<Part>, cur: Tree, rs: seq<Part>): seq<Node> {
    InOrder(Build(Small, ls, Leaf)) + InOrder(cur) + InOrder(Build(Large, rs, Leaf))
  }

  lemma LinkLargeKeepsOrder(ls: seq<Part>, cur: Tree, rs: seq<Part>)
    requires cur.Branch?
    ensures Around(ls, cur.left, rs + [Part(cur.right, cur.node)]) == Around(ls, cur, rs)
  {
    var p := Part(cur.right, cur.node);
    BuildSnoc(Large, rs, p, Leaf);
    assert Build(Large, [p], Leaf) == Branch(Leaf, p.node, p.sub);
    BuildInOrder(Large, rs, Branch(Leaf, p.node, p.sub));
  }

  lemma RotateKeepsOrder(ls: seq<Part>, cur: Tree, cur': Tree, rs: seq<Part>)
    requires InOrder(cur') == InOrder(cur)
    ensures Around(ls, cur', rs) == Around(ls, cur, rs)
  {
  }

  lemma LinkSmallKeepsOrder(ls: seq<Part>, cur: Tree, rs: seq<Part>)
    requires cur.Branch?
    ensures Around(ls + [Part(cur.left, cur.node)], cur.right, rs) == Around(ls, cur, rs)
  {
    var p := Part(cur.left, cur.node);
    BuildSnoc(Small, ls, p, Leaf);
    assert Build(Small, [p], Leaf) == Branch(p.sub, p.node, Leaf);
    BuildInOrder(Small, ls, Branch(p.sub, p.node, Leaf));
  }

  lemma SpineGrow(side: Side, ps: seq<Part>, p: Part, i: int)
    requires SpineOk(side, ps, i)
    requires if side.Small? then Edge(side, ps, |ps|) < p.node.key < i && Search(p.sub, Edge(side, ps, |ps|), p.node.key)
             else i < p.node.key < Edge(side, ps, |ps|) && Search(p.sub, p.node.key, Edge(side, ps, |ps|))
    ensures SpineOk(side, ps + [p], i) && Edge(side, ps + [p], |ps| + 1) == p.node.key
  {
    forall k | 0 <= k < |ps| ensures PartOk(side, ps + [p], k, i) {
      assert PartOk(side, ps, k, i);
    }
    assert PartOk(side, ps + [p], |ps|, i);
  }

  ghost function RotatedRight(t: Tree): Tree
    requires t.Branch? && t.left.Branch?
  {
    Branch(t.left.left, t.left.node, Branch(t.left.right, t.node, t.right))
  }

  ghost function RotatedLeft(t: Tree): Tree
    requires t.Branch? && t.right.Branch?
  {
    Branch(Branch(t.left, t.node, t.right.left), t.right.node, t.right.right)
  }

  lemma Reassociate<A>(a: seq<A>, n: seq<A>, b: seq<A>, m: seq<A>, c: seq<A>)
    ensures (a + n + b) + m + c == a + n + (b + m + c)
  {
  }

  lemma RotatedRightOrder(t: Tree)
    requires t.Branch? && t.left.Branch?
    ensures InOrder(RotatedRight(t)) == InOrder(t) && Count(RotatedRight(t)) == Count(t)
  {
    var l := t.left;
    Reassociate(InOrder(l.left), [l.node], InOrder(l.right), [t.node], InOrder(t.right));
    assert InOrder(Branch(l.right, t.node, t.right)) == InOrder(l.right) + [t.node] + InOrder(t.right);
  }

  lemma RotatedLeftOrder(t: Tree)
    requires t.Branch? && t.right.Branch?
    ensures InOrder(RotatedLeft(t)) == InOrder(t) && Count(RotatedLeft(t)) == Count(t)
  {
    var u := RotatedLeft(t);
    assert RotatedRight(u) == t;
    RotatedRightOrder(u);
  }

  /** Every node of the spine and of its finished subtrees lies in own. */
  ghost predicate SpineWithin(ps: seq<Part>, own: set<Node>) {
    forall k :: 0 <= k < |ps| ==> ps[k].node in own && Elems(ps[k].sub) <= own
  }

  /** Consecutive spine nodes are linked and their subtrees are finished. */
  ghost predicate SpineLinks(side: Side, ps: seq<Part>, own: set<Node>)
    reads own
  {
    && SpineWithin(ps, own)
    && (forall k :: 0 <= k < |ps| - 1 ==> Inner(side, ps[k].node) == ps[k + 1].node)
    && (forall k :: 0 <= k < |ps| ==> Links(ps[k].sub, Outer(side, ps[k].node)) && Sized(ps[k].sub))
  }

  lemma SizeIsCount(t: Tree, n: Node?)
    requires Links(t, n) && Sized(t)
    ensures NodeSize(n) == Count(t)
  {
  }

  /** The three portions of a search tree share no node. */
  lemma SearchDisjoint(t: Tree, lo: int, hi: int)
    requires Search(t, lo, hi) && t.Branch?
    ensures t.node !in Elems(t.left) && t.node !in Elems(t.right) && Elems(t.left) !! Elems(t.right)
  {
    forall x | x in Elems(t.left) ensures x.key < t.node.key { KeysWithin(t.left, lo, t.node.key, x); }
    forall x | x in Elems(t.right) ensures t.node.key < x.key { KeysWithin(t.right, t.node.key, hi, x); }
  }

  ghost function Last(ps: seq<Part>, header: Node): Node {
    if ps == [] then header else ps[|ps| - 1].node
  }

  /** Stores v in the hole of a spine: in its last node, or in the header while it is empty. */
  method Hang(side: Side, last: Node, v: Node?, ghost header: Node, ghost ps: seq<Part>, ghost own: set<Node>, ghost i: int)
    requires SpineOk(side, ps, i) && SpineLinks(side, ps, own) && header !in own
    requires last == Last(ps, header)
    modifies last
    ensures SpineLinks(side, ps, own) && Inner(side, last) == v && Outer(side, last) == old(Outer(side, last))
    ensures last.size == old(last.size)
  {
    if ps != [] { NodesApart(side, ps, i, |ps| - 1); }
    if side.Small? { last.right := v; } else { last.left := v; }
  }

  /** Linking the node p.node, with its finished far subtree, below the spine. */
  lemma SpineSnoc(side: Side, ps: seq<Part>, p: Part, own: set<Node>)
    requires SpineLinks(side, ps, own) && Links(p.sub, Outer(side, p.node)) && Sized(p.sub)
    requires ps != [] ==> Inner(side, ps[|ps| - 1].node) == p.node
    ensures SpineLinks(side, ps + [p], own + {p.node} + Elems(p.sub))
  {
    var qs := ps + [p];
    assert forall k :: 0 <= k < |ps| ==> qs[k] == ps[k];
    assert qs[|ps|] == p;
  }

  /** The first k spine nodes have their final sizes. */
  ghost predicate SpineSized(side: Side, ps: seq<Part>, k: nat, inner: Tree, own: set<Node>)
    requires k <= |ps|
    reads own
  {
    SpineWithin(ps, own) &&
    forall j :: 0 <= j < k ==> ps[j].node.size == Count(Build(side, ps[j..], inner))
  }

  /** Walking down a finished spine: from its first node, or what hangs below it. */
  ghost function At(ps: seq<Part>, k: nat, tail: Node?): Node?
    requires k <= |ps|
  {
    if k < |ps| then ps[k].node else tail
  }

  /** The whole spine with the tree inner in its hole, once links and sizes are in place. */
  lemma Assemble(side: Side, ps: seq<Part>, k: nat, inner: Tree, tail: Node?, own: set<Node>)
    requires k <= |ps| && SpineLinks(side, ps, own) && Links(inner, tail) && Sized(inner)
    requires SpineSized(side, ps, |ps|, inner, own)
    requires ps != [] ==> Inner(side, ps[|ps| - 1].node) == tail
    ensures Links(Build(side, ps[k..], inner), At(ps, k, tail)) && Sized(Build(side, ps[k..], inner))
    decreases |ps| - k
  {
    if k < |ps| {
      Assemble(side, ps, k + 1, inner, tail, own);
      assert ps[k..][1..] == ps[k + 1..];
    }
  }

  lemma SpineCountStep(side: Side, ps: seq<Part>, k: nat, inner: Tree)
    requires k < |ps|
    ensures Count(Build(side, ps[k..], inner)) == 1 + Count(ps[k].sub) + Count(Build(side, ps[k + 1..], inner))
  {
    assert ps[k..][1..] == ps[k + 1..];
  }

  /** No spine node occurs twice or inside a finished subtree. */
  lemma NodesApart(side: Side, ps: seq<Part>, i: int, j: nat)
    requires SpineOk(side, ps, i) && j < |ps|
    ensures forall k :: 0 <= k < |ps| ==> ps[j].node !in Elems(ps[k].sub) && (k != j ==> ps[j].node != ps[k].node)
  {
    forall k | 0 <= k < |ps|
      ensures ps[j].node !in Elems(ps[k].sub) && (k != j ==> ps[j].node != ps[k].node)
    {
      assert PartOk(side, ps, k, i) && PartOk(side, ps, j, i);
      if k < j { EdgeMonotone(side, ps, k + 1, j, i); }
      if j < k { EdgeMonotone(side, ps, j + 1, k, i); }
      if ps[j].node in Elems(ps[k].sub) {
        if side.Small? { KeysWithin(ps[k].sub, Edge(side, ps, k), ps[k].node.key, ps[j].node); }
        else { KeysWithin(ps[k].sub, ps[k].node.key, Edge(side, ps, k), ps[j].node); }
      }
    }
  }

  /** One step of either size-correcting loop: y is spine node k. */
  method CorrectSize(y: Node, size: int, ghost side: Side, ghost ps: seq<Part>, ghost k: nat, ghost inner: Tree, ghost own: set<Node>, ghost i: int)
    requires SpineOk(side, ps, i) && SpineLinks(side, ps, own) && k < |ps| && y == ps[k].node
    requires SpineSized(side, ps, k, inner, own) && size == Count(Build(side, ps[k..], inner))
    modifies y`size
    ensures SpineLinks(side, ps, own) && SpineSized(side, ps, k + 1, inner, own)
    ensures NodeSize(Outer(side, y)) == Count(ps[k].sub)
    ensures Inner(side, y) == if k + 1 < |ps| then ps[k + 1].node else old(Inner(side, y))
  {
    NodesApart(side, ps, i, k);
    y.size := size;
    SizeIsCount(ps[k].sub, Outer(side, y));
  }

  /** Corrects the sizes on the path that grew through right fields. */
  method FixSmall(first: Node?, size: int, ghost ls: seq<Part>, ghost inner: Tree, ghost own: set<Node>, ghost i: int)
    requires SpineOk(Small, ls, i) && SpineLinks(Small, ls, own) && first == At(ls, 0, null)
    requires ls != [] ==> ls[|ls| - 1].node.right == null
    requires size == Count(Build(Small, ls, inner))
    modifies own`size
    ensures SpineLinks(Small, ls, own) && SpineSized(Small, ls, |ls|, inner, own)
  {
    hide SpineOk, Build;
    var y, lSize := first, size;
    ghost var k := 0;
    assert ls[0..] == ls;
    while y != null
      invariant k <= |ls| && y == At(ls, k, null)
      invariant ls != [] ==> ls[|ls| - 1].node.right == null
      invariant lSize == Count(Build(Small, ls[k..], inner))
      invariant SpineLinks(Small, ls, own) && SpineSized(Small, ls, k, inner, own)
      decreases |ls| - k
    {
      SpineCountStep(Small, ls, k, inner);
      CorrectSize(y, lSize, Small, ls, k, inner, own, i);
      lSize := lSize - (1 + NodeSize(y.left));
      y := y.right;
      k := k + 1;
    }
  }

  /** Corrects the sizes on the path that grew through left fields. */
  method FixLarge(first: Node?, size: int, ghost rs: seq<Part>, ghost inner: Tree, ghost own: set<Node>, ghost i: int)
    requires SpineOk(Large, rs, i) && SpineLinks(Large, rs, own) && first == At(rs, 0, null)
    requires rs != [] ==> rs[|rs| - 1].node.left == null
    requires size == Count(Build(Large, rs, inner))
    modifies own`size
    ensures SpineLinks(Large, rs, own) && SpineSized(Large, rs, |rs|, inner, own)
  {
    hide SpineOk, Build;
    var y, rSize := first, size;
    ghost var k := 0;
    assert rs[0..] == rs;
    while y != null
      invariant k <= |rs| && y == At(rs, k, null)
      invariant rs != [] ==> rs[|rs| - 1].node.left == null
      invariant rSize == Count(Build(Large, rs[k..], inner))
      invariant SpineLinks(Large, rs, own) && SpineSized(Large, rs, k, inner, own)
      decreases |rs| - k
    {
      SpineCountStep(Large, rs, k, inner);
      CorrectSize(y, rSize, Large, rs, k, inner, own, i);
      rSize := rSize - (1 + NodeSize(y.right));
      y := y.left;
      k := k + 1;
    }
  }

  /** The keys: small side tree, then the current tree, then the large side tree. */
  ghost predicate Ordered(cur: Tree, ls: seq<Part>, rs: seq<Part>, i: int) {
    && KeyInRange(i) && SpineOk(Small, ls, i) && SpineOk(Large, rs, i)
    && Search(cur, Edge(Small, ls, |ls|), Edge(Large, rs, |rs|))
  }

  /** Which nodes belong to the current tree and to the two side trees. */
  datatype Owners = Owners(cur: set<Node>, small: set<Node>, large: set<Node>) {
    ghost predicate Apart(N: Node) { cur !! small !! large && N !in cur + small + large }
  }

  /** The current tree, opened at its root t; its own size field may be stale. */
  ghost predicate Opened(cur: Tree, t: Node?, own: set<Node>)
    reads own
  {
    && cur.Branch? && t == cur.node && t in own
    && Elems(cur.left) <= own - {t} && Elems(cur.right) <= own - {t} && Elems(cur.left) !! Elems(cur.right)
    && Links(cur.left, t.left) && Sized(cur.left)
    && Links(cur.right, t.right) && Sized(cur.right)
  }

  lemma Open(cur: Tree, t: Node?, own: set<Node>, lo: int, hi: int)
    requires cur.Branch? && Search(cur, lo, hi) && Elems(cur) <= own
    requires Links(cur, t) && Sized(cur.left) && Sized(cur.right)
    ensures Opened(cur, t, own)
  {
    SearchDisjoint(cur, lo, hi);
  }

  method RotateRight(t: Node, ghost cur: Tree, ghost own: set<Node>, ghost lo: int, ghost hi: int) returns (y: Node)
    requires Opened(cur, t, own) && Search(cur, lo, hi) && cur.left.Branch?
    modifies t, cur.left.node
    ensures Opened(RotatedRight(cur), y, own) && Search(RotatedRight(cur), lo, hi)
  {
    ghost var a, b, c := cur.left.left, cur.left.right, cur.right;
    SearchDisjoint(cur.left, lo, t.key);
    y := t.left;
    t.left := y.right;
    y.right := t;
    assert Links(a, y.left) && Links(b, t.left) && Links(c, t.right);
    assert Sized(a) && Sized(b) && Sized(c);
    SizeIsCount(b, t.left);
    SizeIsCount(c, t.right);
    t.size := NodeSize(t.left) + NodeSize(t.right) + 1;
  }

  method RotateLeft(t: Node, ghost cur: Tree, ghost own: set<Node>, ghost lo: int, ghost hi: int) returns (y: Node)
    requires Opened(cur, t, own) && Search(cur, lo, hi) && cur.right.Branch?
    modifies t, cur.right.node
    ensures Opened(RotatedLeft(cur), y, own) && Search(RotatedLeft(cur), lo, hi)
  {
    ghost var a, b, c := cur.left, cur.right.left, cur.right.right;
    SearchDisjoint(cur.right, t.key, hi);
    y := t.right;
    t.right := y.left;
    y.left := t;
    assert Links(a, t.left) && Links(b, t.right) && Links(c, y.right);
    assert Sized(a) && Sized(b) && Sized(c);
    SizeIsCount(a, t.left);
    SizeIsCount(b, t.right);
    t.size := NodeSize(t.left) + NodeSize(t.right) + 1;
  }

  /** What the search loop keeps: header N, the tree cur rooted at t, the side trees ls and rs. */
  ghost predicate Parted(N: Node, l: Node, r: Node, t: Node?, cur: Tree, ls: seq<Part>, rs: seq<Part>, own: Owners)
    reads N, own.cur, own.small, own.large
  {
    && own.Apart(N) && Opened(cur, t, own.cur)
    && SpineLinks(Small, ls, own.small) && l == Last(ls, N)
    && (ls != [] ==> N.right == ls[0].node && l in own.small)
    && SpineLinks(Large, rs, own.large) && r == Last(rs, N)
    && (rs != [] ==> N.left == rs[0].node && r in own.large)
  }

  /** Stores u and v in the two holes. */
  method HangBoth(N: Node, l: Node, r: Node, u: Node?, v: Node?, ghost t: Node,
                  ghost cur: Tree, ghost ls: seq<Part>, ghost rs: seq<Part>, ghost own: Owners, ghost i: int)
    requires Parted(N, l, r, t, cur, ls, rs, own) && Ordered(cur, ls, rs, i)
    modifies l, r
    ensures Parted(N, l, r, t, cur, ls, rs, own) && l.right == u && r.left == v
    ensures N.right == At(ls, 0, u) && N.left == At(rs, 0, v)
    ensures l.size == old(l.size) && r.size == old(r.size)
  {
    hide SpineOk, Search, Links, Sized;
    Hang(Small, l, u, N, ls, own.small, i);
    Hang(Large, r, v, N, rs, own.large, i);
  }

  /** All sizes are final; only the three trees are still apart. */
  ghost predicate Measured(t: Node, cur: Tree, ls: seq<Part>, rs: seq<Part>, own: Owners)
    requires cur.Branch?
    reads t, own.small, own.large
  {
    && SpineSized(Small, ls, |ls|, cur.left, own.small) && SpineSized(Large, rs, |rs|, cur.right, own.large)
    && t.size == Count(Build(Small, ls, cur.left)) + Count(Build(Large, rs, cur.right)) + 1
  }

  /** The code after the search loop, up to the end of the two loops that correct sizes. */
  method Measure(N: Node, l: Node, r: Node, t: Node, lPath: int, rPath: int,
                 ghost cur: Tree, ghost ls: seq<Part>, ghost rs: seq<Part>, ghost own: Owners, ghost i: int)
    requires Parted(N, l, r, t, cur, ls, rs, own) && Ordered(cur, ls, rs, i)
    requires lPath == Count(Build(Small, ls, Leaf)) && rPath == Count(Build(Large, rs, Leaf))
    modifies N, t, own.small, own.large
    ensures Parted(N, l, r, t, cur, ls, rs, own) && Measured(t, cur, ls, rs, own)
  {
    hide SpineOk, Build, Search, SpineSized, SpineLinks, SpineWithin, Links, Sized;
    SizeIsCount(cur.left, t.left);
    SizeIsCount(cur.right, t.right);
    BuildCount(Small, ls, cur.left);
    BuildCount(Large, rs, cur.right);
    var lSize := lPath + NodeSize(t.left);
    var rSize := rPath + NodeSize(t.right);
    t.size := lSize + rSize + 1;
    HangBoth(N, l, r, null, null, t, cur, ls, rs, own, i);
    FixSmall(N.right, lSize, ls, cur.left, own.small, i);
    FixLarge(N.left, rSize, rs, cur.right, own.large, i);
  }

  lemma BuildWithin(side: Side, ps: seq<Part>, inner: Tree, own: set<Node>)
    requires SpineWithin(ps, own)
    ensures Elems(Build(side, ps, inner)) <= own + Elems(inner)
  {
    if ps != [] { BuildWithin(side, ps[1..], inner, own); }
  }

  lemma LinkedWithin(side: Side, ps: seq<Part>, inner: Tree, own: set<Node>)
    requires SpineLinks(side, ps, own)
    ensures Elems(Build(side, ps, inner)) <= own + Elems(inner)
  {
    BuildWithin(side, ps, inner, own);
  }

  /** Joins the three trees below t. */
  method Join(N: Node, l: Node, r: Node, t: Node,
              ghost cur: Tree, ghost ls: seq<Part>, ghost rs: seq<Part>, ghost own: Owners, ghost i: int)
    returns (ghost R: Tree)
    requires Parted(N, l, r, t, cur, ls, rs, own) && Ordered(cur, ls, rs, i) && Measured(t, cur, ls, rs, own)
    modifies N, l, r, t
    ensures R == Branch(Build(Small, ls, cur.left), cur.node, Build(Large, rs, cur.right))
    ensures Links(R, t) && Sized(R)
  {
    hide SpineOk, Build, Search, SpineLinks, Links, Sized;
    ghost var a, b := t.left, t.right;
    HangBoth(N, l, r, t.left, t.right, t, cur, ls, rs, own, i);
    Assemble(Small, ls, 0, cur.left, a, own.small);
    Assemble(Large, rs, 0, cur.right, b, own.large);
    R := Branch(Build(Small, ls[0..], cur.left), t, Build(Large, rs[0..], cur.right));
    assert ls[0..] == ls && rs[0..] == rs;
    LinkedWithin(Small, ls, cur.left, own.small);
    LinkedWithin(Large, rs, cur.right, own.large);
    t.left := N.right;
    t.right := N.left;
    Closed(R, t);
  }

  lemma Closed(R: Tree, t: Node)
    requires R.Branch? && R.node == t && Links(R.left, t.left) && Links(R.right, t.right)
    requires Sized(R.left) && Sized(R.right) && t.size == Count(R.left) + 1 + Count(R.right)
    ensures Links(R, t) && Sized(R)
  {
  }

  /** The root t of the current tree moves to one of the side trees, with its far subtree. */
  ghost function Moved(side: Side, cur: Tree, own: Owners): (own': Owners)
    requires cur.Branch? && Elems(cur.left) <= own.cur && Elems(cur.right) <= own.cur && cur.node in own.cur
    ensures own'.cur <= own.cur && own'.small <= own.small + own.cur && own'.large <= own.large + own.cur
  {
    if side.Large? then Owners(Elems(cur.left), own.small, own.large + {cur.node} + Elems(cur.right))
    else Owners(Elems(cur.right), own.small + {cur.node} + Elems(cur.left), own.large)
  }

  lemma LinkCount(side: Side, ps: seq<Part>, p: Part)
    ensures Count(Build(side, ps + [p], Leaf)) == Count(Build(side, ps, Leaf)) + 1 + Count(p.sub)
  {
    BuildSnoc(side, ps, p, Leaf);
    BuildCount(side, ps, Build(side, [p], Leaf));
    assert Build(side, [p], Leaf) == if side.Small? then Branch(p.sub, p.node, Leaf) else Branch(Leaf, p.node, p.sub);
  }

  lemma SizedKids(t: Tree)
    requires Sized(t) && t.Branch?
    ensures Sized(t.left) && Sized(t.right)
  {
  }

  /** Link right: t joins the side tree of larger keys and the search goes left. */
  method LinkRight(N: Node, l: Node, r: Node, t: Node, rSize: int,
                   ghost cur: Tree, ghost ls: seq<Part>, ghost rs: seq<Part>, ghost own: Owners, ghost i: int)
    returns (t': Node?, rSize': int, ghost rs': seq<Part>, ghost own': Owners)
    requires Parted(N, l, r, t, cur, ls, rs, own) && Ordered(cur, ls, rs, i)
    requires i < t.key && cur.left.Branch?
    requires rSize == Count(Build(Large, rs, Leaf))
    modifies r
    ensures rs' == rs + [Part(cur.right, cur.node)]
    ensures Elems(cur.left) <= own.cur && Elems(cur.right) <= own.cur && cur.node in own.cur
    ensures own' == Moved(Large, cur, own)
    ensures Parted(N, l, t, t', cur.left, ls, rs', own') && Ordered(cur.left, ls, rs', i)
    ensures rSize' == Count(Build(Large, rs', Leaf))
  {
    hide SpineOk, Build, SpineLinks, SpineWithin, Links;
    ghost var p := Part(cur.right, cur.node);
    own' := Moved(Large, cur, own);
    SpineGrow(Large, rs, p, i);
    LinkCount(Large, rs, p);
    Hang(Large, r, t, N, rs, own.large, i);
    SpineSnoc(Large, rs, p, own.large);
    rs' := rs + [p];
    t' := t.left;
    SizedKids(cur.left);
    Open(cur.left, t', own'.cur, Edge(Small, ls, |ls|), t.key);
    SizeIsCount(p.sub, t.right);
    rSize' := rSize + 1 + NodeSize(t.right);
  }

  /** Link left: t joins the side tree of smaller keys and the search goes right. */
  method LinkLeft(N: Node, l: Node, r: Node, t: Node, lSize: int,
                   ghost cur: Tree, ghost ls: seq<Part>, ghost rs: seq<Part>, ghost own: Owners, ghost i: int)
    returns (t': Node?, lSize': int, ghost ls': seq<Part>, ghost own': Owners)
    requires Parted(N, l, r, t, cur, ls, rs, own) && Ordered(cur, ls, rs, i)
    requires t.key < i && cur.right.Branch?
    requires lSize == Count(Build(Small, ls, Leaf))
    modifies l
    ensures ls' == ls + [Part(cur.left, cur.node)]
    ensures Elems(cur.right) <= own.cur && Elems(cur.left) <= own.cur && cur.node in own.cur
    ensures own' == Moved(Small, cur, own)
    ensures Parted(N, t, r, t', cur.right, ls', rs, own') && Ordered(cur.right, ls', rs, i)
    ensures lSize' == Count(Build(Small, ls', Leaf))
  {
    hide SpineOk, Build, SpineLinks, SpineWithin, Links;
    ghost var p := Part(cur.left, cur.node);
    own' := Moved(Small, cur, own);
    SpineGrow(Small, ls, p, i);
    LinkCount(Small, ls, p);
    Hang(Small, l, t, N, ls, own.small, i);
    SpineSnoc(Small, ls, p, own.small);
    ls' := ls + [p];
    t' := t.right;
    SizedKids(cur.right);
    Open(cur.right, t', own'.cur, t.key, Edge(Large, rs, |rs|));
    SizeIsCount(p.sub, t.left);
    lSize' := lSize + 1 + NodeSize(t.left);
  }

  /** The first node of t other than the root's subtree on key i's side decides the break tests. */
  lemma LeafIsNull(cur: Tree, t: Node?, own: set<Node>)
    requires Opened(cur, t, own)
    ensures cur.Branch? && t == cur.node && t in own
    ensures cur.left.Leaf? <==> t.left == null
    ensures cur.right.Leaf? <==> t.right == null
    ensures cur.left.Branch? ==> t.left == cur.left.node && t.left in own
    ensures cur.right.Branch? ==> t.right == cur.right.node && t.right in own
  {
  }

  lemma KeyRangeOf(cur: Tree, ls: seq<Part>, rs: seq<Part>, i: int)
    requires Ordered(cur, ls, rs, i) && cur.Branch?
    ensures KeyInRange(cur.node.key)
    ensures cur.left.Branch? ==> KeyInRange(cur.left.node.key)
    ensures cur.right.Branch? ==> KeyInRange(cur.right.node.key)
  {
    EdgesAround(ls, rs, i);
    assert Search(cur.left, Edge(Small, ls, |ls|), cur.node.key);
    assert Search(cur.right, cur.node.key, Edge(Large, rs, |rs|));
  }

  lemma EdgesAround(ls: seq<Part>, rs: seq<Part>, i: int)
    requires SpineOk(Small, ls, i) && SpineOk(Large, rs, i) && KeyInRange(i)
    ensures -1 <= Edge(Small, ls, |ls|) < i < Edge(Large, rs, |rs|) <= TOP
  {
    EdgeMonotone(Small, ls, 0, |ls|, i);
    EdgeMonotone(Large, rs, 0, |rs|, i);
    if ls != [] { assert PartOk(Small, ls, |ls| - 1, i); }
    if rs != [] { assert PartOk(Large, rs, |rs| - 1, i); }
  }

  lemma NullIsLeaf(T: Tree, t: Node?, i: int)
    requires Valid(T, t)
    ensures T.Leaf? <==> t == null
    ensures t == null ==> Splayed(T, T, i)
  {
  }

  lemma Start(T: Tree, N: Node, t: Node?, i: int)
    requires T.Branch? && Valid(T, t) && KeyInRange(i) && N !in Elems(T)
    ensures Parted(N, N, N, t, T, [], [], Owners(Elems(T), {}, {})) && Ordered(T, [], [], i)
    ensures Count(Build(Small, [], Leaf)) == 0 && Count(Build(Large, [], Leaf)) == 0
    ensures Around([], T, []) == InOrder(T)
  {
    Open(T, t, Elems(T), -1, TOP);
  }

  /** What splaying for key i gives: nothing lost, nothing reordered, and a root that splits the keys at i. */
  ghost predicate Splayed(R: Tree, T: Tree, i: int) {
    && InOrder(R) == InOrder(T) && Elems(R) == Elems(T) && Search(R, -1, TOP)
    && (T.Branch? ==> R.Branch? && Search(R.left, -1, i) && Search(R.right, i, TOP))
  }

  lemma Finish(T: Tree, cur: Tree, ls: seq<Part>, rs: seq<Part>, i: int)
    requires Ordered(cur, ls, rs, i) && cur.Branch? && Around(ls, cur, rs) == InOrder(T)
    requires cur.node.key < i ==> cur.right == Leaf
    requires i < cur.node.key ==> cur.left == Leaf
    ensures Splayed(Branch(Build(Small, ls, cur.left), cur.node, Build(Large, rs, cur.right)), T, i)
  {
    hide Build, Around, InOrder, Elems, SpineOk;
    var k := cur.node.key;
    var a, b := Build(Small, ls, cur.left), Build(Large, rs, cur.right);
    EdgesAround(ls, rs, i);
    assert ls[0..] == ls && rs[0..] == rs;
    BuildSearch(Small, ls, 0, cur.left, k, i);
    BuildSearch(Large, rs, 0, cur.right, k, i);
    if k <= i { SearchWiden(a, -1, k, -1, i); } else { BuildSearch(Small, ls, 0, Leaf, i, i); }
    if i <= k { SearchWiden(b, k, TOP, i, TOP); } else { BuildSearch(Large, rs, 0, Leaf, i, i); }
    FinishOrder(T, cur, ls, rs);
  }

  lemma Regroup<A>(l: seq<A>, a: seq<A>, n: seq<A>, b: seq<A>, r: seq<A>)
    ensures (l + a) + n + (b + r) == l + (a + n + b) + r
  {
  }

  lemma FinishOrder(T: Tree, cur: Tree, ls: seq<Part>, rs: seq<Part>)
    requires cur.Branch? && Around(ls, cur, rs) == InOrder(T)
    ensures var R := Branch(Build(Small, ls, cur.left), cur.node, Build(Large, rs, cur.right));
            InOrder(R) == InOrder(T) && Elems(R) == Elems(T)
  {
    hide Build, Elems;
    var R := Branch(Build(Small, ls, cur.left), cur.node, Build(Large, rs, cur.right));
    BuildInOrder(Small, ls, cur.left);
    BuildInOrder(Large, rs, cur.right);
    Regroup(InOrder(Build(Small, ls, Leaf)), InOrder(cur.left), [cur.node], InOrder(cur.right), InOrder(Build(Large, rs, Leaf)));
    SameElems(R, T);
  }

  lemma InOrderElems(t: Tree, x: Node)
    ensures x in InOrder(t) <==> x in Elems(t)
  {
    if t.Branch? {
      InOrderElems(t.left, x);
      InOrderElems(t.right, x);
      var l, r := InOrder(t.left), InOrder(t.right);
      assert x in l + [t.node] + r <==> x in l || x == t.node || x in r;
    }
  }

  lemma SameElems(t: Tree, u: Tree)
    requires InOrder(t) == InOrder(u)
    ensures Elems(t) == Elems(u)
  {
    forall x | x in Elems(t) ensures x in Elems(u) { InOrderElems(t, x); InOrderElems(u, x); }
    forall x | x in Elems(u) ensures x in Elems(t) { InOrderElems(t, x); InOrderElems(u, x); }
  }

  lemma ValidAgain(R: Tree, T: Tree, t: Node, i: int)
    requires Splayed(R, T, i) && Links(R, t) && Sized(R)
    ensures Valid(R, t)
  {
  }

  method Splay(root: Node?, i: int, ghost T: Tree) returns (t: Node?, ghost R: Tree)
    requires Valid(T, root) && KeyInRange(i)
    modifies Elems(T)
    ensures Valid(R, t) && Splayed(R, T, i)
  {
    hide SpineOk, Build, SpineLinks, SpineWithin, Links, Sized, Around, Opened, Splayed, Search, Valid;
    t, R := root, T;
    NullIsLeaf(T, root, i);
    if t == null { return; }
    ghost var nodes := Elems(T);
    assert allocated(nodes);
    var N := new Node(0, null);
    var l: Node, r: Node := N, N;
    var lSize: int, rSize: int := 0, 0;
    ghost var cur := T;
    ghost var ls: seq<Part>, rs: seq<Part> := [], [];
    ghost var own := Owners(nodes, {}, {});
    Start(T, N, root, i);
    while true
      invariant Parted(N, l, r, t, cur, ls, rs, own) && Ordered(cur, ls, rs, i)
      invariant own.cur <= nodes && own.small <= nodes && own.large <= nodes && N !in nodes
      invariant lSize == Count(Build(Small, ls, Leaf)) && rSize == Count(Build(Large, rs, Leaf))
      invariant Around(ls, cur, rs) == InOrder(T)
      decreases Count(cur)
    {
      ghost var lo, hi := Edge(Small, ls, |ls|), Edge(Large, rs, |rs|);
      LeafIsNull(cur, t, own.cur);
      KeyRangeOf(cur, ls, rs, i);
      var comp := Compare(i, t.key);
      if comp < 0 {
        if t.left == null { break; }
        if Compare(i, t.left.key) < 0 {
          t := RotateRight(t, cur, own.cur, lo, hi);
          RotatedRightOrder(cur);
          RotateKeepsOrder(ls, cur, RotatedRight(cur), rs);
          cur := RotatedRight(cur);
          LeafIsNull(cur, t, own.cur);
          if t.left == null { break; }
        }
        LinkLargeKeepsOrder(ls, cur, rs);
        var u := t;
        t, rSize, rs, own := LinkRight(N, l, r, t, rSize, cur, ls, rs, own, i);
        r := u;
        cur := cur.left;
      } else if comp > 0 {
        if t.right == null { break; }
        if Compare(i, t.right.key) > 0 {
          t := RotateLeft(t, cur, own.cur, lo, hi);
          RotatedLeftOrder(cur);
          RotateKeepsOrder(ls, cur, RotatedLeft(cur), rs);
          cur := RotatedLeft(cur);
          LeafIsNull(cur, t, own.cur);
          if t.right == null { break; }
        }
        LinkSmallKeepsOrder(ls, cur, rs);
        var u := t;
        t, lSize, ls, own := LinkLeft(N, l, r, t, lSize, cur, ls, rs, own, i);
        l := u;
        cur := cur.right;
      } else {
        break;
      }
    }
    Finish(T, cur, ls, rs, i);
    Measure(N, l, r, t, lSize, rSize, cur, ls, rs, own, i);
    R := Join(N, l, r, t, cur, ls, rs, own, i);
    ValidAgain(R, T, t, i);
  }

  // ---------------------------------------------------------------- the finite map

  /** The map that a node sequence stands for. */
  ghost function EntriesOf(s: seq<Node>): map<int, object?> {
    if s == [] then map[] else map[s[0].key := s[0].data] + EntriesOf(s[1..])
  }

  ghost function Entries(t: Tree): map<int, object?> { EntriesOf(InOrder(t)) }

  lemma MapAssoc<K, V>(a: map<K, V>, b: map<K, V>, c: map<K, V>)
    ensures (a + b) + c == a + (b + c)
  {
  }

  lemma EntriesConcat(a: seq<Node>, b: seq<Node>)
    ensures EntriesOf(a + b) == EntriesOf(a) + EntriesOf(b)
  {
    if a == [] { assert a + b == b; } else {
      assert (a + b)[0] == a[0] && (a + b)[1..] == a[1..] + b;
      EntriesConcat(a[1..], b);
      MapAssoc(map[a[0].key := a[0].data], EntriesOf(a[1..]), EntriesOf(b));
    }
  }

  lemma EntriesBranch(t: Tree)
    requires t.Branch?
    ensures Entries(t) == Joined(Entries(t.left), t.node.key, t.node.data, Entries(t.right))
  {
    var l, n, r := InOrder(t.left), [t.node], InOrder(t.right);
    EntriesConcat(l + n, r);
    EntriesConcat(l, n);
    assert EntriesOf(n) == map[t.node.key := t.node.data];
  }

  /** Search order bounds the map's keys. */
  lemma EntriesWithin(t: Tree, lo: int, hi: int)
    requires Search(t, lo, hi)
    ensures forall k :: k in Entries(t) ==> lo < k < hi
  {
    if t.Branch? {
      EntriesBranch(t);
      EntriesWithin(t.left, lo, t.node.key);
      EntriesWithin(t.right, t.node.key, hi);
    }
  }

  /** The map of a branch, from those of its two sides. */
  ghost function Joined(l: map<int, object?>, k: int, d: object?, r: map<int, object?>): map<int, object?> {
    l + map[k := d] + r
  }

  ghost predicate Splits(l: map<int, object?>, k: int, r: map<int, object?>) {
    (forall x :: x in l ==> x < k) && (forall x :: x in r ==> k < x)
  }

  lemma UnionSize<K, V>(a: map<K, V>, b: map<K, V>)
    requires a.Keys !! b.Keys
    ensures |a + b| == |a| + |b|
  {
    assert (a + b).Keys == a.Keys + b.Keys;
    assert |a.Keys + b.Keys| == |a.Keys| + |b.Keys|;
  }

  lemma JoinedSize(l: map<int, object?>, k: int, d: object?, r: map<int, object?>)
    requires Splits(l, k, r)
    ensures |Joined(l, k, d, r)| == |l| + 1 + |r|
  {
    var m := map[k := d];
    assert |m| == 1 by { assert m.Keys == {k}; }
    assert k !in l;
    UnionSize(l, m);
    forall x | x in r ensures x !in l + m { }
    UnionSize(l + m, r);
  }

  /** Every node holds its own key: the map's cardinality is the node count. */
  lemma EntriesCount(t: Tree, lo: int, hi: int)
    requires Search(t, lo, hi)
    ensures |Entries(t)| == Count(t)
  {
    hide InOrder, EntriesOf, Entries;
    if t.Leaf? { EntriesLeaf(); } else {
      EntriesBranch(t);
      EntriesCount(t.left, lo, t.node.key);
      EntriesCount(t.right, t.node.key, hi);
      EntriesWithin(t.left, lo, t.node.key);
      EntriesWithin(t.right, t.node.key, hi);
      JoinedSize(Entries(t.left), t.node.key, t.node.data, Entries(t.right));
    }
  }

  lemma EntriesLeaf()
    ensures Entries(Leaf) == map[]
  {
  }

  /** After a splay: the key is in the map exactly when it is at the root, and a root with another
      key is a neighbour: no key of the map lies between the two. */
  lemma SplayedRoot(R: Tree, T: Tree, i: int)
    requires Splayed(R, T, i) && T.Branch? && KeyInRange(i)
    ensures Entries(R) == Entries(T) && R.Branch?
    ensures i in Entries(T) <==> R.node.key == i
    ensures forall k :: k in Entries(T) ==> !(R.node.key < k < i) && !(i < k < R.node.key)
  {
    EntriesBranch(R);
    EntriesWithin(R.left, -1, i);
    EntriesWithin(R.right, i, TOP);
    var k := R.node.key;
    EntriesWithin(R.left, -1, k);
    EntriesWithin(R.right, k, TOP);
  }

  /** A new key i at the root, with the splayed root on its proper side. */
  ghost function Inserted(S: Tree, n: Node, i: int): Tree
    requires S.Branch?
  {
    if i < S.node.key then Branch(S.left, n, Branch(Leaf, S.node, S.right))
    else Branch(Branch(S.left, S.node, Leaf), n, S.right)
  }

  lemma InsertedEntries(l: map<int, object?>, r: map<int, object?>, k: int, e: object?, i: int, d: object?)
    requires Splits(l, k, r) && Splits(l, i, r) && k != i
    ensures i !in Joined(l, k, e, r)
    ensures Joined(l, k, e, r)[i := d] ==
            if i < k then Joined(l, i, d, Joined(map[], k, e, r)) else Joined(Joined(l, k, e, map[]), i, d, r)
  {
  }

  lemma InsertedOk(S: Tree, T: Tree, n: Node, i: int)
    requires Splayed(S, T, i) && S.Branch? && S.node.key != i && n.key == i && KeyInRange(i)
    ensures Search(Inserted(S, n, i), -1, TOP) && Elems(Inserted(S, n, i)) == Elems(T) + {n}
    ensures i !in Entries(T) && Entries(Inserted(S, n, i)) == Entries(T)[i := n.data]
  {
    assert Entries(T) == Entries(S);
    hide InOrder, EntriesOf, Entries, Joined;
    var R := Inserted(S, n, i);
    var k := S.node.key;
    EntriesBranch(S);
    EntriesBranch(R);
    EntriesBranch(if i < k then R.right else R.left);
    EntriesLeaf();
    EntriesWithin(S.left, -1, i);
    EntriesWithin(S.right, i, TOP);
    EntriesWithin(S.left, -1, k);
    EntriesWithin(S.right, k, TOP);
    assert i < k ==> Search(R.right, i, TOP);
    assert k < i ==> Search(R.left, -1, i);
    assert Elems(R) == Elems(S) + {n} by {
      assert i < k ==> Elems(R.right) == {S.node} + Elems(S.right);
      assert k < i ==> Elems(R.left) == Elems(S.left) + {S.node};
    }
    InsertedEntries(Entries(S.left), Entries(S.right), k, S.node.data, i, n.data);
  }

  lemma SplayedElems(S: Tree, T: Tree, i: int)
    requires Splayed(S, T, i)
    ensures Elems(S) == Elems(T) && Count(S) == Count(T)
  {
    CountIsLength(S);
    CountIsLength(T);
  }

  method Insert(root: Node?, i: int, data: object?, ghost T: Tree) returns (r: Node, ghost R: Tree)
    requires Valid(T, root) && KeyInRange(i)
    modifies Elems(T)
    ensures Valid(R, r) && Elems(T) <= Elems(R) && (forall x :: x in Elems(R) ==> x in Elems(T) || fresh(x))
    ensures R.Branch? && R.node.key == i
    ensures Entries(R) == if i in Entries(T) then Entries(T) else Entries(T)[i := data]
  {
    hide Splayed, Entries;
    var t: Node?, S := root, T;
    NullIsLeaf(T, root, i);
    if t != null {
      t, S := Splay(t, i, T);
      SplayedRoot(S, T, i);
      SplayedElems(S, T, i);
      if Compare(i, t.key) == 0 {
        r, R := t, S;
        return;
      }
    }
    ghost var nodes := Elems(S);
    assert allocated(nodes);
    var n := new Node(i, data);
    if t == null {
      n.size := 1;
      R := Branch(Leaf, n, Leaf);
      SingletonOk(n);
    } else {
      InsertedOk(S, T, n, i);
      AttachRoot(n, t, i, S);
      R := Inserted(S, n, i);
    }
    r := n;
  }

  lemma SingletonOk(n: Node)
    requires KeyInRange(n.key) && n.left == null && n.right == null && n.size == 1
    ensures Valid(Branch(Leaf, n, Leaf), n) && Entries(Branch(Leaf, n, Leaf)) == map[n.key := n.data]
    ensures Entries(Leaf) == map[]
  {
    EntriesBranch(Branch(Leaf, n, Leaf));
  }

  /** The new node takes the splayed root's place; the old root keeps one side. */
  method AttachRoot(n: Node, t: Node, i: int, ghost S: Tree)
    requires Valid(S, t) && S.Branch? && n !in Elems(S) && n.key == i && KeyInRange(i) && KeyInRange(t.key)
    requires Search(Inserted(S, n, i), -1, TOP)
    modifies n, t
    ensures Valid(Inserted(S, n, i), n)
  {
    SearchDisjoint(S, -1, TOP);
    SizeIsCount(S.left, t.left);
    SizeIsCount(S.right, t.right);
    if Compare(i, t.key) < 0 {
      n.left := t.left;
      n.right := t;
      t.left := null;
      t.size := 1 + NodeSize(t.right);
      Closed(Branch(Leaf, t, S.right), t);
    } else {
      n.right := t.right;
      n.left := t;
      t.right := null;
      t.size := 1 + NodeSize(t.left);
      Closed(Branch(S.left, t, Leaf), t);
    }
    n.size := 1 + NodeSize(n.left) + NodeSize(n.right);
  }

  // ---------------------------------------------------------------- deletion

  lemma CountIsLength(t: Tree)
    ensures |InOrder(t)| == Count(t)
  {
  }

  /** Splaying the left side for a key above all of it leaves nothing to the right. */
  lemma NothingAbove(X: Tree, L: Tree, i: int)
    requires Splayed(X, L, i) && L.Branch? && Search(L, -1, i)
    ensures X.Branch? && X.right == Leaf && X.node.key < i && Search(X.left, -1, X.node.key)
    ensures Count(X.left) + 1 == Count(L) && Elems(X.left) <= Elems(L) && X.node in Elems(L)
    ensures Entries(L) == Joined(Entries(X.left), X.node.key, X.node.data, map[])
  {
    if X.right.Branch? {
      KeysWithin(X.right, i, TOP, X.right.node);
      assert X.right.node in Elems(X) && X.right.node in Elems(L);
      KeysWithin(L, -1, i, X.right.node);
    }
    assert X.node in Elems(X);
    KeysWithin(L, -1, i, X.node);
    CountIsLength(X);
    CountIsLength(L);
    EntriesBranch(X);
    EntriesLeaf();
  }

  lemma RemovedEntries(l: map<int, object?>, k: int, e: object?, r: map<int, object?>, i: int, d: object?)
    requires Splits(l, k, r) && k < i && Splits(map[], i, r)
    ensures Joined(Joined(l, k, e, map[]), i, d, r) - {i} == Joined(l, k, e, r)
    ensures Joined(map[], i, d, r) - {i} == r
  {
  }

  lemma RemovedOk(S: Tree, X: Tree, i: int)
    requires S.Branch? && S.node.key == i && Search(S, -1, TOP) && S.left.Branch? && Splayed(X, S.left, i)
    ensures X.Branch? && X.right == Leaf
    ensures var R := Branch(X.left, X.node, S.right);
            Search(R, -1, TOP) && Entries(R) == Entries(S) - {i} && Count(R) == Count(S) - 1
            && Elems(X.left) <= Elems(S.left) && X.node in Elems(S.left)
  {
    hide Entries, Joined, InOrder, EntriesOf;
    NothingAbove(X, S.left, i);
    var k := X.node.key;
    var R := Branch(X.left, X.node, S.right);
    SearchWiden(S.right, i, TOP, k, TOP);
    EntriesBranch(S);
    EntriesBranch(R);
    EntriesWithin(X.left, -1, k);
    EntriesWithin(S.right, i, TOP);
    RemovedEntries(Entries(X.left), k, X.node.data, Entries(S.right), i, S.node.data);
  }

  lemma RemovedLeftless(S: Tree, i: int)
    requires S.Branch? && S.node.key == i && Search(S, -1, TOP) && S.left.Leaf?
    ensures Search(S.right, -1, TOP) && Entries(S.right) == Entries(S) - {i} && Count(S.right) == Count(S) - 1
  {
    hide Entries, InOrder, EntriesOf;
    SearchWiden(S.right, i, TOP, -1, TOP);
    EntriesBranch(S);
    EntriesLeaf();
    EntriesWithin(S.right, i, TOP);
    RemovedEntries(map[], -1, null, Entries(S.right), i, S.node.data);
  }

  lemma ValidParts(S: Tree, t: Node?)
    requires Valid(S, t)
    ensures S.Leaf? <==> t == null
    ensures S.Branch? ==>
      && t == S.node && Valid(S.left, t.left) && Valid(S.right, t.right)
      && t !in Elems(S.left) && t !in Elems(S.right) && Elems(S.left) !! Elems(S.right)
  {
    if S.Branch? {
      SearchDisjoint(S, -1, TOP);
      SearchWiden(S.left, -1, t.key, -1, TOP);
      SearchWiden(S.right, t.key, TOP, -1, TOP);
    }
  }

  /** The found root t leaves the tree: its sides are joined under the largest key of the left one. */
  method RemoveRoot(t: Node, i: int, tSize: int, ghost S: Tree) returns (x: Node?, ghost R: Tree)
    requires Valid(S, t) && S.Branch? && S.node.key == i && KeyInRange(i) && tSize == Count(S)
    modifies Elems(S)
    ensures Valid(R, x) && Elems(R) <= Elems(S) - {t}
    ensures Entries(R) == Entries(S) - {i}
  {
    hide Entries, Splayed, Search, Links, Sized;
    ValidParts(S, t);
    ValidParts(S.left, t.left);
    if t.left == null {
      RemovedLeftless(S, i);
      x, R := t.right, S.right;
      ValidParts(R, x);
    } else {
      ghost var right := S.right;
      ghost var X;
      assert allocated(Elems(right));
      x, X := Splay(t.left, i, S.left);
      assert Links(right, t.right) && Sized(right);
      RemovedOk(S, X, i);
      ValidParts(X, x);
      assert x !in Elems(S.right) && x !in Elems(X.left);
      x.right := t.right;
      R := Branch(X.left, X.node, S.right);
      assert Links(R.left, x.left) && Links(R.right, x.right) && Sized(R.left) && Sized(R.right);
    }
    if x != null {
      x.size := tSize - 1;
      Closed(R, x);
    }
  }

  method Delete(root: Node?, i: int, ghost T: Tree) returns (x: Node?, ghost R: Tree)
    requires Valid(T, root) && KeyInRange(i)
    modifies Elems(T)
    ensures Valid(R, x) && Elems(R) <= Elems(T)
    ensures Entries(R) == Entries(T) - {i}
  {
    hide Entries, Splayed;
    NullIsLeaf(T, root, i);
    if root == null {
      EntriesLeaf();
      return null, Leaf;
    }
    var tSize := root.size;
    SizeIsCount(T, root);
    var t, S := Splay(root, i, T);
    SplayedRoot(S, T, i);
    SplayedElems(S, T, i);
    if Compare(i, t.key) == 0 {
      x, R := RemoveRoot(t, i, tSize, S);
    } else {
      x, R := t, S;
    }
  }

  // ---------------------------------------------------------------- every run

  datatype Op = SplayOp(key: int) | InsertOp(key: int, data: object?) | DeleteOp(key: int)

  /** What a run of operations means for a finite map: inserting never overwrites. */
  ghost function Meaning(ops: seq<Op>): map<int, object?> {
    if ops == [] then map[]
    else
      var m := Meaning(ops[..|ops| - 1]);
      match ops[|ops| - 1]
      case SplayOp(_) => m
      case InsertOp(k, d) => if k in m then m else m[k := d]
      case DeleteOp(k) => m - {k}
  }

  /** Any run of operations from the empty tree keeps the tree valid, gives it the entries of the map,
      and leaves the map's cardinality in the root's size field. */
  method Run(ops: seq<Op>) returns (root: Node?, ghost T: Tree)
    requires forall op :: op in ops ==> KeyInRange(op.key)
    ensures Valid(T, root) && Entries(T) == Meaning(ops) && NodeSize(root) == |Meaning(ops)|
  {
    hide Entries;
    root, T := null, Leaf;
    EntriesLeaf();
    for n := 0 to |ops|
      invariant Valid(T, root) && fresh(Elems(T)) && Entries(T) == Meaning(ops[..n])
    {
      assert ops[..n + 1][..n] == ops[..n];
      ghost var before := T;
      match ops[n]
      case SplayOp(k) =>
        root, T := Splay(root, k, T);
        SplayedElems(T, before, k);
        SplayedEntries(T, before, k);
      case InsertOp(k, d) =>
        root, T := Insert(root, k, d, T);
        assert forall x :: x in Elems(T) ==> fresh(x);
      case DeleteOp(k) => root, T := Delete(root, k, T);
    }
    assert ops[..|ops|] == ops;
    EntriesCount(T, -1, TOP);
    SizeIsCount(T, root);
  }

  lemma SplayedEntries(R: Tree, T: Tree, i: int)
    requires Splayed(R, T, i)
    ensures Entries(R) == Entries(T)
  {
  }
}
