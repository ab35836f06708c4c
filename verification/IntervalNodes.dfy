/** The nodes of the interval tree, and the mathematical trees they spell out.

    A `Tree` is a snapshot of a linked subtree: which node sits where, its colour and its
    `maxHigh` field.  A `Ctx` is the rest of the tree around a subtree (a path from that subtree
    up to the sentinel), so that every pointer move of the source is a move of the pair
    (context, subtree).  Everything in this module is independent of the heap: `key`, `high` and
    `interval` of a node never change after construction. */
module IntervalNodes {
  import opened Powers

  const MAX_TIME: int := 0x7FFF_FFFF_FFFF_FFFF

  /** Simulation time: a signed 64-bit tick count whose extreme values are +/- MAX_TIME. */
  type Time = t: int | -MAX_TIME <= t <= MAX_TIME

  class Interval {
    const low: Time
    const high: Time

    constructor (low: Time, high: Time)
      ensures this.low == low && this.high == high
    {
      this.low, this.high := low, high;
    }
  }

  class Node {
    const interval: Interval?
    const key: Time
    const high: Time
    var maxHigh: Time
    var red: bool
    var left: Node
    var right: Node
    var parent: Node

    /** A node for an interval.  Its links are set when it is put into a tree. */
    constructor (i: Interval)
      ensures interval == i && key == i.low && high == i.high && maxHigh == i.high && !red
    {
      interval, key, high, maxHigh, red := i, i.low, i.high, i.high, false;
      left, right, parent := this, this, this;
    }

    /** A sentinel: it stores no interval and all its links lead to itself. */
    constructor Sentinel(t: Time)
      ensures interval == null && key == high == maxHigh == t && !red
      ensures left == right == parent == this
    {
      interval, key, high, maxHigh, red := null, t, t, t, false;
      left, right, parent := this, this, this;
    }
  }

  function Max(a: Time, b: Time): Time {
    if a < b then b else a
  }

  datatype Tree = Leaf | Bin(left: Tree, node: Node, red: bool, mx: Time, right: Tree)

  datatype Ctx =
    | Top
    | InLeft(up: Ctx, node: Node, red: bool, mx: Time, right: Tree)
    | InRight(up: Ctx, left: Tree, node: Node, red: bool, mx: Time)

  // ---------- contents ----------

  function Inorder(t: Tree): seq<Node> {
    match t
    case Leaf => []
    case Bin(l, n, _, _, r) => Inorder(l) + [n] + Inorder(r)
  }

  /** The whole tree: the context with its hole filled by t. */
  function Plug(c: Ctx, t: Tree): Tree {
    match c
    case Top => t
    case InLeft(up, n, red, mx, r) => Plug(up, Bin(t, n, red, mx, r))
    case InRight(up, l, n, red, mx) => Plug(up, Bin(l, n, red, mx, t))
  }

  /** One step of Plug. */
  function Fill(c: Ctx, t: Tree): Tree
    requires !c.Top?
  {
    if c.InLeft? then Bin(t, c.node, c.red, c.mx, c.right) else Bin(c.left, c.node, c.red, c.mx, t)
  }

  function Before(c: Ctx): seq<Node> {
    match c
    case Top => []
    case InLeft(up, _, _, _, _) => Before(up)
    case InRight(up, l, n, _, _) => Before(up) + Inorder(l) + [n]
  }

  function After(c: Ctx): seq<Node> {
    match c
    case Top => []
    case InLeft(up, n, _, _, r) => [n] + Inorder(r) + After(up)
    case InRight(up, _, _, _, _) => After(up)
  }

  lemma PlugGrouped(a: seq<Node>, b: seq<Node>, d: seq<Node>, e: seq<Node>)
    ensures a + (b + d) + e == a + b + (d + e) == (a + b) + d + e
  {
  }

  lemma {:induction false} PlugInorder(c: Ctx, t: Tree)
    ensures Inorder(Plug(c, t)) == Before(c) + Inorder(t) + After(c)
  {
    match c
    case Top => assert Inorder(t) == [] + Inorder(t) + [];
    case InLeft(up, n, red, mx, r) =>
      PlugInorder(up, Bin(t, n, red, mx, r));
      PlugGrouped(Before(up), Inorder(t), [n] + Inorder(r), After(up));
      assert Inorder(t) + [n] + Inorder(r) == Inorder(t) + ([n] + Inorder(r));
    case InRight(up, l, n, red, mx) =>
      PlugInorder(up, Bin(l, n, red, mx, t));
      PlugGrouped(Before(up), Inorder(l) + [n], Inorder(t), After(up));
      assert Before(up) + Inorder(l) + [n] == Before(up) + (Inorder(l) + [n]);
  }

  // ---------- key order ----------

  predicate Sorted(s: seq<Node>) {
    forall i, j :: 0 <= i < j < |s| ==> s[i].key <= s[j].key
  }

  /** A key k may be put into the hole of c. */
  predicate Fits(c: Ctx, k: Time) {
    (forall n | n in Before(c) :: n.key <= k) && forall n | n in After(c) :: k < n.key
  }

  lemma FitsLeft(c: Ctx, t: Tree, k: Time)
    requires Sorted(Inorder(Plug(c, t))) && t.Bin? && Fits(c, k) && k < t.node.key
    ensures Fits(InLeft(c, t.node, t.red, t.mx, t.right), k)
  {
    PlugInorder(c, t);
    var s, r := Inorder(Plug(c, t)), Inorder(t.right);
    var i := |Before(c)| + |Inorder(t.left)|;
    assert s[i] == t.node;
    forall n | n in r ensures k < n.key {
      var j :| 0 <= j < |r| && r[j] == n;
      assert s[i + 1 + j] == n;
    }
  }

  lemma FitsRight(c: Ctx, t: Tree, k: Time)
    requires Sorted(Inorder(Plug(c, t))) && t.Bin? && Fits(c, k) && t.node.key <= k
    ensures Fits(InRight(c, t.left, t.node, t.red, t.mx), k)
  {
    PlugInorder(c, t);
    var s, l := Inorder(Plug(c, t)), Inorder(t.left);
    var i := |Before(c)| + |l|;
    assert s[i] == t.node;
    forall n | n in l ensures n.key <= k {
      var j :| 0 <= j < |l| && l[j] == n;
      assert s[|Before(c)| + j] == n;
    }
  }

  lemma SortedInsert(a: seq<Node>, z: Node, b: seq<Node>)
    requires Sorted(a + b) && (forall n | n in a :: n.key <= z.key) && (forall n | n in b :: z.key < n.key)
    ensures Sorted(a + [z] + b)
  {
    var s, s' := a + b, a + [z] + b;
    forall i, j | 0 <= i < j < |s'| ensures s'[i].key <= s'[j].key {
      if j == |a| {
        assert s'[i] == a[i] && a[i] in a;
      } else if i == |a| {
        assert s'[j] == b[j - |a| - 1] && b[j - |a| - 1] in b;
      } else {
        assert s'[i] == s[if i < |a| then i else i - 1] && s'[j] == s[if j < |a| then j else j - 1];
      }
    }
  }

  /** s' is s with z at position k, behind all keys that are not greater. */
  ghost predicate Inserted(s: seq<Node>, k: nat, z: Node, s': seq<Node>) {
    && k <= |s| && s' == s[..k] + [z] + s[k..] && Sorted(s')
    && (forall n | n in s[..k] :: n.key <= z.key) && (forall n | n in s[k..] :: z.key < n.key)
  }

  lemma InsertedSorted(c: Ctx, t: Tree, z: Node)
    requires Sorted(Inorder(Plug(c, Leaf))) && Fits(c, z.key) && Inorder(t) == [z]
    ensures Inserted(Inorder(Plug(c, Leaf)), |Before(c)|, z, Inorder(Plug(c, t)))
  {
    PlugInorder(c, Leaf);
    PlugInorder(c, t);
    var s, k := Inorder(Plug(c, Leaf)), |Before(c)|;
    assert s == Before(c) + After(c);
    assert s[..k] == Before(c) && s[k..] == After(c);
    SortedInsert(Before(c), z, After(c));
  }

  // ---------- red-black balance ----------

  predicate Red(t: Tree) { t.Bin? && t.red }

  /** No red node has a red child, and every path from t to a leaf has exactly bh black nodes. */
  predicate RedBlack(t: Tree, bh: nat) {
    match t
    case Leaf => bh == 0
    case Bin(l, _, red, _, r) =>
      if red then !Red(l) && !Red(r) && RedBlack(l, bh) && RedBlack(r, bh)
      else bh > 0 && RedBlack(l, bh - 1) && RedBlack(r, bh - 1)
  }

  /** Filling the hole of c with a subtree of black height bh whose root is red (or black) gives
      a red-black tree with a black root. */
  predicate CtxRedBlack(c: Ctx, bh: nat, red: bool) {
    match c
    case Top => !red
    case InLeft(up, _, nred, _, r) =>
      RedBlack(r, bh) && (nred ==> !red && !Red(r)) && CtxRedBlack(up, if nred then bh else bh + 1, nred)
    case InRight(up, l, _, nred, _) =>
      RedBlack(l, bh) && (nred ==> !red && !Red(l)) && CtxRedBlack(up, if nred then bh else bh + 1, nred)
  }

  function BlackHeight(t: Tree): nat {
    if t.Leaf? then 0 else BlackHeight(t.left) + if t.red then 0 else 1
  }

  predicate Balanced(t: Tree) {
    !Red(t) && RedBlack(t, BlackHeight(t))
  }

  lemma {:induction false} BlackHeightUnique(t: Tree, bh: nat)
    requires RedBlack(t, bh)
    ensures bh == BlackHeight(t)
  {
    if t.Bin? { BlackHeightUnique(t.left, if t.red then bh else bh - 1); }
  }

  lemma {:induction false} PlugBalanced(c: Ctx, t: Tree, bh: nat)
    requires CtxRedBlack(c, bh, Red(t)) && RedBlack(t, bh)
    ensures Balanced(Plug(c, t))
  {
    match c
    case Top => BlackHeightUnique(t, bh);
    case InLeft(up, n, red, mx, r) => PlugBalanced(up, Bin(t, n, red, mx, r), if red then bh else bh + 1);
    case InRight(up, l, n, red, mx) => PlugBalanced(up, Bin(l, n, red, mx, t), if red then bh else bh + 1);
  }

  lemma {:induction false} SplitBalanced(c: Ctx, t: Tree)
    requires Balanced(Plug(c, t))
    ensures RedBlack(t, BlackHeight(t)) && CtxRedBlack(c, BlackHeight(t), Red(t))
  {
    if !c.Top? {
      var f := Fill(c, t);
      SplitBalanced(c.up, f);
      var bh := if f.red then BlackHeight(f) else BlackHeight(f) - 1;
      BlackHeightUnique(t, bh);
    }
  }

  // ---------- maximal upper ends ----------

  function Mx(t: Tree): Time { if t.Leaf? then -MAX_TIME else t.mx }

  /** Every node's mx is the maximum over its own upper end and those of its two subtrees. */
  predicate Exact(t: Tree) {
    t.Bin? ==> t.mx == Max(Mx(t.left), Max(Mx(t.right), t.node.high)) && Exact(t.left) && Exact(t.right)
  }

  predicate CtxExact(c: Ctx, m: Time) {
    match c
    case Top => true
    case InLeft(up, n, _, mx, r) => Exact(r) && mx == Max(m, Max(Mx(r), n.high)) && CtxExact(up, mx)
    case InRight(up, l, n, _, mx) => Exact(l) && mx == Max(Mx(l), Max(m, n.high)) && CtxExact(up, mx)
  }

  lemma {:induction false} PlugExact(c: Ctx, t: Tree)
    requires Exact(t) && CtxExact(c, Mx(t))
    ensures Exact(Plug(c, t))
  {
    match c
    case Top =>
    case InLeft(up, n, red, mx, r) => PlugExact(up, Bin(t, n, red, mx, r));
    case InRight(up, l, n, red, mx) => PlugExact(up, Bin(l, n, red, mx, t));
  }

  lemma {:induction false} SplitExact(c: Ctx, t: Tree)
    requires Exact(Plug(c, t))
    ensures Exact(t) && CtxExact(c, Mx(t)) && SidesExact(c)
  {
    if !c.Top? { SplitExact(c.up, Fill(c, t)); }
  }

  /** c with every mx recomputed from the hole upwards, where m is the maximum in the hole. */
  function Refit(c: Ctx, m: Time): Ctx {
    match c
    case Top => Top
    case InLeft(up, n, red, _, r) =>
      var mx := Max(m, Max(Mx(r), n.high));
      InLeft(Refit(up, mx), n, red, mx, r)
    case InRight(up, l, n, red, _) =>
      var mx := Max(Mx(l), Max(m, n.high));
      InRight(Refit(up, mx), l, n, red, mx)
  }

  /** The subtrees beside the path of c are exact. */
  predicate SidesExact(c: Ctx) {
    c.Top? || (SidesExact(c.up) && if c.InLeft? then Exact(c.right) else Exact(c.left))
  }

  lemma {:induction false} RefitExact(c: Ctx, m: Time)
    requires SidesExact(c)
    ensures CtxExact(Refit(c, m), m)
  {
    if !c.Top? { RefitExact(c.up, Refit(c, m).mx); }
  }

  lemma {:induction false} RefitKeeps(c: Ctx, m: Time, bh: nat, red: bool)
    ensures Before(Refit(c, m)) == Before(c) && After(Refit(c, m)) == After(c)
    ensures CtxRedBlack(Refit(c, m), bh, red) == CtxRedBlack(c, bh, red)
  {
    if !c.Top? { RefitKeeps(c.up, Refit(c, m).mx, if c.red then bh else bh + 1, c.red); }
  }

  // ---------- how a heap spells out a tree ----------

  /** The mutable fields of one node. */
  datatype Cell = Cell(left: Node, right: Node, parent: Node, red: bool, mx: Time)

  type Cells = map<Node, Cell>

  /** What stays fixed while a tree is rearranged: its two sentinels, and a rank for each node that
      increases from left to right.  Ranks tell the nodes of different subtrees apart, because the
      ranks in a subtree stay between two bounds. */
  datatype Base = Base(nil: Node, root: Node, rank: map<Node, real>) {

    function Rank(n: Node): real { if n in rank then rank[n] else 0.0 }

    function Ptr(t: Tree): Node { if t.Leaf? then nil else t.node }

    function Parent(c: Ctx): Node { if c.Top? then root else c.node }

    function Lo(c: Ctx): real {
      match c
      case Top => 0.0
      case InLeft(up, _, _, _, _) => Lo(up)
      case InRight(_, _, n, _, _) => Rank(n)
    }

    function Hi(c: Ctx): real {
      match c
      case Top => 1.0
      case InLeft(_, n, _, _, _) => Rank(n)
      case InRight(up, _, _, _, _) => Hi(up)
    }

    /** The cells below p spell out t, with all ranks strictly between lo and hi. */
    predicate Rep(h: Cells, t: Tree, p: Node, lo: real, hi: real) {
      t.Bin? ==>
        && t.node in h && lo < Rank(t.node) < hi
        && h[t.node] == Cell(Ptr(t.left), Ptr(t.right), p, t.red, t.mx)
        && Rep(h, t.left, t.node, lo, Rank(t.node)) && Rep(h, t.right, t.node, Rank(t.node), hi)
    }

    /** The cells around the pointer x spell out c. */
    predicate CtxRep(h: Cells, c: Ctx, x: Node) {
      match c
      case Top => root in h && h[root].left == x
      case InLeft(up, n, red, mx, r) =>
        && n in h && Lo(up) < Rank(n) < Hi(up) && h[n] == Cell(x, Ptr(r), Parent(up), red, mx)
        && Rep(h, r, n, Rank(n), Hi(up)) && CtxRep(h, up, n)
      case InRight(up, l, n, red, mx) =>
        && n in h && Lo(up) < Rank(n) < Hi(up) && h[n] == Cell(Ptr(l), x, Parent(up), red, mx)
        && Rep(h, l, n, Lo(up), Rank(n)) && CtxRep(h, up, n)
    }

    predicate Wf(h: Cells) {
      nil != root && nil !in h && root in h && Rank(root) == 0.0
    }

    /** The cells hold the tree Plug(c, t), seen from the subtree t. */
    predicate At(h: Cells, c: Ctx, t: Tree) {
      Wf(h) && CtxRep(h, c, Ptr(t)) && Rep(h, t, Parent(c), Lo(c), Hi(c))
    }

    predicate Inside(touched: set<Node>, lo: real, hi: real) {
      forall n | n in touched && n != nil :: lo < Rank(n) < hi
    }

    predicate Outside(touched: set<Node>, lo: real, hi: real) {
      forall n | n in touched && n != nil :: Rank(n) <= lo || hi <= Rank(n)
    }

    lemma {:induction false} Kept(h: Cells, h': Cells, t: Tree, p: Node, lo: real, hi: real, touched: set<Node>)
      requires Rep(h, t, p, lo, hi) && nil !in h && SameOff(h, h', touched) && Outside(touched, lo, hi)
      ensures Rep(h', t, p, lo, hi)
    {
      if t.Bin? {
        Kept(h, h', t.left, t.node, lo, Rank(t.node), touched);
        Kept(h, h', t.right, t.node, Rank(t.node), hi, touched);
      }
    }

    lemma {:induction false} CtxKept(h: Cells, h': Cells, c: Ctx, x: Node, touched: set<Node>)
      requires Wf(h) && CtxRep(h, c, x) && SameOff(h, h', touched) && Inside(touched, Lo(c), Hi(c))
      ensures CtxRep(h', c, x)
    {
      match c
      case Top =>
      case InLeft(up, n, _, _, r) =>
        Kept(h, h', r, n, Rank(n), Hi(up), touched);
        CtxKept(h, h', up, n, touched);
      case InRight(up, l, n, _, _) =>
        Kept(h, h', l, n, Lo(up), Rank(n), touched);
        CtxKept(h, h', up, n, touched);
    }

    /** Only the link to its parent changes at the root of t. */
    lemma Moved(h: Cells, h': Cells, t: Tree, p: Node, q: Node, lo: real, hi: real, touched: set<Node>)
      requires Rep(h, t, p, lo, hi) && nil !in h && SameOff(h, h', touched)
      requires t.Bin? ==> h'[t.node] == h[t.node].(parent := q)
      requires t.Bin? ==> Outside(touched - {t.node}, lo, hi)
      ensures Rep(h', t, q, lo, hi)
    {
      if t.Bin? {
        Kept(h, h', t.left, t.node, lo, Rank(t.node), touched);
        Kept(h, h', t.right, t.node, Rank(t.node), hi, touched);
      }
    }

    /** Only the hole of c is filled with another pointer. */
    lemma Refilled(h: Cells, h': Cells, c: Ctx, x: Node, y: Node, touched: set<Node>)
      requires Wf(h) && CtxRep(h, c, x) && SameOff(h, h', touched)
      requires Inside(touched - {Parent(c)}, Lo(c), Hi(c))
      requires Parent(c) in h
      requires var p := Parent(c); h'[p] == if c.InRight? then h[p].(right := y) else h[p].(left := y)
      ensures CtxRep(h', c, y)
    {
      match c
      case Top =>
      case InLeft(up, n, _, _, r) =>
        Kept(h, h', r, n, Rank(n), Hi(up), touched);
        CtxKept(h, h', up, n, touched);
      case InRight(up, l, n, _, _) =>
        Kept(h, h', l, n, Lo(up), Rank(n), touched);
        CtxKept(h, h', up, n, touched);
    }

    /** What a left rotation at t.node reads, and which of the nodes it touches may coincide. */
    lemma RotLShape(h: Cells, c: Ctx, t: Tree)
      requires At(h, c, t) && t.Bin? && t.right.Bin?
      ensures
        var x, y, p, a, b, d := t.node, t.right.node, Parent(c), Ptr(t.left), Ptr(t.right.left), Ptr(t.right.right);
        && x in h && y in h && p in h && nil !in h
        && h[x] == Cell(a, y, p, t.red, t.mx) && h[y] == Cell(b, d, x, t.right.red, t.right.mx)
        && (a != nil ==> a in h && h[a].mx == Mx(t.left)) && (a == nil ==> t.left.Leaf?)
        && (b != nil ==> b in h && h[b].mx == Mx(t.right.left)) && (b == nil ==> t.right.left.Leaf?)
        && (d != nil ==> d in h && h[d].mx == Mx(t.right.right)) && (d == nil ==> t.right.right.Leaf?)
        && x !in {y, p, a, b, d} && y !in {p, a, b, d} && p !in {a, b, d}
        && (if c.InRight? then h[p].right == x != h[p].left else h[p].left == x)
        && (p != root || c.Top?) && x != root && y != root && b != root
    {
      var b, d := t.right.left, t.right.right;
      assert Rep(h, t.right, t.node, Rank(t.node), Hi(c));
      assert Rep(h, b, t.right.node, Rank(t.node), Rank(t.right.node));
      assert Rep(h, d, t.right.node, Rank(t.right.node), Hi(c));
      assert Rep(h, t.left, t.node, Lo(c), Rank(t.node));
      assert CtxRep(h, c, t.node);
      assert c.InRight? ==> Rep(h, c.left, c.node, Lo(c.up), Rank(c.node));
      LoNonNeg(h, c, t.node);
    }

    lemma RotRShape(h: Cells, c: Ctx, t: Tree)
      requires At(h, c, t) && t.Bin? && t.left.Bin?
      ensures
        var y, x, p, a, b, d := t.node, t.left.node, Parent(c), Ptr(t.left.left), Ptr(t.left.right), Ptr(t.right);
        && x in h && y in h && p in h && nil !in h
        && h[y] == Cell(x, d, p, t.red, t.mx) && h[x] == Cell(a, b, y, t.left.red, t.left.mx)
        && (a != nil ==> a in h && h[a].mx == Mx(t.left.left)) && (a == nil ==> t.left.left.Leaf?)
        && (b != nil ==> b in h && h[b].mx == Mx(t.left.right)) && (b == nil ==> t.left.right.Leaf?)
        && (d != nil ==> d in h && h[d].mx == Mx(t.right)) && (d == nil ==> t.right.Leaf?)
        && x !in {y, p, a, b, d} && y !in {p, a, b, d} && p !in {a, b, d}
        && (if c.InRight? then h[p].right == y != h[p].left else h[p].left == y)
        && (p != root || c.Top?) && x != root && y != root && b != root
    {
      var a, b := t.left.left, t.left.right;
      assert Rep(h, t.left, t.node, Lo(c), Rank(t.node));
      assert Rep(h, b, t.left.node, Rank(t.left.node), Rank(t.node));
      assert Rep(h, a, t.left.node, Lo(c), Rank(t.left.node));
      assert Rep(h, t.right, t.node, Rank(t.node), Hi(c));
      assert CtxRep(h, c, t.node);
      assert c.InRight? ==> Rep(h, c.left, c.node, Lo(c.up), Rank(c.node));
      LoNonNeg(h, c, t.node);
    }

    lemma {:induction false} LoNonNeg(h: Cells, c: Ctx, x: Node)
      requires CtxRep(h, c, x)
      ensures 0.0 <= Lo(c) && (c.Top? || Rank(Parent(c)) > 0.0)
    {
      if !c.Top? { LoNonNeg(h, c.up, c.node); }
    }

    lemma RotLRep(h: Cells, h': Cells, c: Ctx, t: Tree)
      requires At(h, c, t) && t.Bin? && t.right.Bin?
      requires
        var x, y, p, b, t' := t.node, t.right.node, Parent(c), t.right.left, RotL(t);
        && SameOff(h, h', {x, y, p, Ptr(b)})
        && x in h && y in h && p in h && (b.Bin? ==> b.node in h)
        && h'[x] == Cell(Ptr(t.left), Ptr(b), y, t.red, t'.left.mx)
        && h'[y] == Cell(x, Ptr(t.right.right), p, t'.red, t'.mx)
        && h'[p] == (if c.InRight? then h[p].(right := y) else h[p].(left := y))
        && (b.Bin? ==> h'[b.node] == h[b.node].(parent := x))
      ensures At(h', c, RotL(t))
    {
      RotLApart(h, c, t);
      RotLBelow(h, h', c, t);
      RotAround(h, h', c, t, RotL(t), {t.node, t.right.node, Parent(c), Ptr(t.right.left)});
    }

    /** The three subtrees that a left rotation keeps, and the ranks of the nodes it touches. */
    lemma RotLApart(h: Cells, c: Ctx, t: Tree)
      requires At(h, c, t) && t.Bin? && t.right.Bin?
      ensures
        var x, y, b, lo, hi := t.node, t.right.node, t.right.left, Lo(c), Hi(c);
        var touched := {x, y, Parent(c), Ptr(b)};
        && lo < Rank(x) < Rank(y) < hi && nil !in h
        && Rep(h, t.left, x, lo, Rank(x)) && Outside(touched, lo, Rank(x))
        && Rep(h, b, y, Rank(x), Rank(y)) && Outside(touched - {Ptr(b)}, Rank(x), Rank(y))
        && Rep(h, t.right.right, y, Rank(y), hi) && Outside(touched, Rank(y), hi)
      ensures Inside({t.node, t.right.node, Ptr(t.right.left)}, Lo(c), Hi(c))
    {
      assert Outside({Parent(c)}, Lo(c), Hi(c));
      assert Rep(h, t.right, t.node, Rank(t.node), Hi(c));
      assert Rep(h, t.right.left, t.right.node, Rank(t.node), Rank(t.right.node));
    }

    /** The rotated subtree itself. */
    lemma RotLBelow(h: Cells, h': Cells, c: Ctx, t: Tree)
      requires At(h, c, t) && t.Bin? && t.right.Bin?
      requires
        var x, y, b, t' := t.node, t.right.node, t.right.left, RotL(t);
        && SameOff(h, h', {x, y, Parent(c), Ptr(b)}) && x in h && y in h && (b.Bin? ==> b.node in h)
        && h'[x] == Cell(Ptr(t.left), Ptr(b), y, t.red, t'.left.mx)
        && h'[y] == Cell(x, Ptr(t.right.right), Parent(c), t'.red, t'.mx)
        && (b.Bin? ==> h'[b.node] == h[b.node].(parent := x))
      ensures Rep(h', RotL(t), Parent(c), Lo(c), Hi(c))
    {
      var x, y, p, a, b, d := t.node, t.right.node, Parent(c), t.left, t.right.left, t.right.right;
      var lo, hi := Lo(c), Hi(c);
      var touched := {x, y, p, Ptr(b)};
      hide At, CtxRep, SameOff, Outside, Inside;
      RotLApart(h, c, t);
      Kept(h, h', a, x, lo, Rank(x), touched);
      Kept(h, h', d, y, Rank(y), hi, touched);
      Moved(h, h', b, y, x, Rank(x), Rank(y), touched);
    }

    /** The tree around a subtree t that t' replaces. */
    lemma RotAround(h: Cells, h': Cells, c: Ctx, t: Tree, t': Tree, touched: set<Node>)
      requires At(h, c, t) && t.Bin? && t'.Bin? && Parent(c) in h && SameOff(h, h', touched)
      requires Inside(touched - {Parent(c)}, Lo(c), Hi(c)) && Rep(h', t', Parent(c), Lo(c), Hi(c))
      requires var p, y := Parent(c), t'.node; h'[p] == if c.InRight? then h[p].(right := y) else h[p].(left := y)
      ensures At(h', c, t')
    {
      hide Rep, CtxRep, Rank;
      Refilled(h, h', c, t.node, t'.node, touched);
    }

    lemma RotRRep(h: Cells, h': Cells, c: Ctx, t: Tree)
      requires At(h, c, t) && t.Bin? && t.left.Bin?
      requires
        var y, x, p, b, t' := t.node, t.left.node, Parent(c), t.left.right, RotR(t);
        && SameOff(h, h', {y, x, p, Ptr(b)})
        && x in h && y in h && p in h && (b.Bin? ==> b.node in h)
        && h'[y] == Cell(Ptr(b), Ptr(t.right), x, t.red, t'.right.mx)
        && h'[x] == Cell(Ptr(t.left.left), y, p, t'.red, t'.mx)
        && h'[p] == (if c.InRight? then h[p].(right := x) else h[p].(left := x))
        && (b.Bin? ==> h'[b.node] == h[b.node].(parent := y))
      ensures At(h', c, RotR(t))
    {
      RotRApart(h, c, t);
      RotRBelow(h, h', c, t);
      RotAround(h, h', c, t, RotR(t), {t.node, t.left.node, Parent(c), Ptr(t.left.right)});
    }

    lemma RotRApart(h: Cells, c: Ctx, t: Tree)
      requires At(h, c, t) && t.Bin? && t.left.Bin?
      ensures
        var y, x, b, lo, hi := t.node, t.left.node, t.left.right, Lo(c), Hi(c);
        var touched := {y, x, Parent(c), Ptr(b)};
        && lo < Rank(x) < Rank(y) < hi && nil !in h
        && Rep(h, t.left.left, x, lo, Rank(x)) && Outside(touched, lo, Rank(x))
        && Rep(h, b, x, Rank(x), Rank(y)) && Outside(touched - {Ptr(b)}, Rank(x), Rank(y))
        && Rep(h, t.right, y, Rank(y), hi) && Outside(touched, Rank(y), hi)
      ensures Inside({t.node, t.left.node, Ptr(t.left.right)}, Lo(c), Hi(c))
    {
      assert Outside({Parent(c)}, Lo(c), Hi(c));
      assert Rep(h, t.left, t.node, Lo(c), Rank(t.node));
      assert Rep(h, t.left.right, t.left.node, Rank(t.left.node), Rank(t.node));
    }

    lemma RotRBelow(h: Cells, h': Cells, c: Ctx, t: Tree)
      requires At(h, c, t) && t.Bin? && t.left.Bin?
      requires
        var y, x, b, t' := t.node, t.left.node, t.left.right, RotR(t);
        && SameOff(h, h', {y, x, Parent(c), Ptr(b)}) && x in h && y in h && (b.Bin? ==> b.node in h)
        && h'[y] == Cell(Ptr(b), Ptr(t.right), x, t.red, t'.right.mx)
        && h'[x] == Cell(Ptr(t.left.left), y, Parent(c), t'.red, t'.mx)
        && (b.Bin? ==> h'[b.node] == h[b.node].(parent := y))
      ensures Rep(h', RotR(t), Parent(c), Lo(c), Hi(c))
    {
      var y, x, p, a, b, d := t.node, t.left.node, Parent(c), t.left.left, t.left.right, t.right;
      var lo, hi := Lo(c), Hi(c);
      var touched := {y, x, p, Ptr(b)};
      hide At, CtxRep, SameOff, Outside, Inside;
      RotRApart(h, c, t);
      Kept(h, h', a, x, lo, Rank(x), touched);
      Kept(h, h', d, y, Rank(y), hi, touched);
      Moved(h, h', b, x, y, Rank(x), Rank(y), touched);
    }

    /** Moving the focus one step up or down. */
    lemma Zip(h: Cells, c: Ctx, t: Tree)
      requires !c.Top?
      ensures At(h, c, t) <==> At(h, c.up, Fill(c, t))
    {
    }

    /** The cell of the node in focus, and of the node above it. */
    lemma Look(h: Cells, c: Ctx, t: Tree)
      requires At(h, c, t) && t.Bin?
      ensures t.node in h && t.node != root && t.node != nil
      ensures h[t.node] == Cell(Ptr(t.left), Ptr(t.right), Parent(c), t.red, t.mx)
    {
      assert CtxRep(h, c, t.node);
      LoNonNeg(h, c, t.node);
    }

    lemma RootNode(h: Cells, c: Ctx, t: Tree)
      requires At(h, c, t)
      ensures root in h && h[root].left == Ptr(Plug(c, t))
    {
      ZipAll(h, c, t);
      LookRoot(h, Plug(c, t));
    }

    /** The colour of the node in focus, whether it is the root, and on which side of its parent it is. */
    lemma LookX(h: Cells, c: Ctx, t: Tree)
      requires At(h, c, t)
      ensures root in h && nil !in h && (t.Bin? ==> t.node in h && h[t.node].red == t.red && t.node !in {root, nil})
      ensures h[root].left == Ptr(t) <==> c.Top?
      ensures !c.Top? ==> c.node in h && c.node !in {root, nil}
      ensures c.InLeft? ==> h[c.node].left == Ptr(t)
      ensures c.InRight? && h[c.node].left == Ptr(t) ==> t.Leaf? && c.left.Leaf?
    {
      RootNode(h, c, t);
      if t.Bin? { Look(h, c, t); }
      if !c.Top? {
        Zip(h, c, t);
        Look(h, c.up, Fill(c, t));
        if c.InRight? { LookSiblingRight(h, c, t); }
        PlugNode(c, t, t);
        ZipAll(h, c, t);
        Look(h, Top, Plug(c, t));
      }
    }

    /** On which side of its parent the node in focus is. */
    lemma LookSide(h: Cells, c: Ctx, t: Tree)
      requires At(h, c, t) && t.Bin?
      ensures Parent(c) in h && h[t.node].parent == Parent(c) && t.node != Parent(c)
      ensures c.InLeft? ==> h[c.node].left == t.node && h[c.node].right != t.node
      ensures c.InRight? ==> h[c.node].right == t.node && h[c.node].left != t.node
    {
      LookX(h, c, t);
      Look(h, c, t);
      if c.InLeft? { LookSiblingLeft(h, c, t); }
      if c.InRight? { LookSiblingRight(h, c, t); }
    }

    /** The children of t are different from each other and from the parent of t. */
    lemma Apart(h: Cells, c: Ctx, t: Tree)
      requires At(h, c, t) && t.Bin?
      ensures t.left.Bin? ==> t.left.node != Parent(c) && t.left.node != Ptr(t.right)
      ensures t.right.Bin? ==> t.right.node != Parent(c)
    {
      LoNonNeg(h, c, t.node);
      assert Rep(h, t.left, t.node, Lo(c), Rank(t.node)) && Rep(h, t.right, t.node, Rank(t.node), Hi(c));
    }

    /** A node whose rank is between those of t.node and of the nodes to the right of it. */
    lemma YApart(h: Cells, c: Ctx, t: Tree, y: Node)
      requires At(h, c, t) && t.Bin? && Rep(h, t.right, t.node, Rank(y), Hi(c)) && Rank(t.node) < Rank(y) < Hi(c)
      ensures y !in {t.node, Parent(c), Ptr(t.left), Ptr(t.right)} || y == nil
    {
      LoNonNeg(h, c, t.node);
      assert Rep(h, t.left, t.node, Lo(c), Rank(t.node));
    }

    /** The child links and maxima at and below t.node; nothing is said about the way up. */
    predicate Spells(h: Cells, t: Tree) {
      t.Bin? ==>
        && t.node in h && t.node != nil && h[t.node].left == Ptr(t.left) && h[t.node].right == Ptr(t.right)
        && (t.left.Bin? ==> t.left.node in h && h[t.left.node].mx == t.left.mx)
        && Spells(h, t.left) && Spells(h, t.right)
    }

    lemma {:induction false} RepSpells(h: Cells, t: Tree, p: Node, lo: real, hi: real)
      requires Rep(h, t, p, lo, hi) && nil !in h
      ensures Spells(h, t)
    {
      if t.Bin? {
        RepSpells(h, t.left, t.node, lo, Rank(t.node));
        RepSpells(h, t.right, t.node, Rank(t.node), hi);
      }
    }

    lemma WholeSpells(h: Cells, t: Tree)
      requires At(h, Top, t)
      ensures Spells(h, t) && root in h && h[root].left == Ptr(t) && root != nil
      ensures t.Bin? ==> t.node in h && h[t.node].mx == t.mx
    {
      RepSpells(h, t, root, 0.0, 1.0);
    }

    lemma StartQuery(h: Cells, t: Tree)
      requires At(h, Top, t)
      ensures Spells(h, t) && root in h && h[root].left == Ptr(t) && (Ptr(t) == nil ==> t == Leaf)
    {
      WholeSpells(h, t);
    }

    predicate Increasing(s: seq<Node>, lo: real, hi: real) {
      && (forall i :: 0 <= i < |s| ==> lo < Rank(s[i]) < hi)
      && (forall i, j :: 0 <= i < j < |s| ==> Rank(s[i]) < Rank(s[j]))
    }

    lemma IncreasingConcat(l: seq<Node>, n: Node, r: seq<Node>, lo: real, hi: real)
      requires lo < Rank(n) < hi && Increasing(l, lo, Rank(n)) && Increasing(r, Rank(n), hi)
      ensures Increasing(l + [n] + r, lo, hi)
    {
      var s := l + [n] + r;
      forall i | 0 <= i < |s| ensures lo < Rank(s[i]) < hi {
        if i < |l| { assert s[i] == l[i]; } else if i > |l| { assert s[i] == r[i - |l| - 1]; }
      }
      forall i, j | 0 <= i < j < |s| ensures Rank(s[i]) < Rank(s[j]) {
        if i < |l| { assert s[i] == l[i]; } else if i > |l| { assert s[i] == r[i - |l| - 1]; }
        if j < |l| { assert s[j] == l[j]; } else if j > |l| { assert s[j] == r[j - |l| - 1]; }
      }
    }

    /** Ranks increase along the nodes in order, so no node is there twice. */
    lemma {:induction false} RankOrder(h: Cells, t: Tree, p: Node, lo: real, hi: real)
      requires Rep(h, t, p, lo, hi)
      ensures Increasing(Inorder(t), lo, hi)
      ensures forall i, j :: 0 <= i < j < |Inorder(t)| ==> Inorder(t)[i] != Inorder(t)[j]
    {
      if t.Bin? {
        RankOrder(h, t.left, t.node, lo, Rank(t.node));
        RankOrder(h, t.right, t.node, Rank(t.node), hi);
        IncreasingConcat(Inorder(t.left), t.node, Inorder(t.right), lo, hi);
      }
    }

    lemma LookRoot(h: Cells, t: Tree)
      requires At(h, Top, t)
      ensures root in h && h[root].left == Ptr(t)
    {
    }

    lemma LookUp(h: Cells, c: Ctx, t: Tree)
      requires At(h, c, t) && t.Bin?
      ensures t.node in h && h[t.node].parent == Parent(c)
      ensures !c.Top? ==> c.node in h && c.node != root && h[c.node].red == c.red
    {
      Look(h, c, t);
      if !c.Top? {
        Zip(h, c, t);
        Look(h, c.up, Fill(c, t));
      }
    }

    /** The links from t to its grandparent, and the colour of its uncle. */
    lemma LookAbove(h: Cells, c: Ctx, t: Tree)
      requires At(h, c, t) && t.Bin? && !c.Top? && !c.up.Top?
      ensures t.node in h && c.node in h && c.up.node in h
      ensures h[t.node].parent == c.node && h[c.node].parent == c.up.node
      ensures c.InLeft? ==> h[c.node].left == t.node != h[c.node].right
      ensures c.InRight? ==> h[c.node].right == t.node != h[c.node].left
      ensures h[c.up.node].left == c.node <==> c.up.InLeft?
      ensures c.up.InLeft? ==> h[c.up.node].right == Ptr(c.up.right)
                               && (c.up.right.Bin? ==> c.up.right.node in h && h[c.up.right.node].red == c.up.right.red)
      ensures c.up.InRight? ==> h[c.up.node].left == Ptr(c.up.left)
                                && (c.up.left.Bin? ==> c.up.left.node in h && h[c.up.left.node].red == c.up.left.red)
    {
      Look(h, c, t);
      Zip(h, c, t);
      Zip(h, c.up, Fill(c, t));
      LookBelow(h, c.up, Fill(c, t));
      var g := Fill(c.up, Fill(c, t));
      LookBelow(h, c.up.up, g);
      assert Rep(h, g.left, g.node, Lo(c.up.up), Rank(g.node)) && Rep(h, g.right, g.node, Rank(g.node), Hi(c.up.up));
      if c.up.InLeft? && g.right.Bin? { Look(h, InRight(c.up.up, g.left, g.node, g.red, g.mx), g.right); }
      if c.up.InRight? && g.left.Bin? { Look(h, InLeft(c.up.up, g.node, g.red, g.mx, g.right), g.left); }
    }

    /** The nodes at t and just below it, and the links between them. */
    lemma LookBelow(h: Cells, c: Ctx, t: Tree)
      requires At(h, c, t) && t.Bin?
      ensures t.node in h && t.node !in {root, nil} && h[t.node].parent == Parent(c)
      ensures h[t.node].left == Ptr(t.left) && h[t.node].right == Ptr(t.right)
      ensures t.left.Bin? ==> t.left.node in h && t.left.node !in {root, nil, t.node} && h[t.left.node].parent == t.node
      ensures t.right.Bin?
              ==> t.right.node in h && t.right.node !in {root, nil, t.node} && h[t.right.node].parent == t.node
    {
      Look(h, c, t);
      if t.left.Bin? { Look(h, InLeft(c, t.node, t.red, t.mx, t.right), t.left); }
      if t.right.Bin? { Look(h, InRight(c, t.left, t.node, t.red, t.mx), t.right); }
    }

    /** The cells of the sibling and of its children. */
    lemma InnerNodes(h: Cells, c: Ctx, t: Tree)
      requires At(h, c, t) && t.Bin?
      ensures t.node in h && t.node !in {root, nil}
      ensures t.left.Bin? ==> t.left.node in h && t.left.node !in {root, nil, t.node}
      ensures t.right.Bin? ==> t.right.node in h && t.right.node !in {root, nil, t.node}
    {
      hide At;
      LookBelow(h, c, t);
    }

    lemma LookSiblingLeft(h: Cells, c: Ctx, t: Tree)
      requires At(h, c, t) && c.InLeft?
      ensures c.node in h && h[c.node].left == Ptr(t) && h[c.node].right == Ptr(c.right) && c.node !in {root, nil}
      ensures h[c.node].right == Ptr(t) ==> c.right.Leaf? && t.Leaf?
      ensures h[c.node].parent == Parent(c.up)
      ensures c.right.Bin? ==> var w := c.right;
        && w.node in h && h[w.node].red == w.red && h[w.node].left == Ptr(w.left) && h[w.node].right == Ptr(w.right)
        && w.node !in {root, nil}
        && (w.left.Bin? ==> w.left.node in h && h[w.left.node].red == w.left.red)
        && (w.right.Bin? ==> w.right.node in h && h[w.right.node].red == w.right.red)
    {
      var cw := InRight(c.up, t, c.node, c.red, c.mx);
      Zip(h, c, t);
      Zip(h, cw, c.right);
      Look(h, c.up, Fill(c, t));
      assert Rep(h, c.right, c.node, Lo(cw), Hi(cw)) && Rep(h, t, c.node, Lo(c), Hi(c));
      if c.right.Bin? {
        var w := c.right;
        Look(h, cw, w);
        if w.left.Bin? { Look(h, InLeft(cw, w.node, w.red, w.mx, w.right), w.left); }
        if w.right.Bin? { Look(h, InRight(cw, w.left, w.node, w.red, w.mx), w.right); }
      }
    }

    lemma LookSelfLeft(h: Cells, c: Ctx, f: Tree)
      requires At(h, c, f) && f.Bin? && f.left.Bin?
      ensures f.left.node in h && h[f.left.node].red == f.left.red && f.left.node !in {root, nil}
    {
      Look(h, InLeft(c, f.node, f.red, f.mx, f.right), f.left);
    }

    /** The cells of the sibling and of its children. */
    lemma LookSiblingRight(h: Cells, c: Ctx, t: Tree)
      requires At(h, c, t) && c.InRight?
      ensures c.node in h && h[c.node].right == Ptr(t) && h[c.node].left == Ptr(c.left) && c.node !in {root, nil}
      ensures h[c.node].left == Ptr(t) ==> c.left.Leaf? && t.Leaf?
      ensures h[c.node].parent == Parent(c.up)
      ensures c.left.Bin? ==> var w := c.left;
        && w.node in h && h[w.node].red == w.red && h[w.node].left == Ptr(w.left) && h[w.node].right == Ptr(w.right)
        && w.node !in {root, nil}
        && (w.left.Bin? ==> w.left.node in h && h[w.left.node].red == w.left.red)
        && (w.right.Bin? ==> w.right.node in h && h[w.right.node].red == w.right.red)
    {
      var cw := InLeft(c.up, c.node, c.red, c.mx, t);
      Zip(h, c, t);
      Zip(h, cw, c.left);
      Look(h, c.up, Fill(c, t));
      assert Rep(h, c.left, c.node, Lo(cw), Hi(cw)) && Rep(h, t, c.node, Lo(c), Hi(c));
      if c.left.Bin? {
        var w := c.left;
        Look(h, cw, w);
        if w.left.Bin? { Look(h, InLeft(cw, w.node, w.red, w.mx, w.right), w.left); }
        if w.right.Bin? { Look(h, InRight(cw, w.left, w.node, w.red, w.mx), w.right); }
      }
    }

    lemma LookSelfRight(h: Cells, c: Ctx, f: Tree)
      requires At(h, c, f) && f.Bin? && f.right.Bin?
      ensures f.right.node in h && h[f.right.node].red == f.right.red && f.right.node !in {root, nil}
    {
      Look(h, InRight(c, f.left, f.node, f.red, f.mx), f.right);
    }

    lemma {:induction false} ZipAll(h: Cells, c: Ctx, t: Tree)
      ensures At(h, c, t) <==> At(h, Top, Plug(c, t))
    {
      if !c.Top? {
        Zip(h, c, t);
        ZipAll(h, c.up, Fill(c, t));
      }
    }

    /** A node outside the tree gets a cell and a rank. */
    lemma {:induction false} Extended(b': Base, h: Cells, h': Cells, t: Tree, p: Node, lo: real, hi: real, z: Node,
                                      r: real)
      requires Rep(h, t, p, lo, hi) && z !in h && b' == this.(rank := rank[z := r])
      requires h'.Keys == h.Keys + {z} && forall n | n in h :: h'[n] == h[n]
      ensures b'.Rep(h', t, p, lo, hi)
    {
      if t.Bin? {
        assert b'.Rank(t.node) == Rank(t.node);
        Extended(b', h, h', t.left, t.node, lo, Rank(t.node), z, r);
        Extended(b', h, h', t.right, t.node, Rank(t.node), hi, z, r);
      }
    }

    lemma {:induction false} CtxExtended(b': Base, h: Cells, h': Cells, c: Ctx, x: Node, z: Node, r: real)
      requires CtxRep(h, c, x) && z !in h && b' == this.(rank := rank[z := r])
      requires h'.Keys == h.Keys + {z} && forall n | n in h :: h'[n] == h[n]
      ensures b'.CtxRep(h', c, x) && b'.Lo(c) == Lo(c) && b'.Hi(c) == Hi(c)
    {
      if !c.Top? {
        CtxExtended(b', h, h', c.up, c.node, z, r);
        assert b'.Rank(c.node) == Rank(c.node);
        if c.InLeft? {
          Extended(b', h, h', c.right, c.node, Rank(c.node), Hi(c.up), z, r);
        } else {
          Extended(b', h, h', c.left, c.node, Lo(c.up), Rank(c.node), z, r);
        }
      }
    }

    lemma {:induction false} CtxLoBelowHi(h: Cells, c: Ctx, x: Node)
      requires CtxRep(h, c, x)
      ensures Lo(c) < Hi(c)
    {
      if !c.Top? { CtxLoBelowHi(h, c.up, c.node); }
    }

    lemma AtExtended(b': Base, h: Cells, h': Cells, c: Ctx, z: Node, r: real)
      requires At(h, c, Leaf) && z !in h && z != nil && b' == this.(rank := rank[z := r])
      requires h'.Keys == h.Keys + {z} && forall n | n in h :: h'[n] == h[n]
      ensures b'.At(h', c, Leaf) && b'.Lo(c) == Lo(c) && b'.Hi(c) == Hi(c)
    {
      CtxExtended(b', h, h', c, nil, z, r);
    }

    lemma {:induction false} LoBelowHi(h: Cells, c: Ctx)
      requires At(h, c, Leaf)
      ensures Lo(c) < Hi(c) && nil !in h && root in h
    {
      if !c.Top? { assert CtxRep(h, c, nil); }
      CtxLoBelowHi(h, c, nil);
    }

    /** On which side of its parent the hole is can be told from the keys. */
    lemma HoleSide(h: Cells, c: Ctx, z: Node)
      requires At(h, c, Leaf) && Fits(c, z.key) && Lo(c) < Rank(z) < Hi(c)
      ensures Parent(c) in h && nil !in h && (Parent(c) == root <==> c.Top?) && z != Parent(c)
      ensures (c.InLeft? ==> c.node.key > z.key) && (c.InRight? ==> c.node.key <= z.key)
    {
      LoNonNeg(h, c, nil);
      assert c.InLeft? ==> c.node == After(c)[0];
      assert c.InRight? ==> c.node == Before(c)[|Before(c)| - 1];
    }

    /** A node is put into the empty hole of c. */
    lemma Linked(h: Cells, h': Cells, c: Ctx, z: Node, red: bool, mx: Time)
      requires At(h, c, Leaf) && z in h && Lo(c) < Rank(z) < Hi(c) && Parent(c) in h && z != Parent(c)
      requires SameOff(h, h', {z, Parent(c)}) && h'[z] == Cell(nil, nil, Parent(c), red, mx)
      requires var p := Parent(c); h'[p] == if c.InRight? then h[p].(right := z) else h[p].(left := z)
      ensures At(h', c, Bin(Leaf, z, red, mx, Leaf))
    {
      Refilled(h, h', c, nil, z, {z, Parent(c)});
    }

    lemma {:induction false} Widen(h: Cells, t: Tree, p: Node, lo: real, hi: real, lo': real, hi': real)
      requires Rep(h, t, p, lo, hi) && lo' <= lo && hi <= hi'
      ensures Rep(h, t, p, lo', hi')
    {
      if t.Bin? {
        Widen(h, t.left, t.node, lo, Rank(t.node), lo', Rank(t.node));
        Widen(h, t.right, t.node, Rank(t.node), hi, Rank(t.node), hi');
      }
    }

    /** The only child x of t takes the place of t. */
    lemma Spliced(h: Cells, h': Cells, c: Ctx, t: Tree, x: Tree)
      requires At(h, c, t) && t.Bin? && (if t.left.Leaf? then x == t.right else t.right.Leaf? && x == t.left)
      requires Parent(c) in h && (x.Bin? ==> x.node in h) && SameOff(h, h', {Parent(c), Ptr(x)})
      requires var p := Parent(c); h'[p] == if c.InRight? then h[p].(right := Ptr(x)) else h[p].(left := Ptr(x))
      requires x.Bin? ==> h'[x.node] == h[x.node].(parent := Parent(c))
      ensures At(h', c, x) && t.node in h' && h'[t.node] == h[t.node] && Lo(c) < Rank(t.node) < Hi(c)
      ensures t.left.Leaf? ==> Rep(h', x, Parent(c), Rank(t.node), Hi(c))
    {
      var y, p := t.node, Parent(c);
      var lo, hi := if t.left.Leaf? then Rank(y) else Lo(c), if t.left.Leaf? then Hi(c) else Rank(y);
      assert CtxRep(h, c, y) && Rep(h, x, y, lo, hi);
      Moved(h, h', x, y, p, lo, hi, {p, Ptr(x)});
      Refilled(h, h', c, y, Ptr(x), {p, Ptr(x)});
      Widen(h', x, p, lo, hi, Lo(c), Hi(c));
    }

    /** What is left of r after its leftmost node y has been spliced out has greater ranks than y. */
    lemma {:induction false} MinSpliced(h: Cells, b: Ctx, r: Tree, x: Tree, y: Node)
      requires r.Bin? && CtxRep(h, MinCtx(b, r), Ptr(x)) && Rank(y) < Hi(MinCtx(b, r))
      requires Rep(h, x, Parent(MinCtx(b, r)), Rank(y), Hi(MinCtx(b, r)))
      ensures Rep(h, PutMin(r, x), Parent(b), Rank(y), Hi(b)) && CtxRep(h, b, Ptr(PutMin(r, x))) && Rank(y) < Hi(b)
      decreases r
    {
      if r.left.Bin? { MinSpliced(h, InLeft(b, r.node, r.red, r.mx, r.right), r.left, x, y); }
    }

    /** The same, seen from the node t.node whose right subtree y was the leftmost node of. */
    lemma MinSplicedAt(h: Cells, c: Ctx, t: Tree, x: Tree, y: Node)
      requires t.Bin? && t.right.Bin?
      requires var cy := MinCtx(InRight(c, t.left, t.node, t.red, t.mx), t.right);
        At(h, cy, x) && Rep(h, x, Parent(cy), Rank(y), Hi(cy)) && Lo(cy) < Rank(y) < Hi(cy)
      ensures var t' := t.(right := PutMin(t.right, x));
        At(h, c, t') && Rep(h, t'.right, t.node, Rank(y), Hi(c)) && Rank(t.node) < Rank(y) < Hi(c)
    {
      var b := InRight(c, t.left, t.node, t.red, t.mx);
      MinSpliced(h, b, t.right, x, y);
      MinLo(b, t.right);
      MinPlug(b, t.right, x);
      ZipAll(h, MinCtx(b, t.right), x);
      ZipAll(h, c, t.(right := PutMin(t.right, x)));
      assert CtxRep(h, b, Ptr(PutMin(t.right, x)));
    }

    lemma {:induction false} MinLo(b: Ctx, r: Tree)
      requires r.Bin?
      ensures Lo(MinCtx(b, r)) == Lo(b)
      decreases r
    {
      if r.left.Bin? { MinLo(InLeft(b, r.node, r.red, r.mx, r.right), r.left); }
    }

    /** The spliced-out node y takes the place of t.node. */
    lemma Replaced(h: Cells, h': Cells, c: Ctx, t: Tree, y: Node, mx: Time)
      requires At(h, c, t) && t.Bin? && t.left.Bin? && Rep(h, t.right, t.node, Rank(y), Hi(c))
      requires y in h && Rank(t.node) < Rank(y) < Hi(c) && Parent(c) in h && t.left.node in h
      requires SameOff(h, h', {y, Parent(c), t.left.node, Ptr(t.right)})
      requires h'[y] == Cell(t.left.node, Ptr(t.right), Parent(c), h[y].red, mx)
      requires h'[t.left.node] == h[t.left.node].(parent := y)
      requires t.right.Bin? ==> h'[t.right.node] == h[t.right.node].(parent := y)
      requires var p := Parent(c); h'[p] == if c.InRight? then h[p].(right := y) else h[p].(left := y)
      ensures At(h', c, Bin(t.left, y, h[y].red, mx, t.right))
    {
      var z, p, touched := t.node, Parent(c), {y, Parent(c), t.left.node, Ptr(t.right)};
      assert CtxRep(h, c, z) && Rep(h, t.left, z, Lo(c), Rank(z));
      Moved(h, h', t.left, z, y, Lo(c), Rank(z), touched);
      Moved(h, h', t.right, z, y, Rank(y), Hi(c), touched);
      Refilled(h, h', c, z, y, touched);
      Widen(h', t.left, y, Lo(c), Rank(z), Lo(c), Rank(y));
    }

    /** A node on the path above t, d frames up, gets another colour. */
    lemma {:induction false} PaintedUp(h: Cells, h': Cells, c: Ctx, t: Tree, d: nat, red: bool)
      requires At(h, c, t) && d < Depth(c)
      requires var n := NodeUp(c, d); n in h && SameOff(h, h', {n}) && h'[n] == h[n].(red := red)
      ensures At(h', PaintUp(c, d, red), t)
      decreases d
    {
      var f := Fill(c, t);
      Zip(h, c, t);
      if d == 0 {
        Relabelled(h, h', c.up, f, red, f.mx);
        Zip(h', PaintUp(c, d, red), t);
      } else {
        PaintedUp(h, h', c.up, f, d - 1, red);
        Zip(h', PaintUp(c, d, red), t);
      }
    }

    lemma {:induction false} NodeUpIn(h: Cells, c: Ctx, t: Tree, d: nat)
      requires At(h, c, t) && d < Depth(c)
      ensures NodeUp(c, d) in h && NodeUp(c, d) !in {root, nil}
      decreases d
    {
      Zip(h, c, t);
      Look(h, c.up, Fill(c, t));
      if d > 0 { NodeUpIn(h, c.up, Fill(c, t), d - 1); }
    }

    lemma Relabelled(h: Cells, h': Cells, c: Ctx, t: Tree, red: bool, mx: Time)
      requires At(h, c, t) && t.Bin?
      requires SameOff(h, h', {t.node}) && h'[t.node] == h[t.node].(red := red, mx := mx)
      ensures At(h', c, t.(red := red, mx := mx))
    {
      var n := t.node;
      Kept(h, h', t.left, n, Lo(c), Rank(n), {n});
      Kept(h, h', t.right, n, Rank(n), Hi(c), {n});
      CtxKept(h, h', c, n, {n});
    }
  }

  /** The same nodes, and the same cells except those of the touched nodes. */
  predicate SameOff(h: Cells, h': Cells, touched: set<Node>) {
    h'.Keys == h.Keys && forall n | n in h && n !in touched :: h'[n] == h[n]
  }

  function RotL(t: Tree): Tree
    requires t.Bin? && t.right.Bin?
  {
    var y := t.right;
    var m := Max(Mx(t.left), Max(Mx(y.left), t.node.high));
    Bin(Bin(t.left, t.node, t.red, m, y.left), y.node, y.red, Max(m, Max(Mx(y.right), y.node.high)), y.right)
  }

  function RotR(t: Tree): Tree
    requires t.Bin? && t.left.Bin?
  {
    var x := t.left;
    var m := Max(Mx(x.right), Max(Mx(t.right), t.node.high));
    Bin(x.left, x.node, x.red, Max(Mx(x.left), Max(m, x.node.high)), Bin(x.right, t.node, t.red, m, t.right))
  }

  lemma RotLKeeps(t: Tree)
    requires t.Bin? && t.right.Bin? && Exact(t)
    ensures Exact(RotL(t)) && RotL(t).mx == t.mx && Inorder(RotL(t)) == Inorder(t)
  {
    var a, b, d := Inorder(t.left), Inorder(t.right.left), Inorder(t.right.right);
    assert a + [t.node] + (b + [t.right.node] + d) == (a + [t.node] + b) + [t.right.node] + d;
  }

  lemma RotRKeeps(t: Tree)
    requires t.Bin? && t.left.Bin? && Exact(t)
    ensures Exact(RotR(t)) && RotR(t).mx == t.mx && Inorder(RotR(t)) == Inorder(t)
  {
    var a, b, d := Inorder(t.left.left), Inorder(t.left.right), Inorder(t.right);
    assert (a + [t.left.node] + b) + [t.node] + d == a + [t.left.node] + (b + [t.node] + d);
  }

  lemma SameSpine(c: Ctx, t: Tree, t': Tree)
    requires Inorder(t) == Inorder(t')
    ensures Inorder(Plug(c, t)) == Inorder(Plug(c, t'))
  {
    PlugInorder(c, t);
    PlugInorder(c, t');
  }

  function Depth(c: Ctx): nat { if c.Top? then 0 else 1 + Depth(c.up) }

  // ---------- the loop of insert ----------

  /** t is red, and the tree is red-black except that the parent of t may be red too, and that t
      may be the red root. */
  predicate InsertInv(c: Ctx, t: Tree, bh: nat) {
    Red(t) && RedBlack(t, bh) && CtxRedBlack(c, bh, false) && Exact(t) && CtxExact(c, t.mx)
  }

  /** A red parent is not the root, and the grandparent is black. */
  lemma Grandparent(c: Ctx, t: Tree, bh: nat)
    requires InsertInv(c, t, bh) && !c.Top? && c.red
    ensures !c.up.Top? && !c.up.red && CtxRedBlack(c.up.up, bh + 1, false)
    ensures var p := Fill(c, t); var g := Fill(c.up, p); Exact(g) && CtxExact(c.up.up, g.mx) && Exact(p)
    ensures if c.InLeft? then RedBlack(c.right, bh) && !Red(c.right) else RedBlack(c.left, bh) && !Red(c.left)
    ensures if c.up.InLeft? then RedBlack(c.up.right, bh) else RedBlack(c.up.left, bh)
    ensures RedBlack(t.left, bh) && RedBlack(t.right, bh) && !Red(t.left) && !Red(t.right)
  {
    assert CtxRedBlack(c.up, bh, true) && CtxExact(c.up, c.mx);
  }

  /** The tree at the grandparent, with both its children painted black and itself red. */
  function Recolour(t: Tree): Tree
    requires t.Bin? && t.left.Bin? && t.right.Bin?
  {
    t.(left := t.left.(red := false), red := true, right := t.right.(red := false))
  }

  lemma RecolourKeeps(c: Ctx, t: Tree, bh: nat)
    requires t.Bin? && Red(t.left) && Red(t.right) && !t.red && Exact(t) && CtxExact(c, t.mx)
    requires RedBlack(t.left.left, bh) && RedBlack(t.left.right, bh)
    requires RedBlack(t.right.left, bh) && RedBlack(t.right.right, bh)
    requires CtxRedBlack(c, bh + 1, false)
    ensures InsertInv(c, Recolour(t), bh + 1)
    ensures Inorder(Recolour(t)) == Inorder(t)
  {
  }

  /** The tree at the grandparent after the last two colour changes and the right rotation. */
  function TurnR(t: Tree): Tree
    requires t.Bin? && t.left.Bin?
  {
    RotR(t.(left := t.left.(red := false), red := true))
  }

  function TurnL(t: Tree): Tree
    requires t.Bin? && t.right.Bin?
  {
    RotL(t.(right := t.right.(red := false), red := true))
  }

  /** p is red with a red child on its outer side, and the uncle u is black. */
  predicate Outer(p: Tree, u: Tree, left: bool, bh: nat) {
    && Red(p) && !Red(u) && RedBlack(u, bh) && RedBlack(p.left, bh) && RedBlack(p.right, bh)
    && if left then Red(p.left) && !Red(p.right) else Red(p.right) && !Red(p.left)
  }

  /** The parent of t, after an inner t has been rotated outside. */
  function Straight(c: Ctx, t: Tree): (p: Tree)
    requires t.Bin? && !c.Top? && !c.up.Top?
    ensures p.Bin?
  {
    var p := Fill(c, t);
    if c.up.InLeft? && c.InRight? then RotL(p) else if c.up.InRight? && c.InLeft? then RotR(p) else p
  }

  /** At the grandparent, an outer grandchild is to be turned upwards. */
  predicate Turnable(c: Ctx, g: Tree, left: bool, bh: nat) {
    && g.Bin? && Outer(if left then g.left else g.right, if left then g.right else g.left, left, bh) && !g.red
    && Exact(g) && CtxExact(c, g.mx) && CtxRedBlack(c, bh + 1, false)
  }

  lemma StraightTurnable(c: Ctx, t: Tree, bh: nat)
    requires InsertInv(c, t, bh) && !c.Top? && c.red && !c.up.Top?
    requires !Red(if c.up.InLeft? then c.up.right else c.up.left)
    ensures var g := Fill(c.up, Straight(c, t));
      Turnable(c.up.up, g, c.up.InLeft?, bh) && Inorder(Plug(c.up.up, g)) == Inorder(Plug(c, t))
  {
    var p, s := Fill(c, t), Straight(c, t);
    Grandparent(c, t, bh);
    assert Inorder(s) == Inorder(p) && Exact(s) && s.mx == p.mx by {
      if c.InRight? && c.up.InLeft? { RotLKeeps(p); } else if c.InLeft? && c.up.InRight? { RotRKeeps(p); }
    }
    hide CtxRedBlack, CtxExact, Inorder;
    SameSpine(c.up, p, s);
  }

  lemma TurnRKeeps(c: Ctx, t: Tree, bh: nat)
    requires t.Bin? && Outer(t.left, t.right, true, bh) && !t.red && Exact(t) && CtxExact(c, t.mx)
    requires CtxRedBlack(c, bh + 1, false)
    ensures var t' := TurnR(t);
      && InsertInv(InLeft(c, t'.node, t'.red, t'.mx, t'.right), t'.left, bh) && !t'.red
      && Inorder(t') == Inorder(t)
  {
    var g := t.(left := t.left.(red := false), red := true);
    RotRKeeps(g);
    assert Inorder(g) == Inorder(t);
  }

  lemma TurnLKeeps(c: Ctx, t: Tree, bh: nat)
    requires t.Bin? && Outer(t.right, t.left, false, bh) && !t.red && Exact(t) && CtxExact(c, t.mx)
    requires CtxRedBlack(c, bh + 1, false)
    ensures var t' := TurnL(t);
      && InsertInv(InRight(c, t'.left, t'.node, t'.red, t'.mx), t'.right, bh) && !t'.red
      && Inorder(t') == Inorder(t)
  {
    var g := t.(right := t.right.(red := false), red := true);
    RotLKeeps(g);
    assert Inorder(g) == Inorder(t);
  }

  /** When the loop of insert is over, painting the root black restores the red-black rules. */
  lemma InsertDone(c: Ctx, t: Tree, bh: nat)
    requires InsertInv(c, t, bh) && (c.Top? || !c.red)
    ensures var t' := Plug(c, t);
      t'.Bin? && Balanced(t'.(red := false)) && Exact(t'.(red := false)) && Inorder(t'.(red := false)) == Inorder(t')
  {
    PlugExact(c, t);
    if c.Top? {
      BlackHeightUnique(t.(red := false), bh + 1);
    } else {
      PlugBalanced(c, t, bh);
      PlugBin(c.up, Fill(c, t));
    }
  }

  lemma {:induction false} PlugBin(c: Ctx, t: Tree)
    requires t.Bin?
    ensures Plug(c, t).Bin?
  {
    if !c.Top? { PlugBin(c.up, Fill(c, t)); }
  }

  /** z in its place, painted red, with all maxima recomputed. */
  lemma InsertStart(c: Ctx, z: Node) returns (k: nat)
    requires Balanced(Plug(c, Leaf)) && Exact(Plug(c, Leaf)) && Sorted(Inorder(Plug(c, Leaf))) && Fits(c, z.key)
    ensures var c', t', s := Refit(c, z.high), Bin(Leaf, z, true, z.high, Leaf), Inorder(Plug(c, Leaf));
      && InsertInv(c', t', 0) && Inserted(s, k, z, Inorder(Plug(c', t'))) && Sorted(Inorder(Plug(c', t')))
  {
    var c', t' := Refit(c, z.high), Bin(Leaf, z, true, z.high, Leaf);
    SplitBalanced(c, Leaf);
    SplitExact(c, Leaf);
    RefitExact(c, z.high);
    RefitKeeps(c, z.high, 0, false);
    InsertedSorted(c, t', z);
    PlugInorder(c, t');
    PlugInorder(c', t');
    k := |Before(c)|;
  }

  // ---------- the loop of deleteFixup ----------

  /** The subtree t lacks one black node (k is what its context expects), or it is red and only
      has to be painted black. */
  predicate Deficit(c: Ctx, t: Tree, k: nat) {
    && CtxRedBlack(c, k, false) && Exact(t) && CtxExact(c, Mx(t))
    && if Red(t) then RedBlack(t.(red := false), k) else k >= 1 && RedBlack(t, k - 1)
  }

  lemma DeficitDone(c: Ctx, t: Tree, k: nat)
    requires Deficit(c, t, k) && (Red(t) || c.Top?)
    ensures var t' := if t.Leaf? then t else t.(red := false);
      Balanced(Plug(c, t')) && Exact(Plug(c, t')) && Inorder(Plug(c, t')) == Inorder(Plug(c, t))
  {
    var t' := if t.Leaf? then t else t.(red := false);
    SameSpine(c, t, t');
    PlugExact(c, t');
    PlugBalanced(c, t', if Red(t) then k else k - 1);
  }

  // The sibling w is red.

  lemma Case1Left(c: Ctx, t: Tree, k: nat) returns (c': Ctx)
    requires Deficit(c, t, k) && !Red(t) && c.InLeft? && Red(c.right)
    ensures var f := Fill(c, t);
      && !f.red && c'.InLeft? && c'.up.InLeft? && c'.up.up == c.up && TurnL(f) == Fill(c'.up, Fill(c', t))
      && c'.node == c.node && c'.red && Deficit(c', t, k) && Inorder(TurnL(f)) == Inorder(f)
  {
    var f, w := Fill(c, t), c.right;
    assert Exact(w) && Exact(w.(red := false)) && Inorder(w.(red := false)) == Inorder(w);
    var g := f.(right := w.(red := false), red := true);
    RotLKeeps(g);
    assert Inorder(g) == Inorder(f);
    c' := InLeft(InLeft(c.up, w.node, false, TurnL(f).mx, w.right), c.node, true, TurnL(f).left.mx, w.left);
    assert CtxRedBlack(c'.up, k, true) && CtxExact(c'.up, c'.mx);
  }

  lemma Case1Right(c: Ctx, t: Tree, k: nat) returns (c': Ctx)
    requires Deficit(c, t, k) && !Red(t) && c.InRight? && Red(c.left)
    ensures var f := Fill(c, t);
      && !f.red && c'.InRight? && c'.up.InRight? && c'.up.up == c.up && TurnR(f) == Fill(c'.up, Fill(c', t))
      && c'.node == c.node && c'.red && Deficit(c', t, k) && Inorder(TurnR(f)) == Inorder(f)
  {
    var f, w := Fill(c, t), c.left;
    assert Exact(w) && Exact(w.(red := false)) && Inorder(w.(red := false)) == Inorder(w);
    var g := f.(left := w.(red := false), red := true);
    RotRKeeps(g);
    assert Inorder(g) == Inorder(f);
    c' := InRight(InRight(c.up, w.left, w.node, false, TurnR(f).mx), w.right, c.node, true, TurnR(f).right.mx);
    assert CtxRedBlack(c'.up, k, true) && CtxExact(c'.up, c'.mx);
  }

  // The sibling and both its children are black.

  lemma Case2(c: Ctx, t: Tree, k: nat)
    requires Deficit(c, t, k) && !Red(t) && !c.Top?
    requires var w := if c.InLeft? then c.right else c.left; w.Bin? && !w.red && !Red(w.left) && !Red(w.right)
    ensures var f := Fill(c, t);
      var f' := if c.InLeft? then f.(right := f.right.(red := true)) else f.(left := f.left.(red := true));
      Deficit(c.up, f', if c.red then k else k + 1) && Inorder(f') == Inorder(f)
  {
    var w := if c.InLeft? then c.right else c.left;
    assert Exact(w) && Exact(w.(red := true)) && Inorder(w.(red := true)) == Inorder(w);
    assert RedBlack(w.(red := true), k - 1);
    assert CtxRedBlack(c.up, if c.red then k else k + 1, c.red);
  }

  // The outer child of the sibling is black and the inner one red.

  lemma Case3Left(c: Ctx, t: Tree, k: nat)
    requires Deficit(c, t, k) && !Red(t) && c.InLeft?
    requires c.right.Bin? && !c.right.red && Red(c.right.left) && !Red(c.right.right)
    ensures var w' := TurnR(c.right);
      && Deficit(c.(right := w'), t, k) && Red(w'.right) && !w'.red
      && Inorder(Fill(c.(right := w'), t)) == Inorder(Fill(c, t))
  {
    var w := c.right;
    assert RedBlack(w.left, k - 1) && RedBlack(TurnR(w).right, k - 1);
    assert Exact(w) && Exact(w.left) && Inorder(w.left.(red := false)) == Inorder(w.left);
    var g := w.(left := w.left.(red := false), red := true);
    assert Exact(w.left.(red := false)) && Exact(g);
    RotRKeeps(g);
    assert Inorder(g) == Inorder(w);
  }

  lemma Case3Right(c: Ctx, t: Tree, k: nat)
    requires Deficit(c, t, k) && !Red(t) && c.InRight?
    requires c.left.Bin? && !c.left.red && Red(c.left.right) && !Red(c.left.left)
    ensures var w' := TurnL(c.left);
      && Deficit(c.(left := w'), t, k) && Red(w'.left) && !w'.red
      && Inorder(Fill(c.(left := w'), t)) == Inorder(Fill(c, t))
  {
    var w := c.left;
    assert RedBlack(w.right, k - 1) && RedBlack(TurnL(w).left, k - 1);
    assert Exact(w) && Exact(w.right) && Inorder(w.right.(red := false)) == Inorder(w.right);
    var g := w.(right := w.right.(red := false), red := true);
    assert Exact(w.right.(red := false)) && Exact(g);
    RotLKeeps(g);
    assert Inorder(g) == Inorder(w);
  }

  // The outer child of the sibling is red.

  /** The tree at the parent before the last rotation. */
  function Case4LeftTree(f: Tree): Tree
    requires f.Bin? && f.right.Bin? && f.right.right.Bin?
  {
    f.(red := false, right := f.right.(red := f.red, right := f.right.right.(red := false)))
  }

  function Case4RightTree(f: Tree): Tree
    requires f.Bin? && f.left.Bin? && f.left.left.Bin?
  {
    f.(red := false, left := f.left.(red := f.red, left := f.left.left.(red := false)))
  }

  lemma Case4Left(c: Ctx, t: Tree, k: nat)
    requires Deficit(c, t, k) && !Red(t) && c.InLeft? && c.right.Bin? && !c.right.red && Red(c.right.right)
    ensures var f := Fill(c, t); var f' := RotL(Case4LeftTree(f));
      Balanced(Plug(c.up, f')) && Exact(Plug(c.up, f')) && Inorder(f') == Inorder(f)
  {
    var f := Fill(c, t);
    var g, w := Case4LeftTree(f), f.right;
    assert Exact(f) && Exact(w) && Exact(w.right) && RedBlack(w.right, k - 1);
    assert Exact(g.right.right) && Exact(g.right) && Exact(g);
    assert Inorder(g.right.right) == Inorder(w.right) && Inorder(g.right) == Inorder(w);
    RotLKeeps(g);
    assert Inorder(g) == Inorder(f);
    PlugExact(c.up, RotL(g));
    assert RedBlack(RotL(g).left, k) && RedBlack(RotL(g).right, k);
    PlugBalanced(c.up, RotL(g), if c.red then k else k + 1);
  }

  lemma Case4Right(c: Ctx, t: Tree, k: nat)
    requires Deficit(c, t, k) && !Red(t) && c.InRight? && c.left.Bin? && !c.left.red && Red(c.left.left)
    ensures var f := Fill(c, t); var f' := RotR(Case4RightTree(f));
      Balanced(Plug(c.up, f')) && Exact(Plug(c.up, f')) && Inorder(f') == Inorder(f)
  {
    var f := Fill(c, t);
    var g, w := Case4RightTree(f), f.left;
    assert Exact(f) && Exact(w) && Exact(w.left) && RedBlack(w.left, k - 1);
    assert Exact(g.left.left) && Exact(g.left) && Exact(g);
    assert Inorder(g.left.left) == Inorder(w.left) && Inorder(g.left) == Inorder(w);
    RotRKeeps(g);
    assert Inorder(g) == Inorder(f);
    PlugExact(c.up, RotR(g));
    assert RedBlack(RotR(g).left, k) && RedBlack(RotR(g).right, k);
    PlugBalanced(c.up, RotR(g), if c.red then k else k + 1);
  }

  /** The node at the root does not depend on what fills a hole below it. */
  lemma {:induction false} PlugNode(c: Ctx, t: Tree, t': Tree)
    requires !c.Top?
    ensures Plug(c, t).Bin? && Plug(c, t').Bin? && Plug(c, t).node == Plug(c, t').node
  {
    if !c.up.Top? { PlugNode(c.up, Fill(c, t), Fill(c, t')); }
  }

  lemma RootIsBlack(t: Tree)
    requires Balanced(t)
    ensures !Red(t)
  {
  }

  /** A subtree that lacks a black node has a sibling. */
  lemma SiblingBin(c: Ctx, t: Tree, k: nat)
    requires Deficit(c, t, k) && !Red(t)
    ensures c.InLeft? ==> c.right.Bin? && (c.red ==> !Red(c.right))
    ensures c.InRight? ==> c.left.Bin? && (c.red ==> !Red(c.left))
  {
  }

  // ---------- taking a node out ----------

  /** The leftmost subtree of r. */
  function MinTree(r: Tree): (m: Tree)
    requires r.Bin?
    ensures m.Bin? && m.left.Leaf?
  {
    if r.left.Leaf? then r else MinTree(r.left)
  }

  /** The context of the leftmost subtree of r, where b is the context of r. */
  function MinCtx(b: Ctx, r: Tree): Ctx
    requires r.Bin?
    decreases r
  {
    if r.left.Leaf? then b else MinCtx(InLeft(b, r.node, r.red, r.mx, r.right), r.left)
  }

  /** r with its leftmost subtree replaced by t. */
  function PutMin(r: Tree, t: Tree): Tree
    requires r.Bin?
  {
    if r.left.Leaf? then t else r.(left := PutMin(r.left, t))
  }

  lemma {:induction false} MinPlug(b: Ctx, r: Tree, t: Tree)
    requires r.Bin?
    ensures Plug(MinCtx(b, r), t) == Plug(b, PutMin(r, t)) && PutMin(r, MinTree(r)) == r
    decreases r
  {
    if r.left.Bin? { MinPlug(InLeft(b, r.node, r.red, r.mx, r.right), r.left, t); }
  }

  lemma {:induction false} MinSpine(b: Ctx, b': Ctx, r: Tree)
    requires r.Bin? && After(b) == After(b')
    ensures Before(MinCtx(b, r)) == Before(b) && After(MinCtx(b, r)) == After(MinCtx(b', r))
    decreases r
  {
    if r.left.Bin? {
      MinSpine(InLeft(b, r.node, r.red, r.mx, r.right), InLeft(b', r.node, r.red, r.mx, r.right), r.left);
    }
  }

  lemma {:induction false} MinCtxSame(b: Ctx, b': Ctx, r: Tree, bh: nat, red: bool)
    requires r.Bin? && forall k: nat, q :: CtxRedBlack(b', k, q) == CtxRedBlack(b, k, q)
    requires SidesExact(b') == SidesExact(b)
    ensures CtxRedBlack(MinCtx(b', r), bh, red) == CtxRedBlack(MinCtx(b, r), bh, red)
    ensures SidesExact(MinCtx(b', r)) == SidesExact(MinCtx(b, r))
    decreases r
  {
    if r.left.Bin? {
      MinCtxSame(InLeft(b, r.node, r.red, r.mx, r.right), InLeft(b', r.node, r.red, r.mx, r.right), r.left, bh, red);
    }
  }

  /** s' is s without its element z at position i. */
  ghost predicate Removed(s: seq<Node>, i: nat, z: Node, s': seq<Node>) {
    i < |s| && s[i] == z && s' == s[..i] + s[i + 1..]
  }

  lemma RemovedSorted(s: seq<Node>, i: nat, z: Node, s': seq<Node>)
    requires Sorted(s) && Removed(s, i, z, s')
    ensures Sorted(s')
  {
    forall a, b | 0 <= a < b < |s'| ensures s'[a].key <= s'[b].key {
      assert s'[a] == s[if a < i then a else a + 1] && s'[b] == s[if b < i then b else b + 1];
    }
  }

  lemma RemovedNodes(s: seq<Node>, i: nat, z: Node, s': seq<Node>)
    requires Removed(s, i, z, s')
    ensures forall n | n in s' :: n in s
  {
  }

  lemma InsertedNodes(s: seq<Node>, k: nat, z: Node, s': seq<Node>)
    requires Inserted(s, k, z, s')
    ensures forall n | n in s' :: n in s || n == z
  {
  }

  /** The hole where a node with at most one child was: what deleteFixup or, after a red node, nobody
      has to repair. */
  predicate Hole(c: Ctx, x: Tree, red: bool, k: nat) {
    && SidesExact(c) && Exact(x) && CtxRedBlack(c, k, red)
    && if red then RedBlack(x, k) && !Red(x) else k >= 1 && RedBlack(x, k - 1)
  }

  lemma HoleAt(c: Ctx, t: Tree)
    requires t.Bin? && (t.left.Leaf? || t.right.Leaf?) && Balanced(Plug(c, t)) && Exact(Plug(c, t))
    ensures Hole(c, if t.left.Leaf? then t.right else t.left, t.red, BlackHeight(t))
  {
    SplitBalanced(c, t);
    SplitExact(c, t);
    BlackHeightUnique(t, BlackHeight(t));
  }

  lemma HoleRefit(c: Ctx, x: Tree, red: bool, k: nat)
    requires Hole(c, x, red, k)
    ensures var c' := Refit(c, Mx(x));
      if red then Balanced(Plug(c', x)) && Exact(Plug(c', x)) else Deficit(c', x, k)
  {
    var c' := Refit(c, Mx(x));
    RefitExact(c, Mx(x));
    RefitKeeps(c, Mx(x), k, red);
    if red {
      PlugExact(c', x);
      PlugBalanced(c', x, k);
    }
  }

  /** Splicing out a node with at most one child. */
  lemma SpliceRemoves(c: Ctx, t: Tree)
    requires t.Bin? && (t.left.Leaf? || t.right.Leaf?)
    ensures Removed(Inorder(Plug(c, t)), |Before(c)| + |Inorder(t.left)|, t.node,
                    Inorder(Plug(c, if t.left.Leaf? then t.right else t.left)))
  {
    hide *;
    var x := if t.left.Leaf? then t.right else t.left;
    PlugInorder(c, t);
    PlugInorder(c, x);
    InorderBin(t);
    InorderLeaf(t.left);
    InorderLeaf(t.right);
    RemovedOne(Before(c), Inorder(t.left), t.node, Inorder(t.right), After(c));
    assert Inorder(x) == Inorder(t.left) + Inorder(t.right);
  }

  lemma RemovedOne(p: seq<Node>, l: seq<Node>, z: Node, r: seq<Node>, e: seq<Node>)
    ensures Removed(p + (l + [z] + r) + e, |p| + |l|, z, p + (l + r) + e)
  {
    var s := p + (l + [z] + r) + e;
    assert s[..|p| + |l|] == p + l && s[|p| + |l| + 1..] == r + e;
  }

  lemma RemovedMiddle(p: seq<Node>, l: seq<Node>, z: Node, y: Node, r: seq<Node>, e: seq<Node>)
    ensures Removed((p + l + [z]) + ([y] + r) + e, |p| + |l|, z, (p + l + [y]) + r + e)
  {
    var s := (p + l + [z]) + ([y] + r) + e;
    assert s[..|p| + |l|] == p + l && s[|p| + |l| + 1..] == [y] + r + e;
  }

  /** The nodes in order, seen from the leftmost subtree of the right subtree of z. */
  lemma SuccessorSpine(cz: Ctx, l: Tree, z: Node, red: bool, mx: Time, r: Tree, t: Tree)
    requires r.Bin?
    ensures var b := InRight(cz, l, z, red, mx);
      Inorder(Plug(MinCtx(b, r), t)) == (Before(cz) + Inorder(l) + [z]) + Inorder(t) + After(MinCtx(b, r))
  {
    var b := InRight(cz, l, z, red, mx);
    MinSpine(b, b, r);
    PlugInorder(MinCtx(b, r), t);
  }

  /** Putting the successor y of z in the place of z. */
  lemma SuccessorRemoves(cz: Ctx, t: Tree, mx: Time)
    requires t.Bin? && t.right.Bin?
    ensures var m := MinTree(t.right);
      var c := MinCtx(InRight(cz, t.left, m.node, t.red, mx), t.right);
      Removed(Inorder(Plug(cz, t)), |Before(cz)| + |Inorder(t.left)|, t.node, Inorder(Plug(c, m.right)))
  {
    hide Removed, Inorder, MinCtx, Before, After, PutMin;
    var r, m := t.right, MinTree(t.right);
    var b, b' := InRight(cz, t.left, t.node, t.red, t.mx), InRight(cz, t.left, m.node, t.red, mx);
    assert Plug(cz, t) == Plug(MinCtx(b, r), m) by { MinPlug(b, r, m); }
    SuccessorSpine(cz, t.left, t.node, t.red, t.mx, r, m);
    SuccessorSpine(cz, t.left, m.node, t.red, mx, r, m.right);
    assert After(MinCtx(b', r)) == After(MinCtx(b, r)) by {
      SameAfter(cz, t.left, t.node, m.node, t.red, t.mx, mx, r);
    }
    LeafFirst(m);
    RemovedMiddle(Before(cz), Inorder(t.left), t.node, m.node, Inorder(m.right), After(MinCtx(b, r)));
  }

  lemma SameAfter(cz: Ctx, l: Tree, z: Node, y: Node, red: bool, mx: Time, mx': Time, r: Tree)
    requires r.Bin?
    ensures After(MinCtx(InRight(cz, l, z, red, mx), r)) == After(MinCtx(InRight(cz, l, y, red, mx'), r))
  {
    MinSpine(InRight(cz, l, z, red, mx), InRight(cz, l, y, red, mx'), r);
  }

  lemma LeafFirst(m: Tree)
    requires m.Bin? && m.left.Leaf?
    ensures Inorder(m) == [m.node] + Inorder(m.right)
  {
    InorderBin(m);
    assert Inorder(m.left) == [];
    hide *;
    assert [] + [m.node] == [m.node];
  }

  lemma InorderLeaf(t: Tree)
    ensures t.Leaf? ==> Inorder(t) == []
  {
  }

  lemma InorderBin(t: Tree)
    requires t.Bin?
    ensures Inorder(t) == Inorder(t.left) + [t.node] + Inorder(t.right)
  {
  }

  lemma SuccessorHole(cz: Ctx, t: Tree, mx: Time)
    requires t.Bin? && t.right.Bin? && Balanced(Plug(cz, t)) && Exact(Plug(cz, t))
    ensures var m := MinTree(t.right);
      Hole(MinCtx(InRight(cz, t.left, m.node, t.red, mx), t.right), m.right, m.red, BlackHeight(m))
  {
    var r, m := t.right, MinTree(t.right);
    var b, b' := InRight(cz, t.left, t.node, t.red, t.mx), InRight(cz, t.left, m.node, t.red, mx);
    MinPlug(b, r, m);
    HoleAt(MinCtx(b, r), m);
    MinCtxSame(b, b', r, BlackHeight(m), m.red);
  }

  lemma {:induction false} MinFirst(r: Tree)
    requires r.Bin?
    ensures |Inorder(r)| > 0 && Inorder(r)[0] == MinTree(r).node
  {
    if r.left.Bin? { MinFirst(r.left); }
  }

  /** What comes behind the node of t in order. */
  lemma SuccessorIndex(c: Ctx, t: Tree)
    requires t.Bin?
    ensures var s, i := Inorder(Plug(c, t)), |Before(c)| + |Inorder(t.left)|;
      && i < |s| && s[i] == t.node
      && (t.right.Bin? ==> i + 1 < |s| && s[i + 1] == MinTree(t.right).node)
      && (t.right.Leaf? ==> s[i + 1..] == After(c))
  {
    PlugInorder(c, t);
    if t.right.Bin? { MinFirst(t.right); }
  }

  function NodeUp(c: Ctx, d: nat): Node
    requires d < Depth(c)
  {
    if d == 0 then c.node else NodeUp(c.up, d - 1)
  }

  function PaintUp(c: Ctx, d: nat, red: bool): Ctx
    requires d < Depth(c)
  {
    if d == 0 then c.(red := red) else c.(up := PaintUp(c.up, d - 1, red))
  }

  function MinDepth(r: Tree): nat
    requires r.Bin?
  {
    if r.left.Leaf? then 0 else 1 + MinDepth(r.left)
  }

  lemma {:induction false} PaintMinCtx(b: Ctx, r: Tree, e: nat, red: bool)
    requires r.Bin? && e < Depth(b)
    ensures MinDepth(r) + e < Depth(MinCtx(b, r))
    ensures NodeUp(MinCtx(b, r), MinDepth(r) + e) == NodeUp(b, e)
    ensures PaintUp(MinCtx(b, r), MinDepth(r) + e, red) == MinCtx(PaintUp(b, e, red), r)
    decreases r
  {
    if r.left.Bin? { PaintMinCtx(InLeft(b, r.node, r.red, r.mx, r.right), r.left, e + 1, red); }
  }

  lemma {:induction false} PaintRefit(c: Ctx, m: Time, d: nat, red: bool)
    requires d < Depth(c)
    ensures d < Depth(Refit(c, m)) && NodeUp(Refit(c, m), d) == NodeUp(c, d)
    ensures PaintUp(Refit(c, m), d, red) == Refit(PaintUp(c, d, red), m)
    decreases c
  {
    if d > 0 {
      PaintRefit(c.up, Refit(c, m).mx, d - 1, red);
    } else {
      DepthRefit(c, m);
    }
  }

  lemma {:induction false} DepthRefit(c: Ctx, m: Time)
    ensures Depth(Refit(c, m)) == Depth(c)
  {
    if !c.Top? { DepthRefit(c.up, Refit(c, m).mx); }
  }

  /** The path from the root to a node of t. */
  lemma {:induction false} Locate(b: Ctx, t: Tree, z: Node) returns (c: Ctx, s: Tree)
    requires z in Inorder(t)
    ensures s.Bin? && s.node == z && Plug(c, s) == Plug(b, t)
    decreases t
  {
    if z == t.node {
      c, s := b, t;
    } else if z in Inorder(t.left) {
      c, s := Locate(InLeft(b, t.node, t.red, t.mx, t.right), t.left, z);
    } else {
      c, s := Locate(InRight(b, t.left, t.node, t.red, t.mx), t.right, z);
    }
  }

  lemma RefitInorder(c: Ctx, t: Tree, m: Time)
    ensures Inorder(Plug(Refit(c, m), t)) == Inorder(Plug(c, t))
  {
    RefitKeeps(c, m, 0, false);
    PlugInorder(c, t);
    PlugInorder(Refit(c, m), t);
  }

  lemma {:induction false} MinParent(b: Ctx, b': Ctx, r: Tree)
    requires r.Bin?
    ensures r.left.Leaf? ==> MinCtx(b, r) == b && MinCtx(b', r) == b'
    ensures r.left.Bin? ==> var c, c' := MinCtx(b, r), MinCtx(b', r); c.InLeft? && c'.InLeft? && c.node == c'.node
    decreases r
  {
    if r.left.Bin? {
      MinParent(InLeft(b, r.node, r.red, r.mx, r.right), InLeft(b', r.node, r.red, r.mx, r.right), r.left);
    }
  }

  // ---------- height ----------

  function Height(t: Tree): nat {
    if t.Leaf? then 0
    else 1 + if Height(t.left) < Height(t.right) then Height(t.right) else Height(t.left)
  }

  lemma {:induction false} BlackHeightBounds(t: Tree, bh: nat)
    requires RedBlack(t, bh)
    ensures Pow2(bh) <= |Inorder(t)| + 1
    ensures Height(t) <= 2 * bh + if Red(t) then 1 else 0
  {
    if t.Bin? {
      BlackHeightBounds(t.left, if t.red then bh else bh - 1);
      BlackHeightBounds(t.right, if t.red then bh else bh - 1);
    }
  }

  lemma SquareMono(a: nat, b: nat)
    requires a <= b
    ensures a * a <= b * b
  {
    assert a * a <= a * b <= b * b;
  }

  /** The height is at most 2 * log2(n + 1) for n nodes. */
  lemma HeightBound(t: Tree)
    requires Balanced(t)
    ensures Pow2(Height(t)) <= (|Inorder(t)| + 1) * (|Inorder(t)| + 1)
  {
    var bh := BlackHeight(t);
    BlackHeightBounds(t, bh);
    hide Inorder, Pow2, Height, RedBlack;
    PowMono(Height(t), bh + bh);
    PowAdd(bh, bh);
    SquareMono(Pow2(bh), |Inorder(t)| + 1);
  }

  /** Searching from the sentinel, which stores nothing, is searching the tree. */
  lemma SentinelNodes(t: Tree, root: Node, ivl: Interval)
    requires root.interval == null
    ensures var whole := Bin(t, root, false, 0, Leaf);
      && (forall n | n in Inorder(whole) && n.interval == ivl :: n in Inorder(t))
      && (forall n | n in Inorder(t) :: n in Inorder(whole))
  {
  }
}
