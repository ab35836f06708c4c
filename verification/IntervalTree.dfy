module IntervalTrees {
  import opened IntervalNodes
  import opened IntervalQueries

  /** A node whose right subtree may have to be searched later. */
  datatype Entry = Entry(start: Node?, parentIndex: nat, tryRight: bool)

  class IntervalTree {
    const nil: Node
    const root: Node
    var stack: array<Entry>
    var currentParent: nat
    var top: nat
    ghost var tree: Tree
    ghost var nodes: set<Node>
    ghost var rank: map<Node, real>

    constructor ()
      ensures Valid() && Contents() == [] && fresh(nodes + {nil, root}) && fresh(stack)
    {
      nil := new Node.Sentinel(-MAX_TIME);
      root := new Node.Sentinel(MAX_TIME);
      stack := new Entry[128];
      top, currentParent := 1, 0;
      tree, nodes, rank := Leaf, {}, map[];
      new;
      root.parent, root.left, root.right := nil, nil, nil;
    }

    ghost function B(): Base
      reads this`rank
    {
      Base(nil, root, rank)
    }

    /** The cells of the nodes, as they are in the heap now. */
    ghost function Snap(): Cells
      reads this`nodes, root, nodes
    {
      map n | n in nodes + {root} :: Cell(n.left, n.right, n.parent, n.red, n.maxHigh)
    }

    lemma SnapRoot()
      ensures root in Snap() && Snap()[root].left == root.left
    {
    }

    ghost predicate Ok()
      reads this`nodes, nil, root
    {
      && nil !in nodes && root !in nodes && nil != root && root.interval == null
      && nil.maxHigh == -MAX_TIME && !nil.red && !root.red && root.right == nil && root.parent == nil
    }

    ghost predicate Valid()
      reads this, nil, root, nodes
    {
      && Ok() && B().At(Snap(), Top, tree) && Balanced(tree) && Exact(tree) && Sorted(Inorder(tree))
      && (forall n | n in Inorder(tree) :: Carrier(n)) && stack.Length > 0 && top == 1
    }

    /** The stored intervals, by increasing lower end. */
    ghost function Contents(): seq<Interval>
      requires Valid()
      reads this, nil, root, nodes
    {
      CarriesAll(tree);
      Intervals(tree)
    }

    ghost method Settle(t: Tree)
      requires Ok() && B().At(Snap(), Top, t) && Balanced(t) && Exact(t) && Sorted(Inorder(t))
      requires (forall n | n in Inorder(t) :: Carrier(n)) && stack.Length > 0 && top == 1
      modifies this`tree
      ensures Valid() && tree == t
    {
      hide Base.At, Balanced, Exact, Sorted, Inorder;
      var h := Snap();
      tree := t;
      assert Snap() == h;
    }

    method LeftRotate(x: Node)
      requires x.right != nil && nil !in {x, x.parent}
      requires x !in {x.right, x.parent, x.right.left} && x.right !in {x.parent, x.right.left}
      requires x.parent != x.right.left && x.right.right != x
      requires x == x.parent.left || x == x.parent.right
      modifies x, x.right, x.parent`left, x.parent`right, (if x.right.left == nil then {} else {x.right.left})`parent
      ensures var y, p, b := old(x.right), old(x.parent), old(x.right.left);
        && x.right == b && x.parent == y && x.left == old(x.left) && x.red == old(x.red)
        && x.maxHigh == Max(old(x.left.maxHigh), Max(old(b.maxHigh), x.high))
        && y.left == x && y.parent == p && y.right == old(y.right) && y.red == old(y.red)
        && y.maxHigh == Max(x.maxHigh, Max(old(y.right.maxHigh), y.high))
        && p.left == (if old(p.left) == x then y else old(p.left))
        && p.right == (if old(p.left) == x then old(p.right) else y)
        && (b != nil ==> b.parent == x)
    {
      var y := x.right;
      x.right := y.left;
      if y.left != nil {
        y.left.parent := x;
      }
      y.parent := x.parent;
      if x == x.parent.left {
        x.parent.left := y;
      } else {
        x.parent.right := y;
      }
      y.left := x;
      x.parent := y;
      x.maxHigh := Max(x.left.maxHigh, Max(x.right.maxHigh, x.high));
      y.maxHigh := Max(x.maxHigh, Max(y.right.maxHigh, y.high));
    }

    method LeftRotateAt(x: Node, ghost c: Ctx, ghost t: Tree)
      requires B().At(Snap(), c, t) && t.Bin? && t.right.Bin? && x == t.node
      requires nil.maxHigh == -MAX_TIME
      modifies root`left, root`right, nodes
      ensures B().At(Snap(), c, RotL(t)) && root.right == old(root.right)
    {
      hide Base.At, Base.Wf, Base.Rep, Base.CtxRep, Base.Lo, Base.Hi;
      ghost var b, h := B(), Snap();
      b.RotLShape(h, c, t);
      LeftRotate(x);
      ghost var h' := Snap();
      b.RotLRep(h, h', c, t);
    }
  
    method RightRotate(y: Node)
      requires y.left != nil && nil !in {y, y.parent}
      requires y !in {y.left, y.parent, y.left.right} && y.left !in {y.parent, y.left.right}
      requires y.parent != y.left.right && y.left.left != y
      requires y == y.parent.left || y == y.parent.right
      modifies y, y.left, y.parent`left, y.parent`right, (if y.left.right == nil then {} else {y.left.right})`parent
      ensures var x, p, b := old(y.left), old(y.parent), old(y.left.right);
        && y.left == b && y.parent == x && y.right == old(y.right) && y.red == old(y.red)
        && y.maxHigh == Max(old(b.maxHigh), Max(old(y.right.maxHigh), y.high))
        && x.right == y && x.parent == p && x.left == old(x.left) && x.red == old(x.red)
        && x.maxHigh == Max(old(x.left.maxHigh), Max(y.maxHigh, x.high))
        && p.left == (if old(p.left) == y then x else old(p.left))
        && p.right == (if old(p.left) == y then old(p.right) else x)
        && (b != nil ==> b.parent == y)
    {
      var x := y.left;
      y.left := x.right;
      if nil != x.right {
        x.right.parent := y;
      }
      x.parent := y.parent;
      if y == y.parent.left {
        y.parent.left := x;
      } else {
        y.parent.right := x;
      }
      x.right := y;
      y.parent := x;
      y.maxHigh := Max(y.left.maxHigh, Max(y.right.maxHigh, y.high));
      x.maxHigh := Max(x.left.maxHigh, Max(y.maxHigh, x.high));
    }

    method RightRotateAt(y: Node, ghost c: Ctx, ghost t: Tree)
      requires B().At(Snap(), c, t) && t.Bin? && t.left.Bin? && y == t.node
      requires nil.maxHigh == -MAX_TIME
      modifies root`left, root`right, nodes
      ensures B().At(Snap(), c, RotR(t)) && root.right == old(root.right)
    {
      hide Base.At, Base.Wf, Base.Rep, Base.CtxRep, Base.Lo, Base.Hi;
      ghost var b, h := B(), Snap();
      b.RotRShape(h, c, t);
      RightRotate(y);
      ghost var h' := Snap();
      b.RotRRep(h, h', c, t);
    }

    method SetRed(n: Node, red: bool, ghost c: Ctx, ghost t: Tree)
      requires B().At(Snap(), c, t) && t.Bin? && n == t.node
      modifies n`red
      ensures B().At(Snap(), c, t.(red := red))
    {
      ghost var h := Snap();
      n.red := red;
      B().Relabelled(h, Snap(), c, t, red, t.mx);
    }
  
    /** Recomputes maxHigh from x up to the sentinel. */
    method FixupMaxHigh(x0: Node, ghost c: Ctx, ghost t: Tree)
      requires Ok() && B().At(Snap(), c, t) && x0 == B().Parent(c)
      modifies nodes`maxHigh
      ensures Ok() && B().At(Snap(), Refit(c, Mx(t)), t)
    {
      var x := x0;
      ghost var cc, tt := c, t;
      while x != root
        invariant B().At(Snap(), cc, tt) && x == B().Parent(cc)
        invariant Plug(Refit(cc, Mx(tt)), tt) == Plug(Refit(c, Mx(t)), t)
        decreases cc
      {
        ghost var f := Fill(cc, tt);
        ghost var mx := Max(Mx(f.left), Max(Mx(f.right), x.high));
        B().Zip(Snap(), cc, tt);
        SetMaxHigh(x, cc.up, f);
        cc, tt := cc.up, f.(mx := mx);
        x := x.parent;
      }
      B().LoNonNeg(Snap(), cc, B().Ptr(tt));
      assert cc.Top?;
      B().ZipAll(Snap(), Refit(c, Mx(t)), t);
    }

    method SetMaxHigh(x: Node, ghost c: Ctx, ghost t: Tree)
      requires B().At(Snap(), c, t) && t.Bin? && x == t.node
      requires nil.maxHigh == -MAX_TIME
      modifies x`maxHigh
      ensures B().At(Snap(), c, t.(mx := Max(Mx(t.left), Max(Mx(t.right), x.high))))
    {
      ghost var b, h := B(), Snap();
      assert b.Rep(h, t.left, x, b.Lo(c), b.Rank(x)) && b.Rep(h, t.right, x, b.Rank(x), b.Hi(c));
      x.maxHigh := Max(x.high, Max(x.left.maxHigh, x.right.maxHigh));
      b.Relabelled(h, Snap(), c, t, t.red, Max(Mx(t.left), Max(Mx(t.right), x.high)));
    }
  
    /** The last node on the search path for a key; the hole of c is the place for that key. */
    method FindParent(key: Time, ghost t0: Tree) returns (y: Node, ghost c: Ctx)
      requires B().At(Snap(), Top, t0) && Sorted(Inorder(t0))
      ensures B().At(Snap(), c, Leaf) && y == B().Parent(c)
      ensures Plug(c, Leaf) == t0 && Fits(c, key)
    {
      y := root;
      var x := root.left;
      ghost var t := t0;
      c := Top;
      while x != nil
        invariant B().At(Snap(), c, t) && Plug(c, t) == t0 && Fits(c, key)
        invariant y == B().Parent(c) && x == B().Ptr(t)
        decreases t
      {
        y := x;
        if x.key > key {
          FitsLeft(c, t, key);
          c, t := InLeft(c, t.node, t.red, t.mx, t.right), t.left;
          x := x.left;
        } else {
          FitsRight(c, t, key);
          c, t := InRight(c, t.left, t.node, t.red, t.mx), t.right;
          x := x.right;
        }
      }
    }

    method Hang(z: Node, y: Node)
      requires z != y
      modifies z`left, z`right, z`parent, y`left, y`right
      ensures z.left == nil && z.right == nil && z.parent == y
      ensures if y == root || y.key > z.key then y.left == z && y.right == old(y.right)
              else y.right == z && y.left == old(y.left)
    {
      z.left, z.right := nil, nil;
      z.parent := y;
      if y == root || y.key > z.key {
        y.left := z;
      } else {
        y.right := z;
      }
    }

    method HangAt(z: Node, y: Node, ghost c: Ctx)
      requires B().At(Snap(), c, Leaf) && y == B().Parent(c) && z in nodes && z != root && Fits(c, z.key)
      requires B().Lo(c) < B().Rank(z) < B().Hi(c)
      modifies z`left, z`right, z`parent, y`left, y`right
      ensures B().At(Snap(), c, Bin(Leaf, z, z.red, z.maxHigh, Leaf)) && root.right == old(root.right)
    {
      hide Base.At, Base.CtxRep, Fits;
      ghost var b, h := B(), Snap();
      b.HoleSide(h, c, z);
      Hang(z, y);
      ghost var h' := Snap();
      b.Linked(h, h', c, z, z.red, z.maxHigh);
    }

    /** Takes the fresh node z into the ghost fields, with a rank that suits the hole of c. */
    ghost method Reserve(z: Node, c: Ctx)
      requires B().At(Snap(), c, Leaf) && z !in nodes && z != nil && z != root
      modifies this`nodes, this`rank
      ensures nodes == old(nodes) + {z} && B().At(Snap(), c, Leaf)
      ensures B().Lo(c) < B().Rank(z) < B().Hi(c)
      ensures B().Parent(c) == old(B().Parent(c))
    {
      hide Base.At, Base.CtxRep;
      var b, h := B(), Snap();
      b.LoBelowHi(h, c);
      var r := (b.Lo(c) + b.Hi(c)) / 2.0;
      nodes, rank := nodes + {z}, rank[z := r];
      b.AtExtended(B(), h, Snap(), c, z, r);
    }

    method RecursiveInsert(z: Node, ghost t0: Tree) returns (ghost c: Ctx)
      requires Ok() && B().At(Snap(), Top, t0) && z !in nodes && z != nil && z != root && Sorted(Inorder(t0))
      modifies z`left, z`right, z`parent, root`left, root`right, nodes, this`nodes, this`rank
      ensures Ok() && nodes == old(nodes) + {z}
      ensures Plug(c, Leaf) == t0 && Fits(c, z.key)
      ensures B().At(Snap(), c, Bin(Leaf, z, z.red, z.maxHigh, Leaf))
    {
      hide Base.At, Fits, Sorted, Inorder, Plug;
      var y;
      y, c := FindParent(z.key, t0);
      Reserve(z, c);
      B().LookX(Snap(), c, Leaf);
      HangAt(z, y, c);
    }
  
    method SetLeftRed(n: Node, red: bool, ghost c: Ctx, ghost t: Tree)
      requires B().At(Snap(), c, t) && t.Bin? && t.left.Bin? && n == t.left.node
      modifies n`red
      ensures B().At(Snap(), c, t.(left := t.left.(red := red)))
    {
      hide Base.At;
      ghost var up := InLeft(c, t.node, t.red, t.mx, t.right);
      B().Zip(Snap(), up, t.left);
      SetRed(n, red, up, t.left);
      B().Zip(Snap(), up, t.left.(red := red));
    }

    method SetRightRed(n: Node, red: bool, ghost c: Ctx, ghost t: Tree)
      requires B().At(Snap(), c, t) && t.Bin? && t.right.Bin? && n == t.right.node
      modifies n`red
      ensures B().At(Snap(), c, t.(right := t.right.(red := red)))
    {
      hide Base.At;
      ghost var up := InRight(c, t.left, t.node, t.red, t.mx);
      B().Zip(Snap(), up, t.right);
      SetRed(n, red, up, t.right);
      B().Zip(Snap(), up, t.right.(red := red));
    }

    // The branches of the loop of insert, each on the tree t at the grandparent g.

    /** The uncle is red: both children of g become black, and g red. */
    method InsertRecolour(l: Node, r: Node, g: Node, ghost c: Ctx, ghost t: Tree)
      requires Ok() && B().At(Snap(), c, t) && t.Bin? && t.left.Bin? && t.right.Bin?
      requires g == t.node && l == t.left.node && r == t.right.node
      modifies nodes`red
      ensures Ok() && B().At(Snap(), c, Recolour(t))
    {
      hide Base.At;
      B().LookBelow(Snap(), c, t);
      SetLeftRed(l, false, c, t);
      SetRightRed(r, false, c, t.(left := t.left.(red := false)));
      SetRed(g, true, c, t.(left := t.left.(red := false), right := t.right.(red := false)));
    }

    /** The last three statements of a turn: p becomes black, g red, and g is rotated. */
    method TurnRAt(p: Node, g: Node, ghost c: Ctx, ghost t: Tree)
      requires Ok() && B().At(Snap(), c, t) && t.Bin? && t.left.Bin? && g == t.node && p == t.left.node
      modifies nodes, root`left, root`right
      ensures Ok() && B().At(Snap(), c, TurnR(t))
    {
      hide Base.At, RotR, Base.Ptr, Base.Parent;
      B().InnerNodes(Snap(), c, t);
      ghost var t1 := t.(left := t.left.(red := false));
      ghost var t2 := t1.(red := true);
      SetLeftRed(p, false, c, t);
      SetRed(g, true, c, t1);
      assert Ok();
      RightRotateAt(g, c, t2);
    }

    /** The uncle is black and x is the outer grandchild. */
    method InsertTurnR(x: Node, ghost c: Ctx, ghost t: Tree, ghost bh: nat) returns (ghost c': Ctx, ghost t': Tree)
      requires Ok() && B().At(Snap(), c, t) && Turnable(c, t, true, bh) && x == t.left.left.node
      modifies nodes, root`left, root`right
      ensures Ok() && B().At(Snap(), c', t') && InsertInv(c', t', bh) && t'.node == x && Depth(c') == Depth(c) + 1
      ensures Inorder(Plug(c', t')) == Inorder(Plug(c, t))
    {
      hide Base.At, RedBlack, CtxRedBlack, CtxExact, Exact;
      ghost var b := B();
      b.LookBelow(Snap(), c, t);
      b.Zip(Snap(), InLeft(c, t.node, t.red, t.mx, t.right), t.left);
      b.LookBelow(Snap(), InLeft(c, t.node, t.red, t.mx, t.right), t.left);
      TurnRAt(x.parent, x.parent.parent, c, t);
      TurnRKeeps(c, t, bh);
      SameSpine(c, t, TurnR(t));
      t' := TurnR(t).left;
      c' := InLeft(c, TurnR(t).node, TurnR(t).red, TurnR(t).mx, TurnR(t).right);
      b.Zip(Snap(), c', t');
    }

    /** The last three statements of a turn: p becomes black, g red, and g is rotated. */
    method TurnLAt(p: Node, g: Node, ghost c: Ctx, ghost t: Tree)
      requires Ok() && B().At(Snap(), c, t) && t.Bin? && t.right.Bin? && g == t.node && p == t.right.node
      modifies nodes, root`left, root`right
      ensures Ok() && B().At(Snap(), c, TurnL(t))
    {
      hide Base.At, RotL, Base.Ptr, Base.Parent;
      B().InnerNodes(Snap(), c, t);
      ghost var t1 := t.(right := t.right.(red := false));
      ghost var t2 := t1.(red := true);
      SetRightRed(p, false, c, t);
      SetRed(g, true, c, t1);
      assert Ok();
      LeftRotateAt(g, c, t2);
    }

    /** The uncle is black and x is the outer grandchild. */
    method InsertTurnL(x: Node, ghost c: Ctx, ghost t: Tree, ghost bh: nat) returns (ghost c': Ctx, ghost t': Tree)
      requires Ok() && B().At(Snap(), c, t) && Turnable(c, t, false, bh) && x == t.right.right.node
      modifies nodes, root`left, root`right
      ensures Ok() && B().At(Snap(), c', t') && InsertInv(c', t', bh) && t'.node == x && Depth(c') == Depth(c) + 1
      ensures Inorder(Plug(c', t')) == Inorder(Plug(c, t))
    {
      hide Base.At, RedBlack, CtxRedBlack, CtxExact, Exact;
      ghost var b := B();
      b.LookBelow(Snap(), c, t);
      b.Zip(Snap(), InRight(c, t.left, t.node, t.red, t.mx), t.right);
      b.LookBelow(Snap(), InRight(c, t.left, t.node, t.red, t.mx), t.right);
      TurnLAt(x.parent, x.parent.parent, c, t);
      TurnLKeeps(c, t, bh);
      SameSpine(c, t, TurnL(t));
      t' := TurnL(t).right;
      c' := InRight(c, TurnL(t).left, TurnL(t).node, TurnL(t).red, TurnL(t).mx);
      b.Zip(Snap(), c', t');
    }

    /** The uncle is black: an inner x is rotated outside, and its parent becomes x. */
    method StraightenLeft(x0: Node, ghost c: Ctx, ghost t: Tree, ghost bh: nat) returns (x: Node, ghost g: Tree)
      requires Ok() && B().At(Snap(), c, t) && t.Bin? && x0 == t.node && InsertInv(c, t, bh)
      requires !c.Top? && c.red && c.up.InLeft? && !Red(c.up.right)
      modifies nodes, root`left, root`right
      ensures Ok() && B().At(Snap(), c.up.up, g) && Turnable(c.up.up, g, true, bh) && x == g.left.left.node
      ensures Inorder(Plug(c.up.up, g)) == Inorder(Plug(c, t))
    {
      hide Base.At, InsertInv, Turnable, Inorder;
      x := x0;
      ghost var b, p := B(), Fill(c, t);
      StraightTurnable(c, t, bh);
      b.LookAbove(Snap(), c, t);
      b.Zip(Snap(), c, t);
      if x == x.parent.right {
        x := x.parent;
        LeftRotateAt(x, c.up, p);
      }
      g := Fill(c.up, Straight(c, t));
      b.Zip(Snap(), c.up, Straight(c, t));
    }

    /** One turn of the loop of insert, for a parent that is a left child. */
    method InsertStepLeft(x0: Node, ghost c: Ctx, ghost t: Tree, ghost bh: nat)
      returns (x: Node, ghost c': Ctx, ghost t': Tree, ghost bh': nat)
      requires Ok() && B().At(Snap(), c, t) && t.Bin? && x0 == t.node
      requires InsertInv(c, t, bh) && !c.Top? && c.red && c.up.InLeft?
      modifies nodes, root`left, root`right
      ensures Ok() && B().At(Snap(), c', t') && t'.Bin? && x == t'.node && InsertInv(c', t', bh')
      ensures Inorder(Plug(c', t')) == Inorder(Plug(c, t)) && Depth(c') < Depth(c)
    {
      hide Base.At, CtxRedBlack, CtxExact;
      x := x0;
      ghost var b, up, p := B(), c.up.up, Fill(c, t);
      ghost var g := Fill(c.up, p);
      Grandparent(c, t, bh);
      b.LookAbove(Snap(), c, t);
      b.Zip(Snap(), c, t);
      b.Zip(Snap(), c.up, p);
      var y := x.parent.parent.right;
      if y.red {
        InsertRecolour(x.parent, y, x.parent.parent, up, g);
        x := x.parent.parent;
        c', t', bh' := up, Recolour(g), bh + 1;
        RecolourKeeps(up, g, bh);
        SameSpine(up, g, t');
      } else {
        x, g := StraightenLeft(x, c, t, bh);
        bh' := bh;
        c', t' := InsertTurnR(x, up, g, bh);
      }
    }

    /** The uncle is black: an inner x is rotated outside, and its parent becomes x. */
    method StraightenRight(x0: Node, ghost c: Ctx, ghost t: Tree, ghost bh: nat) returns (x: Node, ghost g: Tree)
      requires Ok() && B().At(Snap(), c, t) && t.Bin? && x0 == t.node && InsertInv(c, t, bh)
      requires !c.Top? && c.red && c.up.InRight? && !Red(c.up.left)
      modifies nodes, root`left, root`right
      ensures Ok() && B().At(Snap(), c.up.up, g) && Turnable(c.up.up, g, false, bh) && x == g.right.right.node
      ensures Inorder(Plug(c.up.up, g)) == Inorder(Plug(c, t))
    {
      hide Base.At, InsertInv, Turnable, Inorder;
      x := x0;
      ghost var b, p := B(), Fill(c, t);
      StraightTurnable(c, t, bh);
      b.LookAbove(Snap(), c, t);
      b.Zip(Snap(), c, t);
      if x == x.parent.left {
        x := x.parent;
        RightRotateAt(x, c.up, p);
      }
      g := Fill(c.up, Straight(c, t));
      b.Zip(Snap(), c.up, Straight(c, t));
    }

    /** One turn of the loop of insert, for a parent that is a right child. */
    method InsertStepRight(x0: Node, ghost c: Ctx, ghost t: Tree, ghost bh: nat)
      returns (x: Node, ghost c': Ctx, ghost t': Tree, ghost bh': nat)
      requires Ok() && B().At(Snap(), c, t) && t.Bin? && x0 == t.node
      requires InsertInv(c, t, bh) && !c.Top? && c.red && c.up.InRight?
      modifies nodes, root`left, root`right
      ensures Ok() && B().At(Snap(), c', t') && t'.Bin? && x == t'.node && InsertInv(c', t', bh')
      ensures Inorder(Plug(c', t')) == Inorder(Plug(c, t)) && Depth(c') < Depth(c)
    {
      hide Base.At, CtxRedBlack, CtxExact;
      x := x0;
      ghost var b, up, p := B(), c.up.up, Fill(c, t);
      ghost var g := Fill(c.up, p);
      Grandparent(c, t, bh);
      b.LookAbove(Snap(), c, t);
      b.Zip(Snap(), c, t);
      b.Zip(Snap(), c.up, p);
      var y := x.parent.parent.left;
      if y.red {
        InsertRecolour(y, x.parent, x.parent.parent, up, g);
        x := x.parent.parent;
        c', t', bh' := up, Recolour(g), bh + 1;
        RecolourKeeps(up, g, bh);
        SameSpine(up, g, t');
      } else {
        x, g := StraightenRight(x, c, t, bh);
        bh' := bh;
        c', t' := InsertTurnL(x, up, g, bh);
      }
    }

    /** The loop of insert, which starts with x red. */
    method InsertFixup(x0: Node, ghost c0: Ctx, ghost t0: Tree) returns (ghost t': Tree)
      requires Ok() && B().At(Snap(), c0, t0) && t0.Bin? && x0 == t0.node && InsertInv(c0, t0, 0)
      modifies nodes, root`left, root`right
      ensures Ok() && B().At(Snap(), Top, t') && Balanced(t') && Exact(t')
      ensures Inorder(t') == Inorder(Plug(c0, t0))
    {
      hide Base.At, InsertInv, Balanced, Exact, Inorder, Plug, Depth;
      var x := x0;
      ghost var c, t, bh := c0, t0, 0;
      B().LookUp(Snap(), c, t);
      while x.parent.red
        invariant Ok() && B().At(Snap(), c, t) && t.Bin? && x == t.node && InsertInv(c, t, bh)
        invariant x.parent == B().Parent(c) && (!c.Top? ==> c.node.red == c.red)
        invariant Inorder(Plug(c, t)) == Inorder(Plug(c0, t0))
        decreases Depth(c)
      {
        Grandparent(c, t, bh);
        B().LookAbove(Snap(), c, t);
        if x.parent == x.parent.parent.left {
          x, c, t, bh := InsertStepLeft(x, c, t, bh);
        } else {
          x, c, t, bh := InsertStepRight(x, c, t, bh);
        }
        B().LookUp(Snap(), c, t);
      }
      t' := PaintRoot(c, t, bh);
    }

    /** The last statement of insert: the root becomes black. */
    method PaintRoot(ghost c: Ctx, ghost t: Tree, ghost bh: nat) returns (ghost t': Tree)
      requires Ok() && B().At(Snap(), c, t) && InsertInv(c, t, bh) && (c.Top? || !c.red)
      modifies nodes`red
      ensures Ok() && B().At(Snap(), Top, t') && Balanced(t') && Exact(t') && Inorder(t') == Inorder(Plug(c, t))
    {
      hide Base.At, InsertInv, Balanced, Exact, Inorder;
      InsertDone(c, t, bh);
      B().ZipAll(Snap(), c, t);
      t' := Plug(c, t);
      B().Look(Snap(), Top, t');
      B().LookRoot(Snap(), t');
      SetRed(root.left, false, Top, t');
      t' := t'.(red := false);
    }

    /** The part of insert before its loop: x is put in its place, painted red. */
    method PutIn(x: Node, ghost t0: Tree) returns (ghost c: Ctx, ghost t: Tree, ghost k: nat)
      requires Ok() && B().At(Snap(), Top, t0) && Balanced(t0) && Exact(t0) && Sorted(Inorder(t0))
      requires x !in nodes && x != nil && x != root && x.maxHigh == x.high && !x.red
      modifies this`nodes, this`rank, root`left, root`right, nodes, x
      ensures Ok() && nodes == old(nodes) + {x} && B().At(Snap(), c, t) && t.Bin? && t.node == x && InsertInv(c, t, 0)
      ensures Inserted(Inorder(t0), k, x, Inorder(Plug(c, t))) && Sorted(Inorder(Plug(c, t)))
    {
      hide Base.At, InsertInv, Inserted, Balanced, Exact, Sorted, Fits, Inorder;
      c := RecursiveInsert(x, t0);
      t := Bin(Leaf, x, false, x.high, Leaf);
      B().LookUp(Snap(), c, t);
      FixupMaxHigh(x.parent, c, t);
      k := InsertStart(c, x);
      c := Refit(c, x.high);
      SetRed(x, true, c, t);
      t := t.(red := true);
    }

    method Insert(i: Interval) returns (z: Node, ghost k: nat)
      requires Valid()
      modifies this`tree, this`nodes, this`rank, root`left, root`right, nodes
      ensures Valid() && fresh(z) && z.interval == i && nodes == old(nodes) + {z}
      ensures Inserted(old(Inorder(tree)), k, z, Inorder(tree))
      ensures k <= |old(Contents())| && Contents() == old(Contents())[..k] + [i] + old(Contents())[k..]
      ensures multiset(Contents()) == old(multiset(Contents())) + multiset{i}
    {
      hide Base.At, InsertInv, Inserted, Balanced, Exact, Sorted, Inorder, Plug, Stored, Intervals;
      ghost var was := tree;
      CarriesAll(was);
      IntervalsStored(was);
      z := new Node(i);
      ghost var c, t;
      c, t, k := PutIn(z, tree);
      ghost var t' := InsertFixup(z, c, t);
      InsertedNodes(Inorder(tree), k, z, Inorder(t'));
      Settle(t');
      CarriesAll(t');
      IntervalsStored(t');
      InsertedStored(Inorder(was), k, z, Inorder(t'), Intervals(was), Intervals(t'));
    }
  
    /** The colour changes of the last case: the outer child of the sibling w is red. */
    method Case4LeftPaint(p: Node, w: Node, ghost c: Ctx, ghost f: Tree)
      requires Ok() && B().At(Snap(), c, f) && f.Bin? && f.right.Bin? && f.right.right.Bin?
      requires p == f.node && w == f.right.node
      modifies nodes`red
      ensures Ok() && B().At(Snap(), c, Case4LeftTree(f))
    {
      hide Base.At;
      ghost var b := B();
      b.Look(Snap(), c, f);
      b.Zip(Snap(), InRight(c, f.left, f.node, f.red, f.mx), f.right);
      b.LookBelow(Snap(), InRight(c, f.left, f.node, f.red, f.mx), f.right);
      SetRightRed(w, p.red, c, f);
      ghost var f2 := f.(red := false, right := f.right.(red := f.red));
      SetRed(p, false, c, f.(right := f2.right));
      ghost var c2 := InRight(c, f2.left, f2.node, f2.red, f2.mx);
      b.Zip(Snap(), c2, f2.right);
      SetRightRed(w.right, false, c2, f2.right);
      b.Zip(Snap(), c2, Case4LeftTree(f).right);
    }

    /** The sibling w0 is red; afterwards the sibling w of x is black. */
    method Case1LeftAt(x: Node, w0: Node, ghost c: Ctx, ghost t: Tree, ghost k: nat) returns (w: Node, ghost c': Ctx)
      requires Ok() && B().At(Snap(), c, t) && x.parent == B().Parent(c) && x == B().Ptr(t)
      requires Deficit(c, t, k) && !Red(t) && c.InLeft? && Red(c.right) && w0 == c.right.node
      modifies nodes, root`left, root`right
      ensures Ok() && B().At(Snap(), c', t) && x.parent == B().Parent(c') && c'.InLeft? && !c'.up.Top?
              && c'.node == c.node
      ensures c'.red && c'.up.up == c.up && w == B().Ptr(c'.right) && Deficit(c', t, k)
      ensures Inorder(Plug(c', t)) == Inorder(Plug(c, t))
    {
      hide Base.At, Deficit, Inorder;
      ghost var b, f := B(), Fill(c, t);
      b.Zip(Snap(), c, t);
      TurnLAt(w0, x.parent, c.up, f);
      c' := Case1Left(c, t, k);
      SameSpine(c.up, f, TurnL(f));
      b.Zip(Snap(), c'.up, Fill(c', t));
      b.Zip(Snap(), c', t);
      b.LookBelow(Snap(), c'.up, Fill(c', t));
      w := x.parent.right;
    }

    /** The sibling w0 is black, its outer child too, and its inner child red; afterwards the outer
        child of the sibling w of x is red. */
    method Case3LeftAt(x: Node, w0: Node, ghost c: Ctx, ghost t: Tree, ghost k: nat) returns (w: Node, ghost c': Ctx)
      requires Ok() && B().At(Snap(), c, t) && x.parent == B().Parent(c) && x == B().Ptr(t)
      requires Deficit(c, t, k) && !Red(t) && c.InLeft? && c.right.Bin? && w0 == c.right.node
      requires !c.right.red && Red(c.right.left) && !Red(c.right.right)
      modifies nodes, root`left, root`right
      ensures Ok() && B().At(Snap(), c', t) && x.parent == B().Parent(c') && c'.InLeft? && c' == c.(right := c'.right)
      ensures c'.right.Bin? && !c'.right.red && Red(c'.right.right) && w == c'.right.node && Deficit(c', t, k)
      ensures Inorder(Fill(c', t)) == Inorder(Fill(c, t))
    {
      hide Base.At, Deficit, Inorder;
      ghost var b, f := B(), Fill(c, t);
      ghost var cw := InRight(c.up, t, c.node, c.red, c.mx);
      b.Zip(Snap(), c, t);
      b.Zip(Snap(), cw, c.right);
      b.LookBelow(Snap(), cw, c.right);
      TurnRAt(w0.left, w0, cw, c.right);
      Case3Left(c, t, k);
      c' := c.(right := TurnR(c.right));
      b.Zip(Snap(), cw, c'.right);
      b.Zip(Snap(), c', t);
      b.LookBelow(Snap(), c.up, Fill(c', t));
      w := x.parent.right;
    }

    /** The outer child of the sibling w is red: the last case. */
    method Case4LeftAt(x: Node, w: Node, ghost c: Ctx, ghost t: Tree, ghost k: nat) returns (ghost t': Tree)
      requires Ok() && B().At(Snap(), c, t) && x.parent == B().Parent(c) && c.InLeft? && c.right.Bin?
      requires Deficit(c, t, k) && !Red(t) && !c.right.red && Red(c.right.right) && w == c.right.node
      modifies nodes, root`left, root`right
      ensures Ok() && B().At(Snap(), Top, t') && Balanced(t') && Exact(t') && !c.node.red
      ensures Inorder(t') == Inorder(Plug(c, t)) && (!c.up.Top? ==> t'.Bin? && t'.node == Plug(c, t).node)
    {
      hide Base.At, Deficit, Inorder, Balanced, Exact;
      ghost var b, f := B(), Fill(c, t);
      b.Zip(Snap(), c, t);
      Case4LeftPaint(x.parent, w, c.up, f);
      LeftRotateAt(x.parent, c.up, Case4LeftTree(f));
      Case4Left(c, t, k);
      ghost var f' := RotL(Case4LeftTree(f));
      b.LookSelfLeft(Snap(), c.up, f');
      b.ZipAll(Snap(), c.up, f');
      t' := Plug(c.up, f');
      SameSpine(c.up, f, f');
      if !c.up.Top? { PlugNode(c.up, f, f'); }
    }

    /** The sibling w0 is black and one of its children red: the last two cases. */
    method Case34LeftAt(x: Node, w0: Node, ghost c0: Ctx, ghost t: Tree, ghost k: nat) returns (ghost t': Tree)
      requires Ok() && B().At(Snap(), c0, t) && x.parent == B().Parent(c0) && x == B().Ptr(t)
      requires Deficit(c0, t, k) && !Red(t) && c0.InLeft? && c0.right.Bin? && w0 == c0.right.node
      requires !c0.right.red && (Red(c0.right.left) || Red(c0.right.right))
      modifies nodes, root`left, root`right
      ensures Ok() && B().At(Snap(), Top, t') && Balanced(t') && Exact(t') && !c0.node.red
      ensures Inorder(t') == Inorder(Plug(c0, t)) && (!c0.up.Top? ==> t'.Bin? && t'.node == Plug(c0, t).node)
    {
      hide Base.At, Deficit, Inorder, Balanced, Exact;
      var w := w0;
      ghost var c := c0;
      B().LookSiblingLeft(Snap(), c, t);
      if !w.right.red {
        w, c := Case3LeftAt(x, w, c, t, k);
        SameSpine(c.up, Fill(c, t), Fill(c0, t));
        if !c.up.Top? { PlugNode(c.up, Fill(c, t), Fill(c0, t)); }
      }
      t' := Case4LeftAt(x, w, c, t, k);
    }

    /** The rest of that turn, when the sibling w of x is black.  The node rl was the root when
        deleteFixup began; if it still has the place above x, it is the parent of x now. */
    method BlackSiblingLeft(x0: Node, w: Node, rl: Node, ghost c: Ctx, ghost t: Tree, ghost k: nat, ghost atRoot: bool)
      returns (x: Node, ghost done: bool, ghost c': Ctx, ghost t': Tree, ghost k': nat)
      requires Ok() && B().At(Snap(), c, t) && x0.parent == B().Parent(c) && x0 == B().Ptr(t)
      requires Deficit(c, t, k) && !Red(t) && c.InLeft? && c.right.Bin? && !c.right.red && w == c.right.node
      requires if atRoot then rl == c.node else !c.up.Top? && Plug(c, t).Bin? && rl == Plug(c, t).node
      requires !c.red ==> root.left == rl
      modifies nodes, root`left, root`right
      ensures Ok() && B().At(Snap(), c', t') && Inorder(Plug(c', t')) == Inorder(Plug(c, t))
      ensures done ==> x == rl && !rl.red && c'.Top? && Balanced(t') && Exact(t')
      ensures !done ==> x == B().Ptr(t') && x.parent == B().Parent(c') && Deficit(c', t', k')
      ensures !done && !Red(t') ==> root.left == rl && Depth(c') < Depth(c) && !c.red
    {
      hide Base.At, Inorder, Balanced, Exact, Deficit;
      x := x0;
      B().LookSiblingLeft(Snap(), c, t);
      if !w.right.red && !w.left.red {
        c', t' := MoveUpLeft(x, w, c, t, k);
        x, k', done := x.parent, if c.red then k else k + 1, false;
      } else {
        k', done, c' := k, true, Top;
        t' := Case34LeftAt(x, w, c, t, k);
        x := rl;
        RootIsBlack(t');
        if !atRoot { B().Look(Snap(), Top, t'); }
      }
    }

    /** One turn of the loop of deleteFixup, for an x that is a left child. */
    method DeleteStepLeft(x0: Node, rl: Node, ghost c: Ctx, ghost t: Tree, ghost k: nat)
      returns (x: Node, ghost done: bool, ghost c': Ctx, ghost t': Tree, ghost k': nat)
      requires Ok() && B().At(Snap(), c, t) && x0.parent == B().Parent(c) && x0 == B().Ptr(t)
      requires Deficit(c, t, k) && !Red(t) && c.InLeft? && root.left == rl
      modifies nodes, root`left, root`right
      ensures Ok() && B().At(Snap(), c', t') && Inorder(Plug(c', t')) == Inorder(Plug(c, t))
      ensures done ==> x == rl && !rl.red && c'.Top? && Balanced(t') && Exact(t')
      ensures !done ==> x == B().Ptr(t') && x.parent == B().Parent(c') && Deficit(c', t', k')
      ensures !done && !Red(t') ==> root.left == rl && Depth(c') < Depth(c)
    {
      hide Base.At, Inorder, Balanced, Exact, CtxExact, CtxRedBlack;
      ghost var b, cc := B(), c;
      x := x0;
      b.LookSiblingLeft(Snap(), c, t);
      SiblingBin(c, t, k);
      b.RootNode(Snap(), c, t);
      assert c.up.Top? ==> Plug(c, t) == Fill(c, t);
      if !c.up.Top? { PlugNode(c.up, Fill(c, t), Fill(c, t)); }
      var w := x.parent.right;
      if w.red {
        w, cc := Case1LeftAt(x, w, c, t, k);
        SiblingBin(cc, t, k);
        if !c.up.Top? { PlugNode(c.up, Fill(c, t), Fill(cc.up, Fill(cc, t))); }
        assert Plug(cc, t) == Plug(cc.up, Fill(cc, t));
        b.LookSiblingLeft(Snap(), cc, t);
      }
      x, done, c', t', k' := BlackSiblingLeft(x, w, rl, cc, t, k, c.up.Top?);
    }

    /** The sibling w and both its children are black: w becomes red, and x moves up. */
    method MoveUpLeft(x: Node, w: Node, ghost c: Ctx, ghost t: Tree, ghost k: nat)
      returns (ghost c': Ctx, ghost t': Tree)
      requires Ok() && B().At(Snap(), c, t) && x.parent == B().Parent(c) && x == B().Ptr(t)
      requires Deficit(c, t, k) && !Red(t) && c.InLeft? && c.right.Bin? && w == c.right.node
      requires !c.right.red && !Red(c.right.left) && !Red(c.right.right)
      modifies nodes`red
      ensures Ok() && B().At(Snap(), c', t') && Inorder(Plug(c', t')) == Inorder(Plug(c, t))
      ensures t'.Bin? && x.parent == t'.node && x.parent.parent == B().Parent(c') && c' == c.up && t'.red == c.red
      ensures Deficit(c', t', if c.red then k else k + 1)
    {
      hide Base.At, Deficit, Inorder, Balanced, Exact;
      ghost var b, f := B(), Fill(c, t);
      b.Zip(Snap(), c, t);
      b.LookBelow(Snap(), c.up, f);
      SetRightRed(w, true, c.up, f);
      Case2(c, t, k);
      c', t' := c.up, f.(right := f.right.(red := true));
      SameSpine(c.up, f, t');
      b.Look(Snap(), c', t');
    }

    /** The colour changes of the last case: the outer child of the sibling w is red. */
    method Case4RightPaint(p: Node, w: Node, ghost c: Ctx, ghost f: Tree)
      requires Ok() && B().At(Snap(), c, f) && f.Bin? && f.left.Bin? && f.left.left.Bin?
      requires p == f.node && w == f.left.node
      modifies nodes`red
      ensures Ok() && B().At(Snap(), c, Case4RightTree(f))
    {
      hide Base.At;
      ghost var b := B();
      b.Look(Snap(), c, f);
      b.Zip(Snap(), InLeft(c, f.node, f.red, f.mx, f.right), f.left);
      b.LookBelow(Snap(), InLeft(c, f.node, f.red, f.mx, f.right), f.left);
      SetLeftRed(w, p.red, c, f);
      ghost var f2 := f.(red := false, left := f.left.(red := f.red));
      SetRed(p, false, c, f.(left := f2.left));
      ghost var c2 := InLeft(c, f2.node, f2.red, f2.mx, f2.right);
      b.Zip(Snap(), c2, f2.left);
      SetLeftRed(w.left, false, c2, f2.left);
      b.Zip(Snap(), c2, Case4RightTree(f).left);
    }

    /** The sibling w0 is red; afterwards the sibling w of x is black. */
    method Case1RightAt(x: Node, w0: Node, ghost c: Ctx, ghost t: Tree, ghost k: nat) returns (w: Node, ghost c': Ctx)
      requires Ok() && B().At(Snap(), c, t) && x.parent == B().Parent(c) && x == B().Ptr(t)
      requires Deficit(c, t, k) && !Red(t) && c.InRight? && Red(c.left) && w0 == c.left.node
      modifies nodes, root`left, root`right
      ensures Ok() && B().At(Snap(), c', t) && x.parent == B().Parent(c') && c'.InRight? && !c'.up.Top?
              && c'.node == c.node
      ensures c'.red && c'.up.up == c.up && w == B().Ptr(c'.left) && Deficit(c', t, k)
      ensures Inorder(Plug(c', t)) == Inorder(Plug(c, t))
    {
      hide Base.At, Deficit, Inorder;
      ghost var b, f := B(), Fill(c, t);
      b.Zip(Snap(), c, t);
      TurnRAt(w0, x.parent, c.up, f);
      c' := Case1Right(c, t, k);
      SameSpine(c.up, f, TurnR(f));
      b.Zip(Snap(), c'.up, Fill(c', t));
      b.Zip(Snap(), c', t);
      b.LookBelow(Snap(), c'.up, Fill(c', t));
      w := x.parent.left;
    }

    /** The sibling w0 is black, its outer child too, and its inner child red; afterwards the outer
        child of the sibling w of x is red. */
    method Case3RightAt(x: Node, w0: Node, ghost c: Ctx, ghost t: Tree, ghost k: nat) returns (w: Node, ghost c': Ctx)
      requires Ok() && B().At(Snap(), c, t) && x.parent == B().Parent(c) && x == B().Ptr(t)
      requires Deficit(c, t, k) && !Red(t) && c.InRight? && c.left.Bin? && w0 == c.left.node
      requires !c.left.red && Red(c.left.right) && !Red(c.left.left)
      modifies nodes, root`left, root`right
      ensures Ok() && B().At(Snap(), c', t) && x.parent == B().Parent(c') && c'.InRight? && c' == c.(left := c'.left)
      ensures c'.left.Bin? && !c'.left.red && Red(c'.left.left) && w == c'.left.node && Deficit(c', t, k)
      ensures Inorder(Fill(c', t)) == Inorder(Fill(c, t))
    {
      hide Base.At, Deficit, Inorder;
      ghost var b, f := B(), Fill(c, t);
      ghost var cw := InLeft(c.up, c.node, c.red, c.mx, t);
      b.Zip(Snap(), c, t);
      b.Zip(Snap(), cw, c.left);
      b.LookBelow(Snap(), cw, c.left);
      TurnLAt(w0.right, w0, cw, c.left);
      Case3Right(c, t, k);
      c' := c.(left := TurnL(c.left));
      b.Zip(Snap(), cw, c'.left);
      b.Zip(Snap(), c', t);
      b.LookBelow(Snap(), c.up, Fill(c', t));
      w := x.parent.left;
    }

    /** The outer child of the sibling w is red: the last case. */
    method Case4RightAt(x: Node, w: Node, ghost c: Ctx, ghost t: Tree, ghost k: nat) returns (ghost t': Tree)
      requires Ok() && B().At(Snap(), c, t) && x.parent == B().Parent(c) && c.InRight? && c.left.Bin?
      requires Deficit(c, t, k) && !Red(t) && !c.left.red && Red(c.left.left) && w == c.left.node
      modifies nodes, root`left, root`right
      ensures Ok() && B().At(Snap(), Top, t') && Balanced(t') && Exact(t') && !c.node.red
      ensures Inorder(t') == Inorder(Plug(c, t)) && (!c.up.Top? ==> t'.Bin? && t'.node == Plug(c, t).node)
    {
      hide Base.At, Deficit, Inorder, Balanced, Exact;
      ghost var b, f := B(), Fill(c, t);
      b.Zip(Snap(), c, t);
      Case4RightPaint(x.parent, w, c.up, f);
      RightRotateAt(x.parent, c.up, Case4RightTree(f));
      Case4Right(c, t, k);
      ghost var f' := RotR(Case4RightTree(f));
      b.LookSelfRight(Snap(), c.up, f');
      b.ZipAll(Snap(), c.up, f');
      t' := Plug(c.up, f');
      SameSpine(c.up, f, f');
      if !c.up.Top? { PlugNode(c.up, f, f'); }
    }

    /** The sibling w0 is black and one of its children red: the last two cases. */
    method Case34RightAt(x: Node, w0: Node, ghost c0: Ctx, ghost t: Tree, ghost k: nat) returns (ghost t': Tree)
      requires Ok() && B().At(Snap(), c0, t) && x.parent == B().Parent(c0) && x == B().Ptr(t)
      requires Deficit(c0, t, k) && !Red(t) && c0.InRight? && c0.left.Bin? && w0 == c0.left.node
      requires !c0.left.red && (Red(c0.left.right) || Red(c0.left.left))
      modifies nodes, root`left, root`right
      ensures Ok() && B().At(Snap(), Top, t') && Balanced(t') && Exact(t') && !c0.node.red
      ensures Inorder(t') == Inorder(Plug(c0, t)) && (!c0.up.Top? ==> t'.Bin? && t'.node == Plug(c0, t).node)
    {
      hide Base.At, Deficit, Inorder, Balanced, Exact;
      var w := w0;
      ghost var c := c0;
      B().LookSiblingRight(Snap(), c, t);
      if !w.left.red {
        w, c := Case3RightAt(x, w, c, t, k);
        SameSpine(c.up, Fill(c, t), Fill(c0, t));
        if !c.up.Top? { PlugNode(c.up, Fill(c, t), Fill(c0, t)); }
      }
      t' := Case4RightAt(x, w, c, t, k);
    }

    /** The rest of that turn, when the sibling w of x is black.  The node rl was the root when
        deleteFixup began; if it still has the place above x, it is the parent of x now. */
    method BlackSiblingRight(x0: Node, w: Node, rl: Node, ghost c: Ctx, ghost t: Tree, ghost k: nat, ghost atRoot: bool)
      returns (x: Node, ghost done: bool, ghost c': Ctx, ghost t': Tree, ghost k': nat)
      requires Ok() && B().At(Snap(), c, t) && x0.parent == B().Parent(c) && x0 == B().Ptr(t)
      requires Deficit(c, t, k) && !Red(t) && c.InRight? && c.left.Bin? && !c.left.red && w == c.left.node
      requires if atRoot then rl == c.node else !c.up.Top? && Plug(c, t).Bin? && rl == Plug(c, t).node
      requires !c.red ==> root.left == rl
      modifies nodes, root`left, root`right
      ensures Ok() && B().At(Snap(), c', t') && Inorder(Plug(c', t')) == Inorder(Plug(c, t))
      ensures done ==> x == rl && !rl.red && c'.Top? && Balanced(t') && Exact(t')
      ensures !done ==> x == B().Ptr(t') && x.parent == B().Parent(c') && Deficit(c', t', k')
      ensures !done && !Red(t') ==> root.left == rl && Depth(c') < Depth(c) && !c.red
    {
      hide Base.At, Inorder, Balanced, Exact, Deficit;
      x := x0;
      B().LookSiblingRight(Snap(), c, t);
      if !w.right.red && !w.left.red {
        c', t' := MoveUpRight(x, w, c, t, k);
        x, k', done := x.parent, if c.red then k else k + 1, false;
      } else {
        k', done, c' := k, true, Top;
        t' := Case34RightAt(x, w, c, t, k);
        x := rl;
        RootIsBlack(t');
        if !atRoot { B().Look(Snap(), Top, t'); }
      }
    }

    /** One turn of the loop of deleteFixup, for an x that is a right child. */
    method DeleteStepRight(x0: Node, rl: Node, ghost c: Ctx, ghost t: Tree, ghost k: nat)
      returns (x: Node, ghost done: bool, ghost c': Ctx, ghost t': Tree, ghost k': nat)
      requires Ok() && B().At(Snap(), c, t) && x0.parent == B().Parent(c) && x0 == B().Ptr(t)
      requires Deficit(c, t, k) && !Red(t) && c.InRight? && root.left == rl
      modifies nodes, root`left, root`right
      ensures Ok() && B().At(Snap(), c', t') && Inorder(Plug(c', t')) == Inorder(Plug(c, t))
      ensures done ==> x == rl && !rl.red && c'.Top? && Balanced(t') && Exact(t')
      ensures !done ==> x == B().Ptr(t') && x.parent == B().Parent(c') && Deficit(c', t', k')
      ensures !done && !Red(t') ==> root.left == rl && Depth(c') < Depth(c)
    {
      hide Base.At, Inorder, Balanced, Exact, CtxExact, CtxRedBlack;
      ghost var b, cc := B(), c;
      x := x0;
      b.LookSiblingRight(Snap(), c, t);
      SiblingBin(c, t, k);
      b.RootNode(Snap(), c, t);
      assert c.up.Top? ==> Plug(c, t) == Fill(c, t);
      if !c.up.Top? { PlugNode(c.up, Fill(c, t), Fill(c, t)); }
      var w := x.parent.left;
      if w.red {
        w, cc := Case1RightAt(x, w, c, t, k);
        SiblingBin(cc, t, k);
        if !c.up.Top? { PlugNode(c.up, Fill(c, t), Fill(cc.up, Fill(cc, t))); }
        assert Plug(cc, t) == Plug(cc.up, Fill(cc, t));
        b.LookSiblingRight(Snap(), cc, t);
      }
      x, done, c', t', k' := BlackSiblingRight(x, w, rl, cc, t, k, c.up.Top?);
    }

    /** The sibling w and both its children are black: w becomes red, and x moves up. */
    method MoveUpRight(x: Node, w: Node, ghost c: Ctx, ghost t: Tree, ghost k: nat)
      returns (ghost c': Ctx, ghost t': Tree)
      requires Ok() && B().At(Snap(), c, t) && x.parent == B().Parent(c) && x == B().Ptr(t)
      requires Deficit(c, t, k) && !Red(t) && c.InRight? && c.left.Bin? && w == c.left.node
      requires !c.left.red && !Red(c.left.left) && !Red(c.left.right)
      modifies nodes`red
      ensures Ok() && B().At(Snap(), c', t') && Inorder(Plug(c', t')) == Inorder(Plug(c, t))
      ensures t'.Bin? && x.parent == t'.node && x.parent.parent == B().Parent(c') && c' == c.up && t'.red == c.red
      ensures Deficit(c', t', if c.red then k else k + 1)
    {
      hide Base.At, Deficit, Inorder, Balanced, Exact;
      ghost var b, f := B(), Fill(c, t);
      b.Zip(Snap(), c, t);
      b.LookBelow(Snap(), c.up, f);
      SetLeftRed(w, true, c.up, f);
      Case2(c, t, k);
      c', t' := c.up, f.(left := f.left.(red := true));
      SameSpine(c.up, f, t');
      b.Look(Snap(), c', t');
    }

  
    /** The last statement of deleteFixup; the node to paint may be nil, which is black anyway. */
    method Blacken(x: Node, ghost c: Ctx, ghost t: Tree)
      requires Ok() && B().At(Snap(), c, t) && (if x.red then t.Bin? && x == t.node else x == B().Ptr(t) || x != root)
      modifies x`red
      ensures Ok() && B().At(Snap(), c, if old(x.red) then t.(red := false) else t)
    {
      hide Base.At;
      ghost var h, r := Snap(), x.red;
      x.red := false;
      if r {
        B().Look(h, c, t);
        B().Relabelled(h, Snap(), c, t, false, t.mx);
      } else {
        assert Snap() == h;
      }
    }

    /** Restores the balance after a black node has been spliced out above x. */
    method DeleteFixup(x0: Node, ghost c0: Ctx, ghost t0: Tree, ghost k0: nat) returns (ghost t': Tree)
      requires Ok() && B().At(Snap(), c0, t0) && x0.parent == B().Parent(c0) && x0 == B().Ptr(t0)
      requires Deficit(c0, t0, k0)
      modifies nodes, root`left, root`right, nil`red
      ensures Ok() && B().At(Snap(), Top, t') && Balanced(t') && Exact(t')
      ensures Inorder(t') == Inorder(Plug(c0, t0))
    {
      hide Base.At, Deficit, Inorder, Balanced, Exact;
      var x := x0;
      var rootLeft := root.left;
      ghost var c, t, k, done := c0, t0, k0, false;
      B().RootNode(Snap(), c, t);
      B().ZipAll(Snap(), c, t);
      if Plug(c, t).Bin? { B().Look(Snap(), Top, Plug(c, t)); }
      while !x.red && rootLeft != x
        invariant Ok() && B().At(Snap(), c, t) && Inorder(Plug(c, t)) == Inorder(Plug(c0, t0))
        invariant done ==> x == rootLeft && !rootLeft.red && c.Top? && Balanced(t) && Exact(t)
        invariant !done ==> x == B().Ptr(t) && x.parent == B().Parent(c) && Deficit(c, t, k)
        invariant (!done && !Red(t) ==> root.left == rootLeft) && (rootLeft == nil || rootLeft in nodes)
        decreases if done || Red(t) then 0 else Depth(c) + 1
      {
        B().LookX(Snap(), c, t);
        SiblingBin(c, t, k);
        if x == x.parent.left {
          x, done, c, t, k := DeleteStepLeft(x, rootLeft, c, t, k);
        } else {
          x, done, c, t, k := DeleteStepRight(x, rootLeft, c, t, k);
        }
      }
      B().LookX(Snap(), c, t);
      t' := EndFixup(x, done, c, t, k);
    }

    /** The statement after the loop: x, where the loop has ended, becomes black. */
    method EndFixup(x: Node, ghost done: bool, ghost c: Ctx, ghost t: Tree, ghost k: nat) returns (ghost t': Tree)
      requires Ok() && B().At(Snap(), c, t)
      requires if done then c.Top? && Balanced(t) && Exact(t) && !x.red && x != root
               else x == B().Ptr(t) && Deficit(c, t, k) && (Red(t) || c.Top?)
      modifies x`red
      ensures Ok() && B().At(Snap(), Top, t') && Balanced(t') && Exact(t') && Inorder(t') == Inorder(Plug(c, t))
    {
      hide Base.At, Deficit, Inorder, Balanced, Exact;
      B().LookX(Snap(), c, t);
      if !done { DeficitDone(c, t, k); }
      ghost var t1 := if x.red then t.(red := false) else t;
      Blacken(x, c, t);
      B().ZipAll(Snap(), c, t1);
      t' := Plug(c, t1);
    }
  
    method GetMinimum(x0: Node, ghost c: Ctx, ghost t: Tree) returns (x: Node)
      requires B().At(Snap(), c, t) && t.Bin? && x0 == t.node
      ensures x == MinTree(t).node
    {
      hide Base.At;
      x := x0;
      ghost var cc, tt := c, t;
      B().LookX(Snap(), cc, tt);
      B().LookBelow(Snap(), cc, tt);
      while x.left != nil
        invariant B().At(Snap(), cc, tt) && tt.Bin? && x == tt.node && x.left == B().Ptr(tt.left)
                  && MinTree(tt) == MinTree(t)
        invariant nil !in Snap() && (tt.left.Bin? ==> tt.left.node != nil)
        decreases tt
      {
        cc, tt := InLeft(cc, tt.node, tt.red, tt.mx, tt.right), tt.left;
        B().Zip(Snap(), cc, tt);
        x := x.left;
        B().LookBelow(Snap(), cc, tt);
      }
    }

    /** The next node in order; the sentinel root if there is none. */
    method GetSuccessor(x0: Node, ghost c0: Ctx, ghost t0: Tree) returns (y: Node)
      requires Ok() && B().At(Snap(), c0, t0) && t0.Bin? && x0 == t0.node
      ensures t0.right.Bin? ==> y == MinTree(t0.right).node
      ensures var s, i := Inorder(Plug(c0, t0)), |Before(c0)| + |Inorder(t0.left)|;
        i < |s| && s[i] == x0 && y == if i + 1 < |s| then s[i + 1] else root
    {
      hide Base.At, Inorder;
      ghost var b := B();
      SuccessorIndex(c0, t0);
      b.LookBelow(Snap(), c0, t0);
      if nil != x0.right {
        ghost var c := InRight(c0, t0.left, t0.node, t0.red, t0.mx);
        b.Zip(Snap(), c, t0.right);
        y := GetMinimum(x0.right, c, t0.right);
      } else {
        var x := x0;
        y := x.parent;
        ghost var c, t := c0, t0;
        while y != nil && x == y.right
          invariant B().At(Snap(), c, t) && t.Bin? && x == t.node && y == B().Parent(c) && After(c) == After(c0)
          decreases c
        {
          b.LookX(Snap(), c, t);
          b.LookSide(Snap(), c, t);
          b.Zip(Snap(), c, t);
          c, t := c.up, Fill(c, t);
          b.LookSide(Snap(), c, t);
          x := y;
          y := y.parent;
        }
        b.LookX(Snap(), c, t);
        b.LookSide(Snap(), c, t);
      }
    }

    // The pointer moves of deleteNode.

    /** The only child of y takes its place. */
    method Splice(y: Node) returns (x: Node)
      requires y.parent != y
      modifies {if y.left == nil then y.right else y.left}`parent, y.parent`left, y.parent`right
      ensures x == old(if y.left == nil then y.right else y.left) && x.parent == old(y.parent)
      ensures var p := old(y.parent);
        if p == root || y == old(p.left) then p.left == x && p.right == old(p.right)
        else p.right == x && p.left == old(p.left)
    {
      x := if y.left == nil then y.right else y.left;
      x.parent := y.parent;
      if root == x.parent {
        root.left := x;
      } else if y == x.parent.left {
        x.parent.left := x;
      } else {
        x.parent.right := x;
      }
    }

    method SpliceAt(y: Node, ghost c: Ctx, ghost t: Tree) returns (x: Node, ghost xt: Tree)
      requires Ok() && B().At(Snap(), c, t) && t.Bin? && y == t.node && (t.left.Leaf? || t.right.Leaf?)
      modifies nodes`parent, nodes`left, nodes`right, root`left, root`right, nil`parent
      ensures Ok() && xt == (if t.left.Leaf? then t.right else t.left) && B().At(Snap(), c, xt)
      ensures x == B().Ptr(xt) && x.parent == B().Parent(c)
      ensures y in nodes && y.red == t.red && B().Lo(c) < B().Rank(y) < B().Hi(c)
      ensures t.left.Leaf? ==> B().Rep(Snap(), xt, B().Parent(c), B().Rank(y), B().Hi(c))
    {
      hide Base.At, Base.Rep;
      ghost var b, h := B(), Snap();
      b.LookBelow(h, c, t);
      b.LookX(h, c, t);
      b.LookSide(h, c, t);
      b.Apart(h, c, t);
      xt := if t.left.Leaf? then t.right else t.left;
      x := Splice(y);
      ghost var h' := Snap();
      b.Spliced(h, h', c, t, xt);
    }
  
    method SetRedUp(n: Node, red: bool, ghost c: Ctx, ghost t: Tree, ghost d: nat)
      requires B().At(Snap(), c, t) && d < Depth(c) && n == NodeUp(c, d)
      modifies n`red
      ensures B().At(Snap(), PaintUp(c, d, red), t)
    {
      hide Base.At;
      ghost var b, h := B(), Snap();
      b.NodeUpIn(h, c, t, d);
      n.red := red;
      b.PaintedUp(h, Snap(), c, t, d, red);
    }

    /** The node y, which has been spliced out, takes the place of z. */
    method TakePlace(y: Node, z: Node)
      requires z !in {y, z.left, z.right, z.parent} && y !in {z.left, z.right, z.parent}
      requires z.parent !in {z.left, z.right}
      modifies y, z.left`parent, z.right`parent, z.parent`left, z.parent`right
      ensures y.maxHigh == -MAX_TIME && y.red == old(y.red)
      ensures y.left == old(z.left) && y.right == old(z.right) && y.parent == old(z.parent)
      ensures old(z.left).parent == y && old(z.right).parent == y
      ensures var p := old(z.parent);
        if z == old(p.left) then p.left == y && p.right == old(p.right) else p.right == y && p.left == old(p.left)
    {
      y.maxHigh := -MAX_TIME;
      y.left := z.left;
      y.right := z.right;
      y.parent := z.parent;
      z.right.parent := y;
      z.left.parent := y;
      if z == z.parent.left {
        z.parent.left := y;
      } else {
        z.parent.right := y;
      }
    }

    method TakePlaceAt(y: Node, z: Node, ghost c: Ctx, ghost t: Tree)
      requires Ok() && B().At(Snap(), c, t) && t.Bin? && t.left.Bin? && z == t.node && y in nodes
      requires B().Rep(Snap(), t.right, z, B().Rank(y), B().Hi(c)) && B().Rank(z) < B().Rank(y) < B().Hi(c)
      modifies nodes, root`left, root`right, nil`parent
      ensures Ok() && B().At(Snap(), c, Bin(t.left, y, y.red, -MAX_TIME, t.right))
      ensures y.red == old(y.red) && z.red == old(z.red)
      ensures nil.parent == if t.right.Leaf? then y else old(nil.parent)
    {
      hide Base.At, Base.Rep;
      ghost var b, h := B(), Snap();
      b.LookBelow(h, c, t);
      b.LookX(h, c, t);
      b.LookSide(h, c, t);
      b.Apart(h, c, t);
      b.YApart(h, c, t, y);
      TakePlace(y, z);
      ghost var h' := Snap();
      b.Replaced(h, h', c, t, y, -MAX_TIME);
    }
  
    /** The end of deleteNode when z itself has been spliced out. */
    method FinishOne(x: Node, y: Node, ghost c: Ctx, ghost xt: Tree, ghost k: nat) returns (ghost t': Tree)
      requires Ok() && B().At(Snap(), c, xt) && x == B().Ptr(xt) && x.parent == B().Parent(c)
      requires Hole(c, xt, y.red, k)
      modifies nodes, root`left, root`right, nil`red
      ensures Ok() && B().At(Snap(), Top, t') && Balanced(t') && Exact(t')
      ensures Inorder(t') == Inorder(Plug(c, xt))
    {
      hide Base.At, Hole, Deficit, Inorder, Balanced, Exact;
      FixupMaxHigh(x.parent, c, xt);
      ghost var c' := Refit(c, Mx(xt));
      HoleRefit(c, xt, y.red, k);
      RefitInorder(c, xt, Mx(xt));
      SameParent(c, Mx(xt));
      if !y.red {
        t' := DeleteFixup(x, c', xt, k);
      } else {
        B().ZipAll(Snap(), c', xt);
        t' := Plug(c', xt);
      }
    }

    /** The spliced-out node y takes the place of z, where t is the tree at z before the splice. */
    method Seat(x: Node, y: Node, z: Node, ghost c: Ctx, ghost t: Tree, ghost xt: Tree)
      requires Ok() && t.Bin? && t.left.Bin? && t.right.Bin? && z == t.node && y in nodes && x == B().Ptr(xt)
      requires var cy := MinCtx(InRight(c, t.left, z, t.red, t.mx), t.right);
        && B().At(Snap(), cy, xt) && x.parent == B().Parent(cy) && B().Lo(cy) < B().Rank(y) < B().Hi(cy)
        && B().Rep(Snap(), xt, B().Parent(cy), B().Rank(y), B().Hi(cy))
      modifies nodes, root`left, root`right, nil`parent
      ensures Ok() && y.red == old(y.red) && z.red == old(z.red)
      ensures var c' := MinCtx(InRight(c, t.left, y, y.red, -MAX_TIME), t.right);
        B().At(Snap(), c', xt) && x.parent == B().Parent(c')
    {
      hide Base.At, Base.Rep;
      ghost var b, r := B(), t.right;
      b.MinSplicedAt(Snap(), c, t, xt, y);
      TakePlaceAt(y, z, c, t.(right := PutMin(r, xt)));
      ghost var b2, bz := InRight(c, t.left, y, y.red, -MAX_TIME), InRight(c, t.left, z, t.red, t.mx);
      MinPlug(b2, r, xt);
      b.ZipAll(Snap(), MinCtx(b2, r), xt);
      b.ZipAll(Snap(), c, Bin(t.left, y, y.red, -MAX_TIME, PutMin(r, xt)));
      MinParent(b2, bz, r);
      if xt.Bin? { b.LookUp(Snap(), MinCtx(b2, r), xt); }
    }

    /** The end of deleteNode when y has taken the place of z: y gets the colour of z too. */
    method FinishTwo(x: Node, y: Node, z: Node, ghost c: Ctx, ghost t: Tree, ghost xt: Tree, ghost k: nat)
      returns (ghost t': Tree)
      requires Ok() && t.Bin? && t.right.Bin? && x == B().Ptr(xt)
      requires var c2 := MinCtx(InRight(c, t.left, y, y.red, -MAX_TIME), t.right);
        B().At(Snap(), c2, xt) && x.parent == B().Parent(c2)
      requires Hole(MinCtx(InRight(c, t.left, y, z.red, -MAX_TIME), t.right), xt, y.red, k)
      modifies nodes, root`left, root`right, nil`red
      ensures Ok() && B().At(Snap(), Top, t') && Balanced(t') && Exact(t')
      ensures Inorder(t') == Inorder(Plug(MinCtx(InRight(c, t.left, y, old(z.red), -MAX_TIME), t.right), xt))
    {
      hide Base.At, Hole, Deficit, Inorder, Balanced, Exact, MinCtx, MinDepth, NodeUp, PaintUp;
      ghost var r, m := t.right, Mx(xt);
      ghost var c2 := MinCtx(InRight(c, t.left, y, y.red, -MAX_TIME), r);
      ghost var cz := MinCtx(InRight(c, t.left, y, z.red, -MAX_TIME), r);
      FixupMaxHigh(x.parent, c2, xt);
      RepaintSeat(c, t.left, y, y.red, z.red, r, m);
      HoleRefit(cz, xt, y.red, k);
      RefitInorder(cz, xt, m);
      B().NodeUpIn(Snap(), Refit(c2, m), xt, MinDepth(r));
      if !y.red {
        SetRedUp(y, z.red, Refit(c2, m), xt, MinDepth(r));
        t' := DeleteFixup(x, Refit(cz, m), xt, k);
      } else {
        SetRedUp(y, z.red, Refit(c2, m), xt, MinDepth(r));
        B().ZipAll(Snap(), Refit(cz, m), xt);
        t' := Plug(Refit(cz, m), xt);
      }
    }

    /** Painting y, which sits on the path above the hole. */
    lemma RepaintSeat(c: Ctx, l: Tree, y: Node, red: bool, red': bool, r: Tree, m: Time)
      requires r.Bin?
      ensures var c2, cz := MinCtx(InRight(c, l, y, red, -MAX_TIME), r), MinCtx(InRight(c, l, y, red', -MAX_TIME), r);
        && MinDepth(r) < Depth(Refit(c2, m)) && NodeUp(Refit(c2, m), MinDepth(r)) == y
        && PaintUp(Refit(c2, m), MinDepth(r), red') == Refit(cz, m)
        && B().Parent(c2) == B().Parent(Refit(cz, m))
    {
      var b, b' := InRight(c, l, y, red, -MAX_TIME), InRight(c, l, y, red', -MAX_TIME);
      PaintMinCtx(b, r, 0, red');
      PaintRefit(MinCtx(b, r), m, MinDepth(r), red');
      MinParent(b, b', r);
      SameParent(MinCtx(b', r), m);
    }

    lemma SameParent(c: Ctx, m: Time)
      ensures B().Parent(Refit(c, m)) == B().Parent(c)
    {
    }
  
    /** Takes the node z out of the tree. */
    method DeleteNode(z: Node) returns (gone: Interval?, ghost i: nat)
      requires Valid() && z in Inorder(tree)
      modifies this`tree, nodes, root`left, root`right, nil`red, nil`parent
      ensures Valid() && gone == z.interval != null
      ensures Removed(old(Inorder(tree)), i, z, Inorder(tree))
      ensures i < |old(Contents())| && Contents() == old(Contents())[..i] + old(Contents())[i + 1..]
      ensures old(multiset(Contents())) == multiset(Contents()) + multiset{gone}
    {
      hide Base.At, Base.Rep, Hole, Inorder, Balanced, Exact, Sorted, Removed, MinCtx, MinTree, Before, BlackHeight;
      hide Stored, Intervals;
      ghost var was := tree;
      CarriesAll(was);
      IntervalsStored(was);
      gone := z.interval;
      ghost var b, c, t := B(), Top, Leaf;
      c, t := Locate(Top, tree, z);
      b.ZipAll(Snap(), c, t);
      b.LookBelow(Snap(), c, t);
      b.LookX(Snap(), c, t);
      i := |Before(c)| + |Inorder(t.left)|;
      ghost var t';
      if z.left == nil || z.right == nil {
        t' := DeleteOne(z, c, t);
        SpliceRemoves(c, t);
      } else {
        var y := GetSuccessor(z, c, t);
        t' := DeleteTwo(z, y, c, t);
        SuccessorRemoves(c, t, -MAX_TIME);
      }
      RemovedSorted(Inorder(tree), i, z, Inorder(t'));
      RemovedNodes(Inorder(tree), i, z, Inorder(t'));
      Settle(t');
      CarriesAll(t');
      IntervalsStored(t');
      RemovedStored(Inorder(was), i, z, Inorder(t'), Intervals(was), Intervals(t'));
    }

    /** The branch of deleteNode for a z with at most one child. */
    method DeleteOne(z: Node, ghost c: Ctx, ghost t: Tree) returns (ghost t': Tree)
      requires Ok() && B().At(Snap(), c, t) && t.Bin? && (t.left.Leaf? || t.right.Leaf?) && z == t.node
      requires Balanced(Plug(c, t)) && Exact(Plug(c, t))
      modifies nodes, root`left, root`right, nil`red, nil`parent
      ensures Ok() && B().At(Snap(), Top, t') && Balanced(t') && Exact(t')
      ensures Inorder(t') == Inorder(Plug(c, if t.left.Leaf? then t.right else t.left))
    {
      hide Base.At, Base.Rep, Hole, Inorder, Balanced, Exact;
      HoleAt(c, t);
      ghost var xt;
      var x;
      x, xt := SpliceAt(z, c, t);
      t' := FinishOne(x, z, c, xt, BlackHeight(t));
    }

    /** The branch of deleteNode for a z with two children, whose successor is y. */
    method DeleteTwo(z: Node, y: Node, ghost c: Ctx, ghost t: Tree) returns (ghost t': Tree)
      requires Ok() && B().At(Snap(), c, t) && t.Bin? && t.left.Bin? && t.right.Bin? && z == t.node
      requires Balanced(Plug(c, t)) && Exact(Plug(c, t)) && y == MinTree(t.right).node
      modifies nodes, root`left, root`right, nil`red, nil`parent
      ensures Ok() && B().At(Snap(), Top, t') && Balanced(t') && Exact(t')
      ensures var c' := MinCtx(InRight(c, t.left, y, t.red, -MAX_TIME), t.right);
        Inorder(t') == Inorder(Plug(c', MinTree(t.right).right))
    {
      hide Base.At, Base.Rep, Hole, Inorder, Balanced, Exact;
      ghost var b, r, m := B(), t.right, MinTree(t.right);
      ghost var bz := InRight(c, t.left, z, t.red, t.mx);
      b.LookX(Snap(), c, t);
      b.ZipAll(Snap(), c, t);
      MinPlug(bz, r, m);
      b.ZipAll(Snap(), MinCtx(bz, r), m);
      SuccessorHole(c, t, -MAX_TIME);
      ghost var xt;
      var x;
      x, xt := SpliceAt(y, MinCtx(bz, r), m);
      Seat(x, y, z, c, t, xt);
      t' := FinishTwo(x, y, z, c, t, xt, BlackHeight(m));
    }
  
    // ---------- search by interval ----------

    method RecursiveSearch(node: Node, ivl: Interval, ghost t: Tree) returns (r: Node)
      requires B().Spells(Snap(), t) && node == B().Ptr(t)
      ensures if exists n :: n in Inorder(t) && n.interval == ivl then r in Inorder(t) && r.interval == ivl && r != nil
              else r == nil
      decreases t
    {
      if node != nil {
        if node.interval == ivl {
          return node;
        }
        var left := RecursiveSearch(node.left, ivl, t.left);
        if left != nil {
          return left;
        }
        var right := RecursiveSearch(node.right, ivl, t.right);
        if right != nil {
          return right;
        }
      }
      return nil;
    }

    /** Takes out one node that stores ivl, if there is one. */
    method DeleteInterval(ivl: Interval) returns (ghost gone: bool, ghost i: nat, ghost z: Node)
      requires Valid()
      modifies this`tree, nodes, root`left, root`right, nil`red, nil`parent
      ensures Valid() && gone == exists n :: n in old(Inorder(tree)) && n.interval == ivl
      ensures gone ==> z.interval == ivl && Removed(old(Inorder(tree)), i, z, Inorder(tree))
      ensures !gone ==> tree == old(tree)
      ensures gone <==> ivl in old(Contents())
      ensures multiset(Contents()) == old(multiset(Contents())) - multiset{ivl}
    {
      hide Base.At, Base.Rep, Balanced, Exact, Sorted, Removed, Inorder, Intervals;
      CarriesAll(tree);
      IntervalsStored(tree);
      B().WholeSpells(Snap(), tree);
      ghost var whole := Bin(tree, root, false, 0, Leaf);
      SentinelNodes(tree, root, ivl);
      z := root;
      var node := RecursiveSearch(root, ivl, whole);
      gone, i := node != nil, 0;
      if node != nil {
        z := node;
        var freed;
        freed, i := DeleteNode(node);
      }
    }

    // ---------- query ----------

    /** The entries above the first one are the frames s, innermost last. */
    ghost predicate Stacked(s: seq<Frame>)
      reads this`stack, this`top, stack
    {
      && top == |s| + 1 <= stack.Length
      && forall i :: 0 <= i < |s| ==> s[i].t.Bin? && stack[i + 1] == Entry(s[i].t.node, i, s[i].hit)
    }

    /** Makes room for one more entry. */
    method Grow()
      requires stack.Length > 0
      modifies this`stack
      ensures fresh(stack) && stack.Length == 2 * old(stack.Length)
      ensures forall i :: 0 <= i < old(stack.Length) ==> stack[i] == old(stack[i])
    {
      var bigger := new Entry[2 * stack.Length];
      forall i | 0 <= i < stack.Length {
        bigger[i] := stack[i];
      }
      stack := bigger;
    }

    /** The node whose left subtree is being searched learns of an answer. */
    method Mark(ghost s: seq<Frame>)
      requires Stacked(s) && currentParent == |s|
      modifies stack
      ensures Stacked(Note(s, true))
    {
      stack[currentParent] := stack[currentParent].(tryRight := true);
    }

    /** Saves x, the node of t, before its left subtree is searched. */
    method Push(x: Node, ghost s: seq<Frame>, ghost t: Tree)
      requires Stacked(s) && currentParent == |s| && t.Bin? && x == t.node
      modifies this`stack, this`top, this`currentParent, stack
      ensures Stacked(s + [Frame(t, false)]) && currentParent == |s| + 1
      ensures stack == old(stack) || (fresh(stack) && stack.Length == 2 * (|s| + 1))
    {
      if top == stack.Length {
        Grow();
      }
      stack[top] := Entry(x, currentParent, false);
      currentParent := top;
      top := top + 1;
    }

    /** Visits x, the node of t, and says where to go on. */
    method QueryVisit(x: Node, low: Time, high: Time, ghost h: Cells, ghost t: Tree, ghost s: seq<Frame>,
                      ghost bound: nat)
      returns (next: Node, hits: seq<Interval>, ghost t': Tree, ghost s': seq<Frame>)
      requires nil.maxHigh == -MAX_TIME && Snap() == h && t.Bin? && x == t.node
      requires Stacked(s) && currentParent == |s| && Underway(B(), h, t, s, bound)
      modifies this`stack, this`top, this`currentParent, stack
      ensures next == B().Ptr(t') && Stacked(s') && currentParent == |s'| && Underway(B(), h, t', s', bound)
      ensures ToCome(t, s, low, high) == hits + ToCome(t', s', low, high)
      ensures Work(t') + StackWork(s') < Work(t) + StackWork(s)
      ensures stack == old(stack) || (fresh(stack) && stack.Length <= 2 * bound)
    {
      hide Underway, ToCome, StackWork;
      UnderwayHere(B(), h, t, s, bound);
      hits := if Overlap(low, high, x.key, x.high) then [x.interval] else [];
      if Overlap(low, high, x.key, x.high) {
        Mark(s);
      }
      s' := Note(s, |hits| > 0);
      StackWorkNote(s, |hits| > 0);
      if x.left.maxHigh >= low {
        Push(x, s', t);
        UnderwayLeft(B(), h, t, s, bound, |hits| > 0);
        VisitLeft(t, s, low, high);
        StackWorkPush(s', Frame(t, false));
        t', s' := t.left, s' + [Frame(t, false)];
        next := x.left;
      } else {
        UnderwayRight(B(), h, t, s, bound, |hits| > 0);
        VisitRight(t, s, low, high);
        t' := t.right;
        next := x.right;
      }
    }
  
    /** Takes the innermost saved node from the stack; if its left subtree has given an answer, the
        next saved node learns of it too. */
    method Pop(ghost s: seq<Frame>) returns (go: bool, start: Node)
      requires Stacked(s) && s != []
      modifies this`top, this`currentParent, stack
      ensures var f, rest := s[|s| - 1], s[..|s| - 1];
        && go == f.hit && start == f.t.node
        && if go then Stacked(Note(rest, true)) && currentParent == |rest| else Stacked(rest)
    {
      assert stack[|s| - 1 + 1] == Entry(s[|s| - 1].t.node, |s| - 1, s[|s| - 1].hit);
      top := top - 1;
      go, start := stack[top].tryRight, stack[top].start;
      if go {
        currentParent := stack[top].parentIndex;
        stack[currentParent] := stack[currentParent].(tryRight := true);
      }
    }

    /** The right subtree of a saved node is searched only if its left one has given an answer. */
    method QueryPop(ghost low: Time, ghost high: Time, ghost h: Cells, ghost s: seq<Frame>, ghost bound: nat)
      returns (next: Node, ghost t': Tree, ghost s': seq<Frame>)
      requires Snap() == h && Stacked(s) && s != [] && Underway(B(), h, Leaf, s, bound)
      modifies this`top, this`currentParent, stack
      ensures next == B().Ptr(t') && Stacked(s') && Underway(B(), h, t', s', bound)
      ensures next != nil ==> currentParent == |s'|
      ensures ToCome(Leaf, s, low, high) == ToCome(t', s', low, high)
      ensures Work(t') + StackWork(s') < StackWork(s)
    {
      UnderwayPop(B(), h, s, bound);
      PopToCome(s, low, high);
      ghost var f, rest := s[|s| - 1], s[..|s| - 1];
      StackWorkNote(rest, true);
      hide Underway, ToCome, Note, Stacked;
      var go, start := Pop(s);
      if go {
        next, t', s' := start.right, f.t.right, Note(rest, true);
      } else {
        next, t', s' := nil, Leaf, rest;
      }
    }

    /** Pops until a subtree is found that has to be searched, or the stack is empty. */
    method Backtrack(x0: Node, ghost low: Time, ghost high: Time, ghost h: Cells, ghost t0: Tree,
                     ghost s0: seq<Frame>, ghost bound: nat)
      returns (x: Node, ghost t: Tree, ghost s: seq<Frame>)
      requires Snap() == h && Stacked(s0) && Underway(B(), h, t0, s0, bound) && x0 == B().Ptr(t0)
      requires x0 != nil ==> currentParent == |s0|
      modifies this`top, this`currentParent, stack
      ensures Stacked(s) && Underway(B(), h, t, s, bound) && Carries(t) && CarriesStack(s) && x == B().Ptr(t)
      ensures if x != nil then currentParent == |s| else t == Leaf && s == []
      ensures ToCome(t, s, low, high) == ToCome(t0, s0, low, high)
      ensures Work(t) + StackWork(s) <= Work(t0) + StackWork(s0)
    {
      hide Underway, ToCome, StackWork, Work, Note, Base.Spells;
      ghost var b := B();
      x, t, s := x0, t0, s0;
      UnderwayCarries(b, h, t, s, bound);
      while x == nil && top > 1
        invariant B() == b && Snap() == h && Stacked(s) && x == b.Ptr(t)
        invariant Underway(b, h, t, s, bound) && Carries(t) && CarriesStack(s)
        invariant if x != nil then currentParent == |s| else t == Leaf
        invariant ToCome(t, s, low, high) == ToCome(t0, s0, low, high)
        invariant Work(t) + StackWork(s) <= Work(t0) + StackWork(s0)
        decreases Work(t) + StackWork(s)
      {
        x, t, s := QueryPop(low, high, h, s, bound);
        UnderwayCarries(b, h, t, s, bound);
      }
    }

    /** One turn of the loop of query. */
    method QueryTurn(x0: Node, low: Time, high: Time, ghost h: Cells, ghost t0: Tree, ghost s0: seq<Frame>,
                     ghost bound: nat)
      returns (x: Node, hits: seq<Interval>, ghost t: Tree, ghost s: seq<Frame>)
      requires nil.maxHigh == -MAX_TIME && Snap() == h && t0.Bin? && x0 == t0.node
      requires Stacked(s0) && currentParent == |s0| && Underway(B(), h, t0, s0, bound)
      modifies this`stack, this`top, this`currentParent, stack
      ensures Stacked(s) && Underway(B(), h, t, s, bound) && Carries(t) && CarriesStack(s) && x == B().Ptr(t)
      ensures if x != nil then currentParent == |s| && t.Bin? else t == Leaf && s == []
      ensures ToCome(t0, s0, low, high) == hits + ToCome(t, s, low, high)
      ensures Work(t) + StackWork(s) < Work(t0) + StackWork(s0)
      ensures stack == old(stack) || (fresh(stack) && stack.Length <= 2 * bound)
    {
      hide Underway, ToCome, StackWork, Work, Note, Base.Spells, Carries, CarriesStack;
      x, hits, t, s := QueryVisit(x0, low, high, h, t0, s0, bound);
      x, t, s := Backtrack(x, low, high, h, t, s, bound);
    }

    method Collect(low: Time, high: Time) returns (result: seq<Interval>)
      requires Valid()
      modifies this`stack, this`top, this`currentParent, stack
      ensures Valid() && Carries(tree) && result == Search(tree, low, high)
      ensures stack == old(stack) || (fresh(stack) && stack.Length <= 2 * Height(tree))
    {
      hide Base.At, Base.Spells, Balanced, Exact, Sorted, Underway, ToCome, StackWork, Work, Note, Search, Height;
      hide Carries, CarriesStack, Inorder, Snap;
      result := [];
      var x := root.left;
      var run := x != nil;
      currentParent := 0;
      ghost var b, h, t, s, bound := B(), Snap(), tree, [], Height(tree);
      b.StartQuery(h, tree);
      SnapRoot();
      CarriesAll(tree);
      UnderwayStart(b, h, tree);
      ToComeEnds(tree, low, high);
      while run
        invariant B() == b && Snap() == h && Ok() && Stacked(s) && run == (x != nil) && x == b.Ptr(t)
        invariant Underway(b, h, t, s, bound) && Carries(t) && CarriesStack(s)
        invariant if run then currentParent == |s| else t == Leaf && s == []
        invariant Search(tree, low, high) == result + ToCome(t, s, low, high)
        invariant stack == old(stack) || (fresh(stack) && stack.Length <= 2 * bound)
        decreases Work(t) + StackWork(s)
      {
        var hits;
        ghost var was := result;
        x, hits, t, s := QueryTurn(x, low, high, h, t, s, bound);
        result := result + hits;
        Joined(was, hits, ToCome(t, s, low, high));
        run := x != nil;
      }
    }

    /** The stored intervals that overlap [low, high]. */
    method Query(low: Time, high: Time) returns (result: seq<Interval>)
      requires Valid()
      modifies this`stack, this`top, this`currentParent, stack
      ensures Valid() && tree == old(tree) && Contents() == old(Contents())
      ensures multiset(result) <= multiset(Scan(Contents(), low, high))
      ensures -MAX_TIME < low && (forall i | i in Contents() :: i.low <= i.high) ==>
                multiset(result) == multiset(Scan(Contents(), low, high))
      ensures stack == old(stack) || (fresh(stack) && stack.Length <= 2 * Height(tree))
    {
      hide Base.At, Base.Spells, Balanced, Exact, Sorted, Scan, Intervals, Search, Inorder;
      result := Collect(low, high);
      CarriesAll(tree);
      SearchAnswers(tree, low, high);
    }
  }
}
