/** What a query of the interval tree visits, and why skipping subtrees loses no answer. */
module IntervalQueries {
  import opened IntervalNodes

  /** Do [a1, a2] and [b1, b2] overlap? */
  predicate Overlap(a1: Time, a2: Time, b1: Time, b2: Time) {
    if a1 <= b1 then b1 <= a2 else a1 <= b2
  }

  predicate Within(a: Time, p: Time, b: Time) {
    a <= p <= b
  }

  /** Some point of time lies in [a1, a2] and in [b1, b2]. */
  ghost predicate Meet(a1: Time, a2: Time, b1: Time, b2: Time) {
    exists p: Time :: Within(a1, p, a2) && Within(b1, p, b2)
  }

  lemma OverlapMeet(a1: Time, a2: Time, b1: Time, b2: Time)
    requires a1 <= a2 && b1 <= b2
    ensures Overlap(a1, a2, b1, b2) <==> Meet(a1, a2, b1, b2)
  {
    if Overlap(a1, a2, b1, b2) {
      var p: Time := if a1 <= b1 then b1 else a1;
      assert Within(a1, p, a2) && Within(b1, p, b2);
    }
  }

  predicate Carrier(n: Node) {
    n.interval != null && n.key == n.interval.low && n.high == n.interval.high
  }

  /** All nodes of t store intervals, and have their ends as key and upper end. */
  predicate Carries(t: Tree) {
    t.Bin? ==> Carrier(t.node) && Carries(t.left) && Carries(t.right)
  }

  lemma {:induction false} CarriesAll(t: Tree)
    ensures Carries(t) <==> forall n | n in Inorder(t) :: Carrier(n)
  {
    if t.Bin? {
      CarriesAll(t.left);
      CarriesAll(t.right);
    }
  }

  function Intervals(t: Tree): seq<Interval>
    requires Carries(t)
  {
    if t.Leaf? then [] else Intervals(t.left) + [t.node.interval] + Intervals(t.right)
  }

  /** What the nodes of s store, one by one. */
  ghost predicate Stored(s: seq<Node>, ivls: seq<Interval>) {
    |ivls| == |s| && forall k :: 0 <= k < |s| ==> s[k].interval == ivls[k]
  }

  lemma {:induction false} IntervalsStored(t: Tree)
    requires Carries(t)
    ensures Stored(Inorder(t), Intervals(t))
  {
    if t.Bin? {
      IntervalsStored(t.left);
      IntervalsStored(t.right);
    }
  }

  /** One more node is one more stored interval. */
  lemma InsertedStored(s: seq<Node>, k: nat, z: Node, s': seq<Node>, a: seq<Interval>, b: seq<Interval>)
    requires Inserted(s, k, z, s') && Stored(s, a) && Stored(s', b) && z.interval != null
    ensures k <= |a| && b == a[..k] + [z.interval] + a[k..] && multiset(b) == multiset(a) + multiset{z.interval}
  {
    hide Sorted;
    var c := a[..k] + [z.interval] + a[k..];
    forall j | 0 <= j < |b| ensures b[j] == c[j] {
      assert s'[j] == if j < k then s[j] else if j == k then z else s[j - 1];
    }
    assert b == c && a == a[..k] + a[k..];
  }

  lemma RemovedStored(s: seq<Node>, i: nat, z: Node, s': seq<Node>, a: seq<Interval>, b: seq<Interval>)
    requires Removed(s, i, z, s') && Stored(s, a) && Stored(s', b)
    ensures i < |a| && b == a[..i] + a[i + 1..] && z.interval == a[i] && multiset(a) == multiset(b) + multiset{a[i]}
  {
    var c := a[..i] + a[i + 1..];
    forall j | 0 <= j < |b| ensures b[j] == c[j] {
      assert s'[j] == s[if j < i then j else j + 1];
    }
    assert b == c && a == a[..i] + [a[i]] + a[i + 1..];
  }

  // ---------- the reference: a scan of all intervals ----------

  function Scan(s: seq<Interval>, low: Time, high: Time): seq<Interval> {
    if s == [] then []
    else (if Overlap(low, high, s[0].low, s[0].high) then [s[0]] else []) + Scan(s[1..], low, high)
  }

  lemma {:induction false} ScanCount(s: seq<Interval>, low: Time, high: Time)
    ensures forall i: Interval ::
              multiset(Scan(s, low, high))[i] == if Overlap(low, high, i.low, i.high) then multiset(s)[i] else 0
  {
    if s != [] {
      ScanCount(s[1..], low, high);
      assert s == [s[0]] + s[1..];
    }
  }

  /** A proper query keeps exactly the proper intervals that share a point of time with it. */
  lemma ScanExact(s: seq<Interval>, low: Time, high: Time, i: Interval)
    requires low <= high && i.low <= i.high
    ensures multiset(Scan(s, low, high))[i] == if Meet(low, high, i.low, i.high) then multiset(s)[i] else 0
  {
    ScanCount(s, low, high);
    OverlapMeet(low, high, i.low, i.high);
  }

  lemma {:induction false} ScanConcat(a: seq<Interval>, b: seq<Interval>, low: Time, high: Time)
    ensures Scan(a + b, low, high) == Scan(a, low, high) + Scan(b, low, high)
  {
    if a == [] {
      assert a + b == b;
    } else {
      ScanConcat(a[1..], b, low, high);
      assert (a + b)[1..] == a[1..] + b;
      var h := if Overlap(low, high, a[0].low, a[0].high) then [a[0]] else [];
      assert Scan(a + b, low, high) == h + Scan(a[1..] + b, low, high);
      assert h + (Scan(a[1..], low, high) + Scan(b, low, high)) == (h + Scan(a[1..], low, high)) + Scan(b, low, high);
    }
  }

  /** The answers in the order in which the query meets them: a node before its subtrees. */
  function Hits(t: Tree, low: Time, high: Time): seq<Interval>
    requires Carries(t)
  {
    if t.Leaf? then []
    else
      (if Overlap(low, high, t.node.key, t.node.high) then [t.node.interval] else [])
      + Hits(t.left, low, high) + Hits(t.right, low, high)
  }

  lemma {:induction false} HitsScan(t: Tree, low: Time, high: Time)
    requires Carries(t)
    ensures multiset(Hits(t, low, high)) == multiset(Scan(Intervals(t), low, high))
  {
    if t.Bin? {
      var l, n, r := Intervals(t.left), t.node.interval, Intervals(t.right);
      HitsScan(t.left, low, high);
      HitsScan(t.right, low, high);
      ScanConcat(l + [n], r, low, high);
      ScanConcat(l, [n], low, high);
      assert Scan([n], low, high) == (if Overlap(low, high, n.low, n.high) then [n] else []) + Scan([n][1..], low,
             high);
    }
  }

  // ---------- what the query visits ----------

  function Here(n: Node, low: Time, high: Time): seq<Interval>
    requires Carrier(n)
  {
    if Overlap(low, high, n.key, n.high) then [n.interval] else []
  }

  /** The left subtree is visited if its greatest upper end is not below low, and then the right one
      only if the left one gave an answer; otherwise only the right one is visited. */
  function Search(t: Tree, low: Time, high: Time): seq<Interval>
    requires Carries(t)
  {
    if t.Leaf? then []
    else Here(t.node, low, high)
         + if low <= Mx(t.left) then
             var s := Search(t.left, low, high);
             s + if |s| > 0 then Search(t.right, low, high) else []
           else Search(t.right, low, high)
  }

  predicate Proper(t: Tree)
    requires Carries(t)
  {
    t.Bin? ==> t.node.key <= t.node.high && Proper(t.left) && Proper(t.right)
  }

  predicate SortedTree(t: Tree) {
    t.Bin? ==>
      && SortedTree(t.left) && SortedTree(t.right)
      && (forall n | n in Inorder(t.left) :: n.key <= t.node.key)
      && (forall n | n in Inorder(t.right) :: t.node.key <= n.key)
  }

  lemma {:induction false} SortedTreeFrom(t: Tree)
    requires Sorted(Inorder(t))
    ensures SortedTree(t)
  {
    if t.Bin? {
      var s, l, r := Inorder(t), Inorder(t.left), Inorder(t.right);
      assert s[..|l|] == l && s[|l|] == t.node && s[|l| + 1..] == r;
      forall i, j | 0 <= i < j < |l| ensures l[i].key <= l[j].key { assert l[i] == s[i] && l[j] == s[j]; }
      forall i, j | 0 <= i < j < |r| ensures r[i].key <= r[j].key {
        assert r[i] == s[|l| + 1 + i] && r[j] == s[|l| + 1 + j];
      }
      SortedTreeFrom(t.left);
      SortedTreeFrom(t.right);
    }
  }

  /** mx is the maximum of the upper ends in t. */
  lemma {:induction false} MxIsMax(t: Tree)
    requires Exact(t)
    ensures forall n | n in Inorder(t) :: n.high <= Mx(t)
    ensures Mx(t) > -MAX_TIME ==> exists n :: n in Inorder(t) && n.high == Mx(t)
  {
    if t.Bin? {
      MxIsMax(t.left);
      MxIsMax(t.right);
      assert forall n :: n in Inorder(t) <==> n in Inorder(t.left) || n == t.node || n in Inorder(t.right);
      if t.mx > -MAX_TIME {
        if t.mx == t.node.high {
          assert t.node in Inorder(t);
        } else if t.mx == Mx(t.left) {
          var n :| n in Inorder(t.left) && n.high == t.mx;
          assert n in Inorder(t);
        } else {
          var n :| n in Inorder(t.right) && n.high == t.mx;
          assert n in Inorder(t);
        }
      }
    }
  }

  lemma {:induction false} NoHits(t: Tree, low: Time, high: Time)
    requires Carries(t) && forall n | n in Inorder(t) :: !Overlap(low, high, n.key, n.high)
    ensures Hits(t, low, high) == []
  {
    if t.Bin? {
      NoHits(t.left, low, high);
      NoHits(t.right, low, high);
    }
  }

  lemma {:induction false} SomeHit(t: Tree, low: Time, high: Time, n: Node)
    requires Carries(t) && n in Inorder(t) && Overlap(low, high, n.key, n.high)
    ensures Hits(t, low, high) != []
  {
    if n in Inorder(t.left) {
      SomeHit(t.left, low, high, n);
    } else if n in Inorder(t.right) {
      SomeHit(t.right, low, high, n);
    }
  }

  lemma {:induction false} ProperAll(t: Tree)
    requires Carries(t)
    ensures Proper(t) <==> forall n | n in Inorder(t) :: n.key <= n.high
  {
    if t.Bin? {
      ProperAll(t.left);
      ProperAll(t.right);
    }
  }

  /** A left subtree that ends before low has no answers. */
  lemma PrunedLeft(t: Tree, low: Time, high: Time)
    requires Carries(t) && Exact(t) && Proper(t) && Mx(t) < low
    ensures Hits(t, low, high) == []
  {
    MxIsMax(t);
    ProperAll(t);
    NoHits(t, low, high);
  }

  /** If a left subtree that reaches low has no answers, the right one has none either. */
  lemma PrunedRight(t: Tree, low: Time, high: Time)
    requires Carries(t) && t.Bin? && Exact(t) && SortedTree(t)
    requires -MAX_TIME < low <= Mx(t.left) && Hits(t.left, low, high) == []
    ensures Hits(t.right, low, high) == []
  {
    MxIsMax(t.left);
    var i :| i in Inorder(t.left) && i.high == Mx(t.left);
    if Overlap(low, high, i.key, i.high) { SomeHit(t.left, low, high, i); }
    NoHits(t.right, low, high);
  }

  /** The query finds all answers, in order. */
  lemma {:induction false} SearchComplete(t: Tree, low: Time, high: Time)
    requires Carries(t) && Exact(t) && SortedTree(t) && Proper(t) && -MAX_TIME < low
    ensures Search(t, low, high) == Hits(t, low, high)
  {
    if t.Bin? {
      SearchComplete(t.left, low, high);
      SearchComplete(t.right, low, high);
      if low <= Mx(t.left) {
        if Hits(t.left, low, high) == [] { PrunedRight(t, low, high); }
      } else {
        PrunedLeft(t.left, low, high);
      }
    }
  }

  /** The answers of the query, compared with a scan of everything stored. */
  lemma SearchAnswers(t: Tree, low: Time, high: Time)
    requires Carries(t) && Exact(t) && Sorted(Inorder(t))
    ensures multiset(Search(t, low, high)) <= multiset(Scan(Intervals(t), low, high))
    ensures -MAX_TIME < low && (forall i | i in Intervals(t) :: i.low <= i.high) ==>
              multiset(Search(t, low, high)) == multiset(Scan(Intervals(t), low, high))
  {
    SearchSound(t, low, high);
    HitsScan(t, low, high);
    SortedTreeFrom(t);
    if -MAX_TIME < low && forall i | i in Intervals(t) :: i.low <= i.high {
      ProperFrom(t);
      SearchComplete(t, low, high);
    }
  }

  lemma {:induction false} ProperFrom(t: Tree)
    requires Carries(t) && forall i | i in Intervals(t) :: i.low <= i.high
    ensures Proper(t)
  {
    if t.Bin? {
      assert t.node.interval in Intervals(t);
      ProperFrom(t.left);
      ProperFrom(t.right);
    }
  }

  /** Whatever the query is asked, it answers with overlapping intervals only, and with none of them
      more often than it is stored. */
  lemma {:induction false} SearchSound(t: Tree, low: Time, high: Time)
    requires Carries(t)
    ensures multiset(Search(t, low, high)) <= multiset(Hits(t, low, high))
  {
    if t.Bin? {
      SearchSound(t.left, low, high);
      SearchSound(t.right, low, high);
      Unfolded(t, low, high);
    }
  }

  /** What the search and the scan find at t, in the left subtree and in the right one. */
  lemma Unfolded(t: Tree, low: Time, high: Time)
    requires Carries(t) && t.Bin?
    ensures var h, sl, sr := Here(t.node, low, high), Search(t.left, low, high), Search(t.right, low, high);
      && (low <= Mx(t.left) && |sl| == 0 ==> Search(t, low, high) == h)
      && (low <= Mx(t.left) && |sl| > 0 ==> Search(t, low, high) == h + sl + sr)
      && (low > Mx(t.left) ==> Search(t, low, high) == h + sr)
    ensures Hits(t, low, high) == Here(t.node, low, high) + Hits(t.left, low, high) + Hits(t.right, low, high)
  {
    SearchUnfolded(t, low, high);
    HitsUnfolded(t, low, high);
    hide *;
    var h, sl, sr := Here(t.node, low, high), Search(t.left, low, high), Search(t.right, low, high);
    assert h + (sl + sr) == h + sl + sr;
    assert |sl| == 0 ==> h + (sl + []) == h;
  }

  lemma SearchUnfolded(t: Tree, low: Time, high: Time)
    requires Carries(t) && t.Bin?
    ensures var h, sl, sr := Here(t.node, low, high), Search(t.left, low, high), Search(t.right, low, high);
      Search(t, low, high) == if low > Mx(t.left) then h + sr else if |sl| == 0 then h + (sl + []) else h + (sl + sr)
  {
    hide Mx, Here, Hits;
  }

  lemma HitsUnfolded(t: Tree, low: Time, high: Time)
    requires Carries(t) && t.Bin?
    ensures Hits(t, low, high) == Here(t.node, low, high) + Hits(t.left, low, high) + Hits(t.right, low, high)
  {
    hide Mx, Search;
  }

  lemma {:induction false} SearchFewer(t: Tree, low: Time, high: Time)
    requires Carries(t)
    ensures |Search(t, low, high)| <= |Hits(t, low, high)|
    ensures |Search(t, low, high)| == |Hits(t, low, high)| ==> Search(t, low, high) == Hits(t, low, high)
  {
    if t.Bin? {
      SearchFewer(t.left, low, high);
      SearchFewer(t.right, low, high);
      Unfolded(t, low, high);
      hide *;
      var h, hl, hr := Here(t.node, low, high), Hits(t.left, low, high), Hits(t.right, low, high);
      if hl == [] && hr == [] {
        assert h + hl + hr == h;
      } else if hl == [] {
        assert h + hl + hr == h + hr;
      }
    }
  }

  /** No node without a left child has an answer to its right. */
  predicate NoBlindSpot(t: Tree, low: Time, high: Time)
    requires Carries(t)
  {
    t.Bin? ==>
      && (t.left.Leaf? ==> Hits(t.right, low, high) == [])
      && NoBlindSpot(t.left, low, high) && NoBlindSpot(t.right, low, high)
  }

  lemma {:induction false} NoHitsNoBlindSpot(t: Tree, low: Time, high: Time)
    requires Carries(t) && Hits(t, low, high) == []
    ensures NoBlindSpot(t, low, high)
  {
    if t.Bin? {
      NoHitsNoBlindSpot(t.left, low, high);
      NoHitsNoBlindSpot(t.right, low, high);
    }
  }

  /** A query from the beginning of time enters the empty left subtree too, because the maximum of nil
      is not below low, and then does not look to the right: it is complete exactly without blind spots. */
  lemma {:induction false} SearchFromMinimum(t: Tree, high: Time)
    requires Carries(t) && SortedTree(t)
    ensures Search(t, -MAX_TIME, high) == Hits(t, -MAX_TIME, high) <==> NoBlindSpot(t, -MAX_TIME, high)
  {
    var low: Time := -MAX_TIME;
    if t.Bin? {
      var l, r := t.left, t.right;
      SearchFromMinimum(l, high);
      SearchFromMinimum(r, high);
      SearchFewer(l, low, high);
      SearchFewer(r, low, high);
      if l.Bin? && Hits(l, low, high) == [] { AllLate(t, high); }
      if Hits(r, low, high) == [] { NoHitsNoBlindSpot(r, low, high); }
      hide Search, Hits, Here, SortedTree;
      Unfolded(t, low, high);
    }
  }

  /** If nothing in the left subtree begins by high, nothing in the right one does. */
  lemma AllLate(t: Tree, high: Time)
    requires Carries(t) && SortedTree(t) && t.Bin? && t.left.Bin? && Hits(t.left, -MAX_TIME, high) == []
    ensures Hits(t.right, -MAX_TIME, high) == []
  {
    var l := t.left.node;
    assert l in Inorder(t.left);
    if Overlap(-MAX_TIME, high, l.key, l.high) { SomeHit(t.left, -MAX_TIME, high, l); }
    NoHits(t.right, -MAX_TIME, high);
  }

  /** Two stored intervals and a query that covers both but finds only one. */
  lemma BlindSpot(a: Node, b: Node)
    requires Carrier(a) && Carrier(b) && a.key == a.high == 0 && b.key == b.high == 5
    ensures var t := Bin(Leaf, a, false, 5, Bin(Leaf, b, true, 5, Leaf));
      && Exact(t) && SortedTree(t) && Balanced(t) && Proper(t)
      && Search(t, -MAX_TIME, 10) == [a.interval] && Hits(t, -MAX_TIME, 10) == [a.interval, b.interval]
  {
    var u := Bin(Leaf, b, true, 5, Leaf);
    assert Inorder(u) == [b] && Inorder(Leaf) == [];
    assert Hits(Leaf, -MAX_TIME, 10) == [];
    assert Hits(u, -MAX_TIME, 10) == [b.interval] + [] + [];
    assert Exact(u) && RedBlack(u, 0) && Hits(u, -MAX_TIME, 10) == [b.interval];
    assert Search(Leaf, -MAX_TIME, 10) == [];
  }

  // ---------- what is left to do when the query has saved its place on the stack ----------

  /** A node whose left subtree is being searched, and whether that has given an answer. */
  datatype Frame = Frame(t: Tree, hit: bool)

  /** The innermost frame learns of an answer. */
  function Note(s: seq<Frame>, hit: bool): (r: seq<Frame>)
    ensures |r| == |s| && (CarriesStack(s) ==> CarriesStack(r))
  {
    if s == [] || !hit then s else s[|s| - 1 := s[|s| - 1].(hit := true)]
  }

  predicate CarriesStack(s: seq<Frame>) {
    forall i :: 0 <= i < |s| ==> s[i].t.Bin? && Carries(s[i].t)
  }

  /** The saved nodes are nodes of a linked tree, each at least one level below the one before. */
  predicate Spelt(b: Base, h: Cells, s: seq<Frame>, bound: nat) {
    forall i :: 0 <= i < |s| ==>
      s[i].t.Bin? && b.Spells(h, s[i].t) && Carries(s[i].t) && i + Height(s[i].t) <= bound
  }

  /** The state of a query: the subtree t is about to be searched, the nodes of s are saved. */
  predicate Underway(b: Base, h: Cells, t: Tree, s: seq<Frame>, bound: nat) {
    b.Spells(h, t) && Carries(t) && Spelt(b, h, s, bound) && CarriesStack(s) && |s| + Height(t) <= bound
  }

  lemma UnderwayHere(b: Base, h: Cells, t: Tree, s: seq<Frame>, bound: nat)
    requires Underway(b, h, t, s, bound) && t.Bin?
    ensures Carries(t) && CarriesStack(s) && Carrier(t.node) && t.node in h && |s| + 1 <= bound
    ensures h[t.node].left == b.Ptr(t.left) && h[t.node].right == b.Ptr(t.right)
    ensures t.left.Bin? ==> t.left.node in h && h[t.left.node].mx == Mx(t.left)
  {
  }

  lemma UnderwayLeft(b: Base, h: Cells, t: Tree, s: seq<Frame>, bound: nat, hit: bool)
    requires Underway(b, h, t, s, bound) && t.Bin?
    ensures Underway(b, h, t.left, Note(s, hit) + [Frame(t, false)], bound)
  {
  }

  lemma UnderwayRight(b: Base, h: Cells, t: Tree, s: seq<Frame>, bound: nat, hit: bool)
    requires Underway(b, h, t, s, bound) && t.Bin?
    ensures Underway(b, h, t.right, Note(s, hit), bound)
  {
  }

  lemma UnderwayCarries(b: Base, h: Cells, t: Tree, s: seq<Frame>, bound: nat)
    requires Underway(b, h, t, s, bound)
    ensures Carries(t) && CarriesStack(s) && (b.Ptr(t) == b.nil ==> t == Leaf)
  {
  }

  lemma UnderwayStart(b: Base, h: Cells, t: Tree)
    requires b.Spells(h, t) && Carries(t)
    ensures Underway(b, h, t, [], Height(t))
  {
  }

  lemma ToComeEnds(t: Tree, low: Time, high: Time)
    requires Carries(t)
    ensures ToCome(t, [], low, high) == Search(t, low, high) && ToCome(Leaf, [], low, high) == []
    ensures [] + ToCome(t, [], low, high) == Search(t, low, high)
  {
  }

  /** Taking the innermost node from the stack. */
  lemma UnderwayPop(b: Base, h: Cells, s: seq<Frame>, bound: nat)
    requires Underway(b, h, Leaf, s, bound) && s != []
    ensures var top, rest := s[|s| - 1], s[..|s| - 1];
      Underway(b, h, top.t.right, Note(rest, true), bound) && Underway(b, h, Leaf, rest, bound)
  {
  }

  lemma PopToCome(s: seq<Frame>, low: Time, high: Time)
    requires CarriesStack(s) && s != []
    ensures var top, rest := s[|s| - 1], s[..|s| - 1];
      ToCome(Leaf, s, low, high) ==
      if top.hit then ToCome(top.t.right, Note(rest, true), low, high) else ToCome(Leaf, rest, low, high)
  {
    var top, rest := s[|s| - 1], s[..|s| - 1];
    Nothing(s, low, high);
    Nothing(rest, low, high);
    NoteTwice(rest, true, |Search(top.t.right, low, high)| > 0);
  }

  lemma Nothing(s: seq<Frame>, low: Time, high: Time)
    requires CarriesStack(s)
    ensures ToCome(Leaf, s, low, high) == Pending(s, low, high)
  {
    assert ToCome(Leaf, s, low, high) == [] + Pending(s, low, high);
  }

  /** The answers still to come from the right subtrees of the saved nodes. */
  function Pending(s: seq<Frame>, low: Time, high: Time): seq<Interval>
    requires CarriesStack(s)
    decreases |s|
  {
    if s == [] then []
    else
      var top, rest := s[|s| - 1], s[..|s| - 1];
      if top.hit then Search(top.t.right, low, high) + Pending(Note(rest, true), low, high)
      else Pending(rest, low, high)
  }

  /** All answers still to come when the subtree t is about to be searched. */
  function ToCome(t: Tree, s: seq<Frame>, low: Time, high: Time): seq<Interval>
    requires Carries(t) && CarriesStack(s)
  {
    Search(t, low, high) + Pending(Note(s, |Search(t, low, high)| > 0), low, high)
  }

  lemma PendingPush(s: seq<Frame>, f: Frame, low: Time, high: Time)
    requires CarriesStack(s) && f.t.Bin? && Carries(f.t)
    ensures Pending(s + [f], low, high) ==
            if f.hit then Search(f.t.right, low, high) + Pending(Note(s, true), low, high) else Pending(s, low, high)
  {
    assert (s + [f])[..|s|] == s;
  }

  lemma NoteTwice(s: seq<Frame>, a: bool, b: bool)
    ensures Note(Note(s, a), b) == Note(s, a || b)
  {
  }

  lemma NoteTop(s: seq<Frame>, t: Tree, hit: bool)
    ensures Note(s + [Frame(t, false)], hit) == s + [Frame(t, hit)]
  {
  }

  lemma Joined(a: seq<Interval>, b: seq<Interval>, c: seq<Interval>)
    ensures a + (b + c) == a + b + c
  {
  }

  lemma Assoc(a: seq<Interval>, b: seq<Interval>, c: seq<Interval>, d: seq<Interval>)
    ensures a + (b + (c + d)) == a + b + c + d && a + (b + d) == a + b + d && a + ([] + d) == a + d
  {
  }

  lemma VisitLeft(t: Tree, s: seq<Frame>, low: Time, high: Time)
    requires Carries(t) && t.Bin? && CarriesStack(s) && low <= Mx(t.left)
    ensures var h := Here(t.node, low, high);
      ToCome(t, s, low, high) == h + ToCome(t.left, Note(s, |h| > 0) + [Frame(t, false)], low, high)
  {
    var h, sl, sr := Here(t.node, low, high), Search(t.left, low, high), Search(t.right, low, high);
    var s' := Note(s, |h| > 0);
    Unfolded(t, low, high);
    PendingPush(s', Frame(t, |sl| > 0), low, high);
    NoteTop(s', t, |sl| > 0);
    NoteTwice(s, |h| > 0, true);
    Assoc(h, sl, sr, Pending(Note(s', true), low, high));
    Assoc(h, sl, sr, Pending(s', low, high));
    hide Search, Pending, Here, Note, CarriesStack;
  }

  lemma VisitRight(t: Tree, s: seq<Frame>, low: Time, high: Time)
    requires Carries(t) && t.Bin? && CarriesStack(s) && Mx(t.left) < low
    ensures var h := Here(t.node, low, high);
      ToCome(t, s, low, high) == h + ToCome(t.right, Note(s, |h| > 0), low, high)
  {
    var h, sr := Here(t.node, low, high), Search(t.right, low, high);
    Unfolded(t, low, high);
    NoteTwice(s, |h| > 0, |sr| > 0);
    Assoc(h, sr, [], Pending(Note(s, |h + sr| > 0), low, high));
    hide Search, Pending, Here, Note, CarriesStack;
  }

  /** How much there is still to do; a saved node counts less than one that is to be visited. */
  function Work(t: Tree): nat { if t.Leaf? then 0 else 2 + Work(t.left) + Work(t.right) }

  function StackWork(s: seq<Frame>): nat {
    if s == [] then 0
    else StackWork(s[..|s| - 1]) + 1 + if s[|s| - 1].t.Bin? then Work(s[|s| - 1].t.right) else 0
  }

  lemma StackWorkNote(s: seq<Frame>, hit: bool)
    ensures StackWork(Note(s, hit)) == StackWork(s)
  {
    if s != [] { assert Note(s, hit)[..|s| - 1] == s[..|s| - 1]; }
  }

  lemma StackWorkPush(s: seq<Frame>, f: Frame)
    requires f.t.Bin?
    ensures StackWork(s + [f]) == StackWork(s) + 1 + Work(f.t.right)
  {
    assert (s + [f])[..|s|] == s;
  }
}
