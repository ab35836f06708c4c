/** Runs of operations on one interval tree: whatever is inserted, deleted and asked, and in which
    order, the tree stands for the multiset of what was inserted and not deleted. */
module IntervalRuns {
  import opened Powers
  import opened IntervalNodes
  import opened IntervalQueries
  import opened IntervalTrees

  /** Drop deletes by interval; Take deletes the node that the k-th insertion returned. */
  datatype Op = Put(i: Interval) | Drop(i: Interval) | Take(k: nat) | Ask(low: Time, high: Time)

  function Init(ops: seq<Op>): seq<Op>
    requires ops != []
  {
    ops[..|ops| - 1]
  }

  function Last(ops: seq<Op>): Op
    requires ops != []
  {
    ops[|ops| - 1]
  }

  /** The intervals inserted so far. */
  function Puts(ops: seq<Op>): seq<Interval> {
    if ops == [] then []
    else if Last(ops).Put? then Puts(Init(ops)) + [Last(ops).i]
    else Puts(Init(ops))
  }

  /** The node of the k-th insertion is still there whichever nodes the deletions by interval took. */
  predicate Live(ops: seq<Op>, k: nat)
    ensures Live(ops, k) ==> k < |Puts(ops)|
  {
    ops != [] &&
    match Last(ops)
    case Put(_) => k == |Puts(Init(ops))| || Live(Init(ops), k)
    case Drop(i) => Live(Init(ops), k) && Puts(Init(ops))[k] != i
    case Take(j) => Live(Init(ops), k) && k != j
    case Ask(_, _) => Live(Init(ops), k)
  }

  /** No node is deleted twice. */
  predicate Legal(ops: seq<Op>) {
    ops == [] || (Legal(Init(ops)) && (Last(ops).Take? ==> Live(Init(ops), Last(ops).k)))
  }

  /** What was inserted and not deleted. */
  function Kept(ops: seq<Op>): multiset<Interval>
    requires Legal(ops)
  {
    if ops == [] then multiset{}
    else
      match Last(ops)
      case Put(i) => Kept(Init(ops)) + multiset{i}
      case Drop(i) => Kept(Init(ops)) - multiset{i}
      case Take(k) => Kept(Init(ops)) - multiset{Puts(Init(ops))[k]}
      case Ask(_, _) => Kept(Init(ops))
  }

  /** How often the interval i belongs in the answer to a query of m. */
  function Due(m: multiset<Interval>, i: Interval, low: Time, high: Time): nat {
    if Overlap(low, high, i.low, i.high) then m[i] else 0
  }

  /** What a query of m may answer, and from where on it must be all of m that overlaps. */
  ghost predicate Answers(a: seq<Interval>, m: multiset<Interval>, low: Time, high: Time) {
    && (forall i | i in a :: multiset(a)[i] <= Due(m, i, low, high))
    && (-MAX_TIME < low && (forall i | i in m :: i.low <= i.high) ==>
          forall i | i in m :: multiset(a)[i] == Due(m, i, low, high))
  }

  /** The state of the tree and of the nodes its insertions returned, after ops. */
  ghost predicate After(t: IntervalTree, handles: seq<Node>, ops: seq<Op>)
    reads t, t.nil, t.root, t.nodes
  {
    && t.Valid() && Legal(ops) && multiset(t.Contents()) == Kept(ops)
    && Pointing(handles, Puts(ops), t.nodes)
    && Held(handles, ops, Inorder(t.tree))
  }

  /** Each insertion returned a node of its own. */
  ghost predicate Pointing(handles: seq<Node>, puts: seq<Interval>, nodes: set<Node>) {
    && |handles| == |puts|
    && (forall k :: 0 <= k < |handles| ==> handles[k] in nodes && handles[k].interval == puts[k])
    && forall j, k :: 0 <= j < k < |handles| ==> handles[j] != handles[k]
  }

  ghost predicate Held(handles: seq<Node>, ops: seq<Op>, inorder: seq<Node>)
    requires |handles| == |Puts(ops)|
  {
    forall k: nat :: Live(ops, k) ==> handles[k] in inorder
  }

  lemma AnswersAll(s: seq<Interval>, a: seq<Interval>, low: Time, high: Time)
    requires multiset(a) <= multiset(Scan(s, low, high))
    requires -MAX_TIME < low && (forall i | i in s :: i.low <= i.high) ==> multiset(a) == multiset(Scan(s, low, high))
    ensures Answers(a, multiset(s), low, high)
  {
    ScanCount(s, low, high);
    assert forall i :: i in s <==> i in multiset(s);
  }

  lemma StillThere(s: seq<Node>, i: nat, z: Node, s': seq<Node>, n: Node)
    requires Removed(s, i, z, s') && n in s && n != z
    ensures n in s'
  {
    var j :| 0 <= j < |s| && s[j] == n;
    assert s'[if j < i then j else j - 1] == n;
  }

  lemma HeldPut(handles: seq<Node>, ops: seq<Op>, i: Interval, nodes: set<Node>, s: seq<Node>, k: nat, z: Node,
                s': seq<Node>)
    requires Pointing(handles, Puts(ops), nodes) && Held(handles, ops, s) && Inserted(s, k, z, s')
    requires z !in nodes && z.interval == i
    ensures Pointing(handles + [z], Puts(ops + [Put(i)]), nodes + {z}) && Held(handles + [z], ops + [Put(i)], s')
  {
    assert Init(ops + [Put(i)]) == ops;
    hide Sorted;
    forall j: nat | Live(ops + [Put(i)], j) ensures (handles + [z])[j] in s' {
      if Live(ops, j) {
        assert handles[j] in s && s == s[..k] + s[k..];
      } else {
        assert s'[k] == z;
      }
    }
  }

  lemma HeldDelete(handles: seq<Node>, ops: seq<Op>, op: Op, nodes: set<Node>, s: seq<Node>, i: nat, z: Node,
                   s': seq<Node>)
    requires Pointing(handles, Puts(ops), nodes) && Held(handles, ops, s) && Removed(s, i, z, s')
    requires (op.Drop? && z.interval == op.i) || (op.Take? && Live(ops, op.k) && handles[op.k] == z)
    ensures Puts(ops + [op]) == Puts(ops) && Held(handles, ops + [op], s')
  {
    assert Init(ops + [op]) == ops;
    forall j: nat | Live(ops + [op], j) ensures handles[j] in s' {
      assert Live(ops, j) && handles[j] != z;
      StillThere(s, i, z, s', handles[j]);
    }
  }

  /** The three operations that change the tree, and the query. */

  method PerformPut(t: IntervalTree, handles: seq<Node>, ghost ops: seq<Op>, i: Interval) returns (z: Node)
    requires After(t, handles, ops)
    modifies t, t.root, t.nodes
    ensures After(t, handles + [z], ops + [Put(i)]) && fresh(t.nodes - old(t.nodes)) && t.stack == old(t.stack)
  {
    hide Held, Pointing, IntervalTree.Valid, IntervalTree.Contents, Inserted, Inorder, Live, Puts;
    assert Init(ops + [Put(i)]) == ops;
    ghost var s, nodes := Inorder(t.tree), t.nodes;
    ghost var k;
    z, k := t.Insert(i);
    HeldPut(handles, ops, i, nodes, s, k, z, Inorder(t.tree));
  }

  method PerformDrop(t: IntervalTree, handles: seq<Node>, ghost ops: seq<Op>, i: Interval)
    requires After(t, handles, ops)
    modifies t, t.nil, t.root, t.nodes
    ensures After(t, handles, ops + [Drop(i)]) && t.nodes == old(t.nodes) && t.stack == old(t.stack)
  {
    hide Held, Pointing, IntervalTree.Valid, IntervalTree.Contents, Removed, Inorder, Live, Puts;
    assert Init(ops + [Drop(i)]) == ops;
    ghost var s := Inorder(t.tree);
    ghost var gone, k, z;
    gone, k, z := t.DeleteInterval(i);
    if gone {
      HeldDelete(handles, ops, Drop(i), t.nodes, s, k, z, Inorder(t.tree));
    } else {
      HeldSame(handles, ops, Drop(i), t.nodes, s);
    }
  }

  method PerformTake(t: IntervalTree, handles: seq<Node>, ghost ops: seq<Op>, k: nat)
    requires After(t, handles, ops) && Live(ops, k)
    modifies t, t.nil, t.root, t.nodes
    ensures After(t, handles, ops + [Take(k)]) && t.nodes == old(t.nodes) && t.stack == old(t.stack)
  {
    hide Held, IntervalTree.Valid, IntervalTree.Contents, Removed, Inorder, Live, Puts;
    assert Init(ops + [Take(k)]) == ops;
    ghost var s := Inorder(t.tree);
    HeldHere(handles, ops, k, s);
    var gone;
    ghost var j;
    gone, j := t.DeleteNode(handles[k]);
    HeldDelete(handles, ops, Take(k), t.nodes, s, j, handles[k], Inorder(t.tree));
  }

  method PerformAsk(t: IntervalTree, handles: seq<Node>, ghost ops: seq<Op>, low: Time, high: Time)
    returns (answer: seq<Interval>)
    requires After(t, handles, ops)
    modifies t, t.stack
    ensures After(t, handles, ops + [Ask(low, high)]) && t.nodes == old(t.nodes)
    ensures t.stack == old(t.stack) || fresh(t.stack)
    ensures Answers(answer, Kept(ops), low, high)
  {
    hide Held, Pointing, IntervalTree.Valid, IntervalTree.Contents, Inorder, Scan, Answers, Live, Puts;
    assert Init(ops + [Ask(low, high)]) == ops;
    answer := t.Query(low, high);
    AnswersAll(t.Contents(), answer, low, high);
    HeldSame(handles, ops, Ask(low, high), t.nodes, Inorder(t.tree));
  }

  /** One operation, and what it answers if it is a query. */
  method Perform(t: IntervalTree, handles: seq<Node>, ghost ops: seq<Op>, op: Op)
    returns (handles': seq<Node>, answer: seq<Interval>)
    requires After(t, handles, ops) && (op.Take? ==> Live(ops, op.k))
    modifies t, t.nil, t.root, t.nodes, t.stack
    ensures After(t, handles', ops + [op]) && fresh(t.nodes - old(t.nodes))
    ensures t.stack == old(t.stack) || fresh(t.stack)
    ensures op.Ask? ==> Legal(ops) && Answers(answer, Kept(ops), op.low, op.high)
  {
    AfterLegal(t, handles, ops);
    hide *;
    handles', answer := handles, [];
    match op
    case Put(i) =>
      var z := PerformPut(t, handles, ops, i);
      handles' := handles + [z];
    case Drop(i) =>
      PerformDrop(t, handles, ops, i);
    case Take(k) =>
      PerformTake(t, handles, ops, k);
    case Ask(low, high) =>
      answer := PerformAsk(t, handles, ops, low, high);
  }

  lemma AfterLegal(t: IntervalTree, handles: seq<Node>, ops: seq<Op>)
    requires After(t, handles, ops)
    ensures Legal(ops)
  {
  }

  lemma HeldHere(handles: seq<Node>, ops: seq<Op>, k: nat, s: seq<Node>)
    requires |handles| == |Puts(ops)| && Held(handles, ops, s) && Live(ops, k)
    ensures handles[k] in s
  {
  }

  lemma HeldSame(handles: seq<Node>, ops: seq<Op>, op: Op, nodes: set<Node>, s: seq<Node>)
    requires Pointing(handles, Puts(ops), nodes) && Held(handles, ops, s) && (op.Drop? || op.Ask?)
    ensures Puts(ops + [op]) == Puts(ops) && Held(handles, ops + [op], s)
  {
    assert Init(ops + [op]) == ops;
  }

  /** After any run the tree holds what was inserted and not deleted, is at most 2 * log2(n + 1) high
      for the number n of these intervals, and each query was answered from what was there. */
  method Run(ops: seq<Op>) returns (t: IntervalTree, answers: seq<seq<Interval>>)
    requires Legal(ops)
    ensures t.Valid() && multiset(t.Contents()) == Kept(ops)
    ensures Pow2(Height(t.tree)) <= (|Kept(ops)| + 1) * (|Kept(ops)| + 1)
    ensures |answers| == |ops|
    ensures forall k :: 0 <= k < |ops| && ops[k].Ask? ==>
              Legal(ops[..k]) && Answers(answers[k], Kept(ops[..k]), ops[k].low, ops[k].high)
  {
    hide *;
    t := new IntervalTree();
    var handles := [];
    answers := [];
    var n := 0;
    Begin(t);
    assert ops[..0] == [];
    while n < |ops|
      invariant 0 <= n <= |ops| && |answers| == n && After(t, handles, ops[..n])
      invariant fresh(t) && fresh(t.nil) && fresh(t.root) && fresh(t.nodes) && fresh(t.stack)
      invariant forall k :: 0 <= k < n && ops[k].Ask? ==>
                  Legal(ops[..k]) && Answers(answers[k], Kept(ops[..k]), ops[k].low, ops[k].high)
    {
      LegalAt(ops, n);
      assert ops[..n + 1] == ops[..n] + [ops[n]];
      var answer;
      handles, answer := Perform(t, handles, ops[..n], ops[n]);
      answers := answers + [answer];
      n := n + 1;
    }
    assert ops[..n] == ops;
    End(t, handles, ops);
  }

  lemma Begin(t: IntervalTree)
    requires t.Valid() && t.Contents() == []
    ensures After(t, [], [])
  {
  }

  lemma {:induction false} LegalAt(ops: seq<Op>, n: nat)
    requires Legal(ops) && n < |ops|
    ensures Legal(ops[..n]) && (ops[n].Take? ==> Live(ops[..n], ops[n].k))
    decreases |ops|
  {
    if n < |ops| - 1 {
      LegalAt(Init(ops), n);
      assert Init(ops)[..n] == ops[..n];
    }
  }

  lemma End(t: IntervalTree, handles: seq<Node>, ops: seq<Op>)
    requires After(t, handles, ops)
    ensures t.Valid() && Legal(ops) && multiset(t.Contents()) == Kept(ops)
    ensures Pow2(Height(t.tree)) <= (|Kept(ops)| + 1) * (|Kept(ops)| + 1)
  {
    CarriesAll(t.tree);
    IntervalsStored(t.tree);
    HeightBound(t.tree);
    assert |Inorder(t.tree)| == |Kept(ops)|;
    hide *;
  }
}
