// Numbering of initialization stages by repeated passes over their dependencies.
module InitStages {

  import opened Wrappers

  datatype Status = Assigned | NoSuchStage | Circle

  // A stage and one it comes after, by name.
  type Dependency = (string, string)

  // ----- Cycles of dependencies -----

  predicate Walk(p: seq<string>, deps: seq<Dependency>) {
    forall i :: 0 <= i < |p| - 1 ==> (p[i], p[i + 1]) in deps
  }

  predicate Cycle(p: seq<string>, deps: seq<Dependency>) {
    |p| > 0 && Walk(p, deps) && (p[|p| - 1], p[0]) in deps
  }

  ghost predicate Acyclic(deps: seq<Dependency>) {
    forall p :: !Cycle(p, deps)
  }

  // The walk of n steps along next.
  function Follow(x: string, next: map<string, string>, n: nat): (p: seq<string>)
    requires x in next && next.Values <= next.Keys
    ensures |p| == n + 1 && forall i :: 0 <= i < |p| ==> p[i] in next
    ensures forall i :: 0 <= i < n ==> p[i + 1] == next[p[i]]
  {
    if n == 0 then [x]
    else
      var q := Follow(x, next, n - 1);
      q + [next[q[n - 1]]]
  }

  lemma {:induction false} Distinct(p: seq<string>, names: set<string>)
    requires forall i :: 0 <= i < |p| ==> p[i] in names
    requires forall i, j :: 0 <= i < j < |p| ==> p[i] != p[j]
    ensures |p| <= |names|
  {
    if |p| > 0 {
      Distinct(p[1..], names - {p[0]});
    }
  }

  // Names that all depend on one of them contain a cycle.
  lemma FindCycle(next: map<string, string>, deps: seq<Dependency>)
    requires next != map[] && next.Values <= next.Keys
    requires forall x :: x in next ==> (x, next[x]) in deps
    ensures !Acyclic(deps)
  {
    var x :| x in next;
    var p := Follow(x, next, |next.Keys|);
    if forall i, j :: 0 <= i < j < |p| ==> p[i] != p[j] {
      Distinct(p, next.Keys);
    } else {
      var i, j :| 0 <= i < j < |p| && p[i] == p[j];
      LoopCut(p, next, deps, i, j);
    }
  }

  lemma LoopCut(p: seq<string>, next: map<string, string>, deps: seq<Dependency>, i: nat, j: nat)
    requires i < j < |p| && p[i] == p[j]
    requires forall k :: 0 <= k < |p| ==> p[k] in next
    requires forall k :: 0 <= k < |p| - 1 ==> p[k + 1] == next[p[k]]
    requires forall x :: x in next ==> (x, next[x]) in deps
    ensures Cycle(p[i..j], deps)
  {
    var c := p[i..j];
    forall k | 0 <= k < |c| - 1
      ensures (c[k], c[k + 1]) in deps
    {
      assert c[k] == p[i + k] && c[k + 1] == p[i + k + 1];
    }
    assert p[j - 1 + 1] == next[p[j - 1]];
  }

  // An order in which every dependency goes back rules cycles out.
  lemma OrderRulesOut(deps: seq<Dependency>, order: seq<string>)
    requires forall d :: d in deps ==> Before(order, d.1, d.0)
    requires forall i, j :: 0 <= i < j < |order| ==> order[i] != order[j]
    ensures Acyclic(deps)
  {
    forall p
      ensures !Cycle(p, deps)
    {
      if |p| > 0 && Walk(p, deps) {
        Descends(p, deps, order, |p| - 1);
        var d := (p[|p| - 1], p[0]);
        assert d in deps ==> Before(order, d.1, d.0);
      }
    }
  }

  predicate Before(order: seq<string>, x: string, y: string) {
    exists i, j :: 0 <= i < j < |order| && order[i] == x && order[j] == y
  }

  lemma {:induction false} Descends(p: seq<string>, deps: seq<Dependency>, order: seq<string>, k: nat)
    requires k < |p| && Walk(p, deps)
    requires forall d :: d in deps ==> Before(order, d.1, d.0)
    requires forall i, j :: 0 <= i < j < |order| ==> order[i] != order[j]
    ensures k > 0 ==> Before(order, p[k], p[0])
  {
    if k > 0 {
      Descends(p, deps, order, k - 1);
      var d := (p[k - 1], p[k]);
      assert d in deps;
    }
  }

  // ----- Stages -----

  class InitStage {
    const name: string
    var number: int
    var precedingStages: seq<InitStage>
    var followingStages: seq<InitStage>

    constructor (name: string)
      ensures this.name == name && number == -1 && precedingStages == [] && followingStages == []
    {
      this.name, number, precedingStages, followingStages := name, -1, [], [];
    }
  }

  function Names(stages: seq<InitStage>): (names: seq<string>)
    ensures |names| == |stages| && forall i :: 0 <= i < |stages| ==> names[i] == stages[i].name
  {
    seq(|stages|, i requires 0 <= i < |stages| => stages[i].name)
  }

  predicate DistinctNames(stages: seq<InitStage>) {
    forall i, j :: 0 <= i < j < |stages| ==> stages[i].name != stages[j].name
  }

  predicate Resolvable(deps: seq<Dependency>, stages: seq<InitStage>) {
    forall d :: d in deps ==> d.0 in Names(stages) && d.1 in Names(stages)
  }

  // Every dependency goes back in the list.
  predicate InOrder(deps: seq<Dependency>, names: seq<string>) {
    forall d :: d in deps ==> Before(names, d.1, d.0)
  }

  ghost function Elements(s: seq<InitStage>): set<InitStage> {
    set x | x in s
  }

  lemma {:induction false} Counted(s: seq<InitStage>)
    ensures |Elements(s)| <= |s|
    ensures (forall i, j :: 0 <= i < j < |s| ==> s[i] != s[j]) ==> |Elements(s)| == |s|
  {
    if |s| > 0 {
      var t := s[..|s| - 1];
      Counted(t);
      assert Elements(s) == Elements(t) + {s[|s| - 1]};
    }
  }

  // Different members of the list, as many as it has, are all of them.
  lemma AllCovered(order: seq<InitStage>, stages: seq<InitStage>)
    requires forall k :: 0 <= k < |order| ==> order[k] in stages
    requires forall i, j :: 0 <= i < j < |order| ==> order[i] != order[j]
    requires forall i, j :: 0 <= i < j < |stages| ==> stages[i] != stages[j]
    ensures |order| <= |stages|
    ensures |order| == |stages| ==> forall s :: s in stages ==> s in order
    ensures |order| < |stages| ==> exists s :: s in stages && s !in order
  {
    Counted(order);
    Counted(stages);
    assert Elements(order) <= Elements(stages);
    Subset(Elements(order), Elements(stages));
    if |order| == |stages| {
      forall s | s in stages
        ensures s in order
      {
        assert s in Elements(stages);
      }
    } else {
      var rest := Elements(stages) - Elements(order);
      assert |rest| == |Elements(stages)| - |Elements(order)|;
      if |order| < |stages| {
        var s :| s in rest;
        assert s in stages && s !in order;
      }
    }
  }

  lemma Subset(a: set<InitStage>, b: set<InitStage>)
    requires a <= b
    ensures |a| <= |b| && (|a| == |b| ==> a == b)
  {
    assert b == a + (b - a);
    if |a| == |b| {
      assert b - a == {};
    }
  }

  // All that x depends on has its place in the order.
  predicate Free(x: string, deps: seq<Dependency>, order: seq<string>) {
    forall d :: d in deps && d.0 == x ==> d.1 in order
  }

  // The order after going through the names once, appending each that is free by then.
  function PassOver(names: seq<string>, deps: seq<Dependency>, order: seq<string>): seq<string> {
    if |names| == 0 then order
    else PassOver(names[1..], deps,
                  if names[0] !in order && Free(names[0], deps, order) then order + [names[0]] else order)
  }

  // And after going through them n times.
  function Passes(names: seq<string>, deps: seq<Dependency>, order: seq<string>, n: nat): seq<string>
    decreases n
  {
    if n == 0 then order else Passes(names, deps, PassOver(names, deps, order), n - 1)
  }

  lemma {:induction false} PassIdle(names: seq<string>, deps: seq<Dependency>, order: seq<string>)
    requires forall x :: x in names ==> x in order
    ensures PassOver(names, deps, order) == order
  {
    if |names| > 0 {
      assert names[0] in names;
      PassIdle(names[1..], deps, order);
    }
  }

  lemma {:induction false} PassesIdle(names: seq<string>, deps: seq<Dependency>, order: seq<string>, n: nat)
    requires forall x :: x in names ==> x in order
    ensures Passes(names, deps, order, n) == order
    decreases n
  {
    if n > 0 {
      PassIdle(names, deps, order);
      PassesIdle(names, deps, order, n - 1);
    }
  }

  lemma PassEnd(names: seq<string>, deps: seq<Dependency>, order: seq<string>)
    ensures PassOver(names[|names|..], deps, order) == order
  {
  }

  lemma PassesStep(names: seq<string>, deps: seq<Dependency>, order: seq<string>, n: nat)
    ensures n > 0 ==> Passes(names, deps, order, n) == Passes(names, deps, PassOver(names, deps, order), n - 1)
  {
  }

  lemma PassStep(names: seq<string>, i: nat, deps: seq<Dependency>, order: seq<string>)
    requires i < |names|
    ensures PassOver(names[i..], deps, order)
            == PassOver(names[i + 1..], deps,
                        if names[i] !in order && Free(names[i], deps, order) then order + [names[i]] else order)
  {
    assert names[i..][1..] == names[i + 1..];
  }

  // The stages numbered so far, in this order: each after those it depends on.
  ghost predicate Numbered(order: seq<InitStage>, stages: seq<InitStage>)
    reads stages`number, stages`precedingStages, order`number, order`precedingStages
  {
    && (forall k :: 0 <= k < |order| ==> order[k] in stages && order[k].number == k)
    && (forall s :: s in stages ==> s.number == -1 || (0 <= s.number < |order| && order[s.number] == s))
    && (forall k, t :: 0 <= k < |order| && t in order[k].precedingStages ==> t in stages && 0 <= t.number < k)
  }

  // The links say what the dependencies say.
  ghost predicate Linked(stages: seq<InitStage>, deps: seq<Dependency>)
    reads stages`precedingStages, stages`followingStages
  {
    && (forall s, t :: s in stages && t in stages ==> (t in s.precedingStages <==> (s.name, t.name) in deps))
    && (forall s, t :: s in stages && t in stages ==> (t in s.followingStages <==> (t.name, s.name) in deps))
  }

  ghost predicate Inside(stages: seq<InitStage>)
    reads stages`precedingStages
  {
    forall s, t :: s in stages && t in s.precedingStages ==> t in stages
  }

  // A stage it depends on has no number yet.
  ghost predicate Blocked(s: InitStage)
    reads s`precedingStages, s.precedingStages`number
  {
    exists t :: t in s.precedingStages && t.number == -1
  }

  ghost function Blocker(s: InitStage): (t: InitStage)
    reads s`precedingStages, s.precedingStages`number
    requires Blocked(s)
    ensures t in s.precedingStages && t.number == -1
  {
    var t :| t in s.precedingStages && t.number == -1;
    t
  }

  lemma OrderFits(order: seq<InitStage>, stages: seq<InitStage>)
    requires DistinctNames(stages) && Numbered(order, stages)
    ensures |order| <= |stages|
    ensures |order| == |stages| ==> forall s :: s in stages ==> s in order
    ensures |order| < |stages| ==> exists s :: s in stages && s.number == -1
  {
    AllCovered(order, stages);
  }

  // Numbers given to every stage make an order in which dependencies go back.
  lemma OrderIsBack(order: seq<InitStage>, stages: seq<InitStage>, deps: seq<Dependency>)
    requires DistinctNames(stages) && Numbered(order, stages) && forall s :: s in stages ==> s in order
    requires Linked(stages, deps) && Resolvable(deps, stages)
    ensures InOrder(deps, Names(order)) && Acyclic(deps)
  {
    forall d | d in deps
      ensures Before(Names(order), d.1, d.0)
    {
      var i :| 0 <= i < |stages| && Names(stages)[i] == d.0;
      var j :| 0 <= j < |stages| && Names(stages)[j] == d.1;
      var s, t := stages[i], stages[j];
      assert t in s.precedingStages;
      assert s in order && t in order && s.number != -1 && t.number != -1;
      assert order[s.number] == s && order[t.number] == t;
      assert Names(order)[s.number] == d.0 && Names(order)[t.number] == d.1;
    }
    forall i, j | 0 <= i < j < |order|
      ensures Names(order)[i] != Names(order)[j]
    {
      assert order[i].number != order[j].number;
      SameName(stages, order[i], order[j]);
    }
    OrderRulesOut(deps, Names(order));
  }

  lemma SortedOrder(order: seq<InitStage>, stages: seq<InitStage>)
    requires DistinctNames(stages) && Numbered(order, stages) && forall s :: s in stages ==> s in order
    ensures forall s :: s in order <==> s in stages
    ensures DistinctNames(order) && forall i :: 0 <= i < |order| ==> order[i].number == i
  {
    forall i, j | 0 <= i < j < |order|
      ensures order[i].name != order[j].name
    {
      SameName(stages, order[i], order[j]);
    }
  }

  // Stages without a number that nothing holds back are those whose names are free.
  lemma FreeStage(order: seq<InitStage>, stages: seq<InitStage>, deps: seq<Dependency>, s: InitStage)
    requires DistinctNames(stages) && Numbered(order, stages) && Linked(stages, deps) && Inside(stages)
    requires Resolvable(deps, stages) && s in stages
    ensures s.name in Names(order) <==> s.number != -1
    ensures Free(s.name, deps, Names(order)) <==> !Blocked(s)
  {
    NameInOrder(order, stages, s);
    if !Blocked(s) {
      forall d | d in deps && d.0 == s.name
        ensures d.1 in Names(order)
      {
        var j :| 0 <= j < |stages| && Names(stages)[j] == d.1;
        assert stages[j] in s.precedingStages;
        NameInOrder(order, stages, stages[j]);
      }
    } else {
      var t := Blocker(s);
      NameInOrder(order, stages, t);
      assert (s.name, t.name) in deps;
    }
  }

  lemma NameInOrder(order: seq<InitStage>, stages: seq<InitStage>, s: InitStage)
    requires DistinctNames(stages) && Numbered(order, stages) && s in stages
    ensures s.name in Names(order) <==> s.number != -1
  {
    if s.number != -1 {
      assert Names(order)[s.number] == s.name;
    }
    if k :| 0 <= k < |order| && Names(order)[k] == s.name {
      SameName(stages, order[k], s);
    }
  }

  lemma NamesPush(order: seq<InitStage>, s: InitStage)
    ensures Names(order + [s]) == Names(order) + [s.name]
  {
  }

  lemma NamesAll(order: seq<InitStage>, stages: seq<InitStage>)
    requires forall s :: s in stages ==> s in order
    ensures forall x :: x in Names(stages) ==> x in Names(order)
  {
    forall x | x in Names(stages)
      ensures x in Names(order)
    {
      var i :| 0 <= i < |stages| && Names(stages)[i] == x;
      assert stages[i] in stages && stages[i] in order;
      var j :| 0 <= j < |order| && order[j] == stages[i];
      assert Names(order)[j] == x;
    }
  }

  lemma Starting(stages: seq<InitStage>)
    requires forall s :: s in stages ==> s.number == -1
    ensures Numbered([], stages) && Names([]) == []
  {
  }

  // A stage may get the next number when those it depends on have theirs.
  lemma Extends(order: seq<InitStage>, stages: seq<InitStage>, s: InitStage)
    requires Numbered(order, stages) && Inside(stages) && s in stages && s.number == -1 && !Blocked(s)
    ensures s !in order
    ensures forall t :: t in s.precedingStages ==> t in stages && 0 <= t.number < |order|
  {
  }

  // In a list in order the stage after the numbered ones is free.
  lemma NotBlocked(stages: seq<InitStage>, deps: seq<Dependency>, i: nat)
    requires DistinctNames(stages) && Linked(stages, deps) && Inside(stages)
    requires i < |stages| && InOrder(deps, Names(stages)) && Numbered(stages[..i], stages)
    ensures !Blocked(stages[i])
  {
    forall t | t in stages[i].precedingStages
      ensures t.number != -1
    {
      hide Numbered;
      PrecedesInList(stages, deps, i, t);
      FirstAreNumbered(stages, i, t);
    }
  }

  lemma PrecedesInList(stages: seq<InitStage>, deps: seq<Dependency>, i: nat, t: InitStage)
    requires DistinctNames(stages) && i < |stages| && t in stages
    requires InOrder(deps, Names(stages)) && (stages[i].name, t.name) in deps
    ensures t in stages[..i]
  {
    var d := (stages[i].name, t.name);
    assert Before(Names(stages), d.1, d.0);
    var j, k :| 0 <= j < k < |stages| && Names(stages)[j] == t.name && Names(stages)[k] == stages[i].name;
    assert stages[k].name == stages[i].name && stages[j].name == t.name;
    SameName(stages, stages[j], t);
  }

  lemma NotNumbered(stages: seq<InitStage>, i: nat)
    requires DistinctNames(stages) && i < |stages| && Numbered(stages[..i], stages)
    ensures stages[i].number == -1
  {
    assert stages[i] in stages;
  }

  lemma FirstAreNumbered(stages: seq<InitStage>, i: nat, t: InitStage)
    requires i < |stages| && Numbered(stages[..i], stages) && t in stages[..i]
    ensures t.number != -1
  {
  }

  // Unnumbered stages that each wait for another unnumbered one are in a cycle.
  lemma BlockedForever(stages: seq<InitStage>, deps: seq<Dependency>)
    requires DistinctNames(stages) && Linked(stages, deps) && Inside(stages)
    requires exists s :: s in stages && s.number == -1
    requires forall s :: s in stages && s.number == -1 ==> Blocked(s)
    ensures !Acyclic(deps)
  {
    hide *;
    var s :| s in stages && s.number == -1;
    StageNamed(stages, s);
    var names := set x | x in Names(stages) && StageOf(stages, x).number == -1;
    assert s.name in names;
    forall x | x in names
      ensures x in Names(stages) && Blocked(StageOf(stages, x))
      ensures NextName(stages, x) in names && (x, NextName(stages, x)) in deps
    {
      WaitsOn(stages, deps, x);
    }
    NamesInCycle(stages, deps, names);
  }

  lemma NamesInCycle(stages: seq<InitStage>, deps: seq<Dependency>, names: set<string>)
    requires names != {}
    requires forall x :: x in names ==> x in Names(stages) && Blocked(StageOf(stages, x))
    requires forall x :: x in names ==> NextName(stages, x) in names && (x, NextName(stages, x)) in deps
    ensures !Acyclic(deps)
  {
    hide *;
    var next := map x | x in names :: NextName(stages, x);
    var x :| x in names;
    assert x in next;
    FindCycle(next, deps);
  }

  lemma StageNamed(stages: seq<InitStage>, s: InitStage)
    requires DistinctNames(stages) && s in stages
    ensures s.name in Names(stages) && StageOf(stages, s.name) == s
  {
    NameListed(stages, s);
    SameName(stages, s, StageOf(stages, s.name));
  }

  ghost function NextName(stages: seq<InitStage>, x: string): string
    reads *
    requires x in Names(stages) && Blocked(StageOf(stages, x))
  {
    Blocker(StageOf(stages, x)).name
  }

  lemma WaitsOn(stages: seq<InitStage>, deps: seq<Dependency>, x: string)
    requires DistinctNames(stages) && Linked(stages, deps) && Inside(stages)
    requires x in Names(stages) && Blocked(StageOf(stages, x))
    ensures var y := NextName(stages, x);
            (x, y) in deps && y in Names(stages) && StageOf(stages, y).number == -1
  {
    var t := Blocker(StageOf(stages, x));
    assert t in stages;
    StageNamed(stages, t);
  }

  lemma NameListed(stages: seq<InitStage>, s: InitStage)
    requires s in stages
    ensures s.name in Names(stages)
  {
    var i :| 0 <= i < |stages| && stages[i] == s;
    assert Names(stages)[i] == s.name;
  }

  ghost function StageOf(stages: seq<InitStage>, name: string): (s: InitStage)
    requires name in Names(stages)
    ensures s in stages && s.name == name
  {
    var i :| 0 <= i < |stages| && Names(stages)[i] == name;
    stages[i]
  }

  lemma SameName(stages: seq<InitStage>, s: InitStage, t: InitStage)
    requires DistinctNames(stages) && s in stages && t in stages
    ensures s.name == t.name ==> s == t
  {
  }

  class InitStageRegistry {
    var numInitStages: int
    var stages: seq<InitStage>
    var dependencies: seq<Dependency>

    constructor ()
      ensures stages == [] && dependencies == [] && numInitStages == -1
    {
      numInitStages, stages, dependencies := -1, [], [];
    }

    method AddInitStage(stage: InitStage)
      modifies this
      ensures stages == old(stages) + [stage] && dependencies == old(dependencies) && numInitStages == -1
    {
      stages := stages + [stage];
      numInitStages := -1;
    }

    method AddInitStageDependency(source: string, target: string)
      modifies this
      ensures dependencies == old(dependencies) + [(source, target)] && stages == old(stages) && numInitStages == -1
    {
      dependencies := dependencies + [(source, target)];
      numInitStages := -1;
    }

    method GetInitStage(name: string) returns (r: Option<InitStage>)
      ensures r.Some? ==> r.value in stages && r.value.name == name
      ensures r.None? ==> name !in Names(stages)
    {
      var i := 0;
      while i < |stages|
        invariant 0 <= i <= |stages|
        invariant forall j :: 0 <= j < i ==> stages[j].name != name
      {
        if stages[i].name == name {
          return Some(stages[i]);
        }
        i := i + 1;
      }
      return None;
    }

    method ClearStages()
      modifies stages
      ensures forall s :: s in stages ==> s.number == -1 && s.precedingStages == [] && s.followingStages == []
    {
      var i := 0;
      while i < |stages|
        invariant 0 <= i <= |stages|
        invariant forall j :: 0 <= j < i ==>
          stages[j].number == -1 && stages[j].precedingStages == [] && stages[j].followingStages == []
      {
        stages[i].number := -1;
        stages[i].followingStages := [];
        stages[i].precedingStages := [];
        i := i + 1;
      }
    }

    method LinkStages() returns (ok: bool)
      requires DistinctNames(stages)
      requires forall s :: s in stages ==> s.number == -1 && s.precedingStages == [] && s.followingStages == []
      modifies stages
      ensures ok <==> Resolvable(dependencies, stages)
      ensures ok ==> Linked(stages, dependencies) && Inside(stages)
      ensures forall s :: s in stages ==> s.number == -1
    {
      var i := 0;
      while i < |dependencies|
        invariant 0 <= i <= |dependencies|
        invariant Resolvable(dependencies[..i], stages)
        invariant Linked(stages, dependencies[..i]) && Inside(stages)
        invariant forall s :: s in stages ==> s.number == -1
      {
        var d := dependencies[i];
        var following := GetInitStage(d.0);
        if following.None? {
          assert d in dependencies;
          return false;
        }
        var preceding := GetInitStage(d.1);
        if preceding.None? {
          assert d in dependencies;
          return false;
        }
        LinkOne(preceding.value, following.value, dependencies[..i], d);
        assert dependencies[..i + 1] == dependencies[..i] + [d];
        i := i + 1;
      }
      assert dependencies[..i] == dependencies;
      ok := true;
    }

    // Passes over the stages until all have a number or a pass numbers none.
    method NumberStages() returns (ok: bool, ghost order: seq<InitStage>)
      requires DistinctNames(stages) && Linked(stages, dependencies) && Inside(stages)
               && Resolvable(dependencies, stages)
      requires forall s :: s in stages ==> s.number == -1
      modifies this`numInitStages, stages`number
      ensures ok <==> Acyclic(dependencies)
      ensures ok ==> Numbered(order, stages) && |order| == |stages| == numInitStages
                     && (forall s :: s in stages ==> s in order) && InOrder(dependencies, Names(order))
                     && Names(order) == Passes(Names(stages), dependencies, [], |stages|)
      ensures ok && InOrder(dependencies, Names(stages)) ==> order == stages
    {
      hide Numbered, InOrder, Linked, Inside, PassOver, Passes;
      numInitStages := 0;
      order := [];
      ghost var names, n := Names(stages), |stages|;
      Starting(stages);
      while numInitStages < |stages|
        invariant numInitStages == |order| <= |stages|
        invariant Numbered(order, stages)
        invariant InOrder(dependencies, Names(stages)) ==> order == [] || order == stages
        invariant |stages| - n <= |order| && Passes(names, dependencies, Names(order), n)
                                            == Passes(names, dependencies, [], |stages|)
        decreases |stages| - numInitStages
      {
        var progress;
        PassesStep(names, dependencies, Names(order), n);
        progress, order := Pass(order);
        n := n - 1;
        OrderFits(order, stages);
        if !progress {
          BlockedForever(stages, dependencies);
          return false, order;
        }
      }
      OrderFits(order, stages);
      OrderIsBack(order, stages, dependencies);
      NamesAll(order, stages);
      PassesIdle(names, dependencies, Names(order), n);
      ok := true;
    }

    // One pass: numbers every stage whose preceding stages have numbers.
    method Pass(ghost order0: seq<InitStage>) returns (progress: bool, ghost order: seq<InitStage>)
      requires DistinctNames(stages) && Linked(stages, dependencies) && Inside(stages)
      requires Resolvable(dependencies, stages)
      requires Numbered(order0, stages) && numInitStages == |order0|
      modifies this`numInitStages, stages`number
      ensures Numbered(order, stages) && numInitStages == |order|
      ensures if progress then |order| > |order0| else order == order0
      ensures Names(order) == PassOver(Names(stages), dependencies, Names(order0))
      ensures !progress ==> forall s :: s in stages && s.number == -1 ==> Blocked(s)
      ensures order0 == [] && InOrder(dependencies, Names(stages)) ==> order == stages
    {
      hide Numbered, InOrder, Linked, Inside, PassOver, Free, Resolvable, Names, DistinctNames;
      ghost var names := Names(stages);
      assert names[0..] == names;
      progress := false;
      order := order0;
      ghost var inOrder := InOrder(dependencies, Names(stages));
      var i := 0;
      while i < |stages|
        invariant 0 <= i <= |stages|
        invariant Numbered(order, stages) && numInitStages == |order|
        invariant if progress then |order| > |order0| else order == order0
        invariant !progress ==> forall j :: 0 <= j < i && stages[j].number == -1 ==> Blocked(stages[j])
        invariant order0 == [] && inOrder ==> order == stages[..i]
        invariant PassOver(names[i..], dependencies, Names(order)) == PassOver(names, dependencies, Names(order0))
      {
        var s := stages[i];
        FreeStage(order, stages, dependencies, s);
        PassStep(names, i, dependencies, Names(order));
        if order0 == [] && inOrder {
          NotNumbered(stages, i);
        }
        if s.number == -1 {
          var free := IsFree(s);
          if free {
            NamesPush(order, s);
            order := NumberOne(s, order);
            progress := true;
          } else if order0 == [] && inOrder {
            NotBlocked(stages, dependencies, i);
          }
        }
        i := i + 1;
      }
      assert stages[..i] == stages;
      PassEnd(names, dependencies, Names(order));
    }

    method NumberOne(s: InitStage, ghost order: seq<InitStage>) returns (ghost next: seq<InitStage>)
      requires Numbered(order, stages) && numInitStages == |order| && Inside(stages)
      requires s in stages && s.number == -1 && !Blocked(s)
      modifies this`numInitStages, s`number
      ensures next == order + [s] && Numbered(next, stages) && numInitStages == |next|
    {
      Extends(order, stages, s);
      s.number := numInitStages;
      numInitStages := numInitStages + 1;
      next := order + [s];
    }

    // No preceding stage is without a number.
    method IsFree(s: InitStage) returns (free: bool)
      ensures free <==> !Blocked(s)
    {
      var j := 0;
      while j < |s.precedingStages|
        invariant 0 <= j <= |s.precedingStages|
        invariant forall k :: 0 <= k < j ==> s.precedingStages[k].number != -1
      {
        if s.precedingStages[j].number == -1 {
          return false;
        }
        j := j + 1;
      }
      free := true;
    }

    // std::sort by number.
    method SortByNumber(ghost order: seq<InitStage>)
      requires DistinctNames(stages) && Numbered(order, stages) && |order| == |stages|
      requires forall s :: s in stages ==> s in order
      modifies this`stages
      ensures stages == order
    {
      var sorted := [];
      while |sorted| < |stages|
        invariant |sorted| <= |stages| && sorted == order[..|sorted|]
      {
        ghost var next := order[|sorted|];
        assert next in stages && next.number == |sorted|;
        ghost var k :| 0 <= k < |stages| && stages[k] == next;
        var i := 0;
        while stages[i].number != |sorted|
          invariant 0 <= i <= k
          decreases k - i
        {
          i := i + 1;
        }
        sorted := sorted + [stages[i]];
      }
      stages := sorted;
    }

    method AssignInitStageNumbers() returns (status: Status)
      requires DistinctNames(stages)
      modifies this`numInitStages, this`stages, stages
      ensures dependencies == old(dependencies)
      ensures status == NoSuchStage <==> !Resolvable(dependencies, old(stages))
      ensures status == Assigned <==> Resolvable(dependencies, old(stages)) && Acyclic(dependencies)
      ensures status != Assigned ==> stages == old(stages)
      ensures status == Assigned ==>
                && numInitStages == |stages| == |old(stages)|
                && (forall s :: s in old(stages) <==> s in stages)
                && DistinctNames(stages)
                && (forall i :: 0 <= i < |stages| ==> stages[i].number == i)
                && InOrder(dependencies, Names(stages))
                && Names(stages) == Passes(Names(old(stages)), dependencies, [], |old(stages)|)
      ensures status == Assigned && InOrder(dependencies, Names(old(stages))) ==> stages == old(stages)
    {
      ClearStages();
      var ok := LinkStages();
      if !ok {
        return NoSuchStage;
      }
      ghost var order;
      ok, order := NumberStages();
      if !ok {
        return Circle;
      }
      SortedOrder(order, stages);
      SortByNumber(order);
      return Assigned;
    }

    // operator int of a stage and getNumInitStages number the stages first when needed.
    method GetNumInitStages() returns (status: Status, n: int)
      requires DistinctNames(stages)
      modifies this`numInitStages, this`stages, stages
      ensures status == Assigned ==> n == numInitStages
      ensures old(numInitStages) != -1
              ==> status == Assigned && stages == old(stages) && numInitStages == old(numInitStages)
      ensures old(numInitStages) == -1
              ==> (status == Assigned <==> Resolvable(dependencies, old(stages)) && Acyclic(dependencies))
      ensures status == Assigned && old(numInitStages) == -1 ==>
                && n == |stages| == |old(stages)| && Acyclic(dependencies)
                && (forall s :: s in old(stages) <==> s in stages)
                && (forall i :: 0 <= i < |stages| ==> stages[i].number == i)
                && Names(stages) == Passes(Names(old(stages)), dependencies, [], |old(stages)|)
      ensures status == Assigned && old(numInitStages) == |old(stages)| ==> n == |old(stages)|
      ensures old(numInitStages) == -1 ==> (status == NoSuchStage <==> !Resolvable(dependencies, old(stages)))
    {
      status := Assigned;
      if numInitStages == -1 {
        status := AssignInitStageNumbers();
      }
      n := numInitStages;
    }

    method LinkOne(preceding: InitStage, following: InitStage, ghost deps: seq<Dependency>, ghost d: Dependency)
      requires DistinctNames(stages) && preceding in stages && following in stages
      requires d == (following.name, preceding.name)
      requires Linked(stages, deps) && Inside(stages)
      modifies preceding`followingStages, following`precedingStages
      ensures Linked(stages, deps + [d]) && Inside(stages)
    {
      preceding.followingStages := preceding.followingStages + [following];
      following.precedingStages := following.precedingStages + [preceding];
      forall s, t | s in stages && t in stages
        ensures t in s.precedingStages <==> (s.name, t.name) in deps + [d]
      {
        SameName(stages, s, following);
        SameName(stages, t, preceding);
      }
    }
  }

  // Numbering again, or after appending a stage that others do not depend on, finds the
  // list in order, so every old number stays.
  lemma AppendedInOrder(names: seq<string>, deps: seq<Dependency>, name: string, more: seq<Dependency>)
    requires InOrder(deps, names) && name !in names
    requires forall d :: d in more ==> d.0 == name && d.1 in names
    ensures InOrder(deps + more, names + [name])
  {
    var all := names + [name];
    forall d | d in deps + more
      ensures Before(all, d.1, d.0)
    {
      if d in deps {
        var i, j :| 0 <= i < j < |names| && names[i] == d.1 && names[j] == d.0;
        assert all[i] == d.1 && all[j] == d.0;
      } else {
        var i :| 0 <= i < |names| && names[i] == d.1;
        assert all[i] == d.1 && all[|names|] == d.0;
      }
    }
  }
}
