// A hierarchical state machine: transitions along a tree of states with entry, exit
// and init actions, shallow and deep history, and a loop that performs pending transitions.
module Macho {

  import opened Wrappers

  // The history strategy a state declares, if any.
  datatype Strategy = NoHistory | Shallow | Deep

  // Whether a state has a box of its own and whether the box outlives the state.
  datatype BoxKind = EmptyBox | OwnBox | PersistentBox

  datatype State = Root | Sub(parent: State, name: nat, strategy: Strategy, boxKind: BoxKind)

  // How the init action of a new state is called: by default, on history, or with data.
  datatype Initializer = Default | History | WithData

  // What a user action asks for; Back names a state by an alias for its history.
  datatype Request = Stay | Go(target: State, how: Initializer) | Back(target: State)

  // What an event handler asks for, and whether it posts an event.
  datatype Reaction = Reaction(request: Request, posts: bool)

  datatype Act = Entry(state: State) | Exit(state: State) | Init(state: State) | Handle(state: State)

  // ----- The tree of states -----

  function Depth(s: State): nat {
    if s.Root? then 0 else Depth(s.parent) + 1
  }

  // s is t or one of its substates.
  predicate IsChild(s: State, t: State) {
    s == t || (s.Sub? && IsChild(s.parent, t))
  }

  predicate Proper(s: State, t: State) {
    IsChild(s, t) && s != t
  }

  function Path(s: State): seq<State> {
    if s.Root? then [] else Path(s.parent) + [s]
  }

  lemma {:induction false} ChildDepth(s: State, t: State)
    requires IsChild(s, t)
    ensures Depth(t) <= Depth(s) && (s != t ==> Depth(t) < Depth(s))
    decreases s
  {
    if s != t {
      ChildDepth(s.parent, t);
    }
  }

  lemma {:induction false} RootAbove(s: State)
    ensures IsChild(s, Root)
    decreases s
  {
    if s.Sub? {
      RootAbove(s.parent);
    }
  }

  lemma {:induction false} ChildTransitive(s: State, t: State, u: State)
    requires IsChild(s, t) && IsChild(t, u)
    ensures IsChild(s, u)
    decreases s
  {
    if s != t {
      ChildTransitive(s.parent, t, u);
    }
  }

  lemma ChildAntisymmetric(s: State, t: State)
    requires IsChild(s, t) && IsChild(t, s)
    ensures s == t
  {
    ChildDepth(s, t);
    ChildDepth(t, s);
  }

  lemma {:induction false} InPath(s: State, t: State)
    ensures t in Path(s) <==> IsChild(s, t) && t.Sub?
    decreases s
  {
    if s.Sub? {
      InPath(s.parent, t);
    }
  }

  // ----- Where a transition turns -----

  // The deepest superstate of prev, prev included, that has next as a proper substate.
  ghost predicate Pivot(p: State, prev: State, next: State) {
    && IsChild(prev, p)
    && (next.Sub? ==> Proper(next, p))
    && (next.Root? ==> p.Root?)
    && forall x :: IsChild(prev, x) && Proper(next, x) ==> IsChild(p, x)
  }

  lemma PivotUnique(p: State, q: State, prev: State, next: State)
    requires Pivot(p, prev, next) && Pivot(q, prev, next)
    ensures p == q
  {
    if next.Sub? {
      assert IsChild(p, q) && IsChild(q, p);
      ChildAntisymmetric(p, q);
    }
  }

  // Where the recursion of exit stops.
  function Left(s: State, next: State): State {
    if s.Root? then s
    else if s == next || !IsChild(next, s) then Left(s.parent, next)
    else s
  }

  // Where the recursion of entry stops.
  function Entered(s: State, previous: State, first: bool): State {
    if s.Root? then s
    else if first || !IsChild(previous, s) then Entered(s.parent, previous, false)
    else s
  }

  lemma {:induction false} LeftIsPivot(s: State, next: State)
    ensures Pivot(Left(s, next), s, next)
    decreases s
  {
    RootAbove(next);
    if s.Sub? {
      if s == next || !IsChild(next, s) {
        LeftIsPivot(s.parent, next);
      } else if next.Root? {
        ChildDepth(next, s);
      }
    }
  }

  lemma {:induction false} EnteredIsDeepest(s: State, previous: State, first: bool)
    ensures var p := Entered(s, previous, first);
            IsChild(s, p) && IsChild(previous, p) && (first && s.Sub? ==> s != p)
            && forall x :: IsChild(previous, x) && IsChild(s, x) && (first ==> s != x) ==> IsChild(p, x)
    decreases s
  {
    RootAbove(previous);
    if s.Sub? && (first || !IsChild(previous, s)) {
      EnteredIsDeepest(s.parent, previous, false);
      ChildDepth(s.parent, Entered(s, previous, first));
    }
  }

  // Exits stop and entries start at the same state.
  lemma SamePivot(prev: State, next: State)
    ensures Left(prev, next) == Entered(next, prev, true)
    ensures IsChild(prev, Left(prev, next)) && IsChild(next, Left(prev, next))
  {
    LeftIsPivot(prev, next);
    EnteredIsDeepest(next, prev, true);
    RootAbove(next);
    PivotUnique(Left(prev, next), Entered(next, prev, true), prev, next);
  }

  // ----- The trace of actions -----

  // The states entered and not exited, if every action ran where it may.
  function Run(trace: seq<Act>): Option<seq<State>> {
    if |trace| == 0 then Some([])
    else
      match Run(trace[..|trace| - 1])
      case None => None
      case Some(stack) => Step(stack, trace[|trace| - 1])
  }

  // A state is entered after its superstate and exited before it; other actions run in
  // the innermost state.
  function Step(stack: seq<State>, a: Act): Option<seq<State>> {
    var top := if |stack| == 0 then Root else stack[|stack| - 1];
    match a
    case Entry(s) => if s.Sub? && s.parent == top then Some(stack + [s]) else None
    case Exit(s) => if |stack| > 0 && s == top then Some(stack[..|stack| - 1]) else None
    case Init(s) => if s == top then Some(stack) else None
    case Handle(s) => if s == top then Some(stack) else None
  }

  // The exits from s up to, not including, t; innermost first.
  function Exits(s: State, t: State): seq<Act>
    requires IsChild(s, t)
  {
    if s == t then [] else [Exit(s)] + Exits(s.parent, t)
  }

  // The entries below t down to s; outermost first.
  function Entries(t: State, s: State): seq<Act>
    requires IsChild(s, t)
    decreases s
  {
    if s == t then [] else Entries(t, s.parent) + [Entry(s)]
  }

  lemma RunAppend(trace: seq<Act>, a: Act)
    requires Run(trace).Some?
    ensures Run(trace + [a]) == Step(Run(trace).value, a)
  {
    assert (trace + [a])[..|trace|] == trace;
  }

  lemma PathTop(s: State)
    ensures s == if |Path(s)| == 0 then Root else Path(s)[|Path(s)| - 1]
  {
  }

  function Turn(prev: State, next: State): (p: State)
    ensures IsChild(prev, p) && IsChild(next, p)
  {
    SamePivot(prev, next);
    Left(prev, next)
  }

  // The actions of one transition.
  function Transition(prev: State, next: State): seq<Act> {
    Exits(prev, Turn(prev, next)) + Entries(Turn(prev, next), next)
  }

  // A transition exits the states of the old path that do not properly contain the new
  // state, and enters the states of the new path that did not stay entered.
  lemma TransitionExactly(prev: State, next: State, s: State)
    ensures Exit(s) in Transition(prev, next) <==> s in Path(prev) && !Proper(next, s)
    ensures Entry(s) in Transition(prev, next) <==> s in Path(next) && !(s in Path(prev) && Proper(next, s))
  {
    LeftIsPivot(prev, next);
    var p := Turn(prev, next);
    hide Path, Exits, Entries, Left, Entered;
    InExits(prev, p, s);
    InEntries(p, next, s);
    InPath(prev, s);
    InPath(next, s);
    ActsKind(prev, p, next);
    if s.Sub? {
      AboveTurn(prev, next, p, s);
    } else {
      RootAbove(p);
      RootAbove(prev);
    }
  }

  lemma AboveTurn(prev: State, next: State, p: State, s: State)
    requires IsChild(prev, p) && IsChild(next, p) && Pivot(p, prev, next) && s.Sub?
    ensures IsChild(p, s) <==> IsChild(prev, s) && Proper(next, s)
  {
    if IsChild(p, s) {
      ChildTransitive(prev, p, s);
      ChildTransitive(next, p, s);
      if next == s {
        ChildAntisymmetric(p, s);
      }
    }
  }

  lemma {:induction false} ExitsOnly(s: State, t: State)
    requires IsChild(s, t)
    ensures forall a :: a in Exits(s, t) ==> a.Exit?
    decreases s
  {
    if s != t {
      ExitsOnly(s.parent, t);
    }
  }

  lemma {:induction false} EntriesOnly(t: State, s: State)
    requires IsChild(s, t)
    ensures forall a :: a in Entries(t, s) ==> a.Entry?
    decreases s
  {
    if s != t {
      EntriesOnly(t, s.parent);
    }
  }

  lemma ActsKind(prev: State, p: State, next: State)
    requires IsChild(prev, p) && IsChild(next, p)
    ensures forall a :: a in Exits(prev, p) ==> a.Exit?
    ensures forall a :: a in Entries(p, next) ==> a.Entry?
  {
    ExitsOnly(prev, p);
    EntriesOnly(p, next);
  }

  lemma {:induction false} InExits(s: State, t: State, x: State)
    requires IsChild(s, t)
    ensures Exit(x) in Exits(s, t) <==> IsChild(s, x) && !IsChild(t, x)
    decreases s
  {
    if s != t {
      InExits(s.parent, t, x);
      if IsChild(t, s) {
        ChildAntisymmetric(s, t);
      }
    }
  }

  lemma {:induction false} InEntries(t: State, s: State, x: State)
    requires IsChild(s, t)
    ensures Entry(x) in Entries(t, s) <==> IsChild(s, x) && !IsChild(t, x)
    decreases s
  {
    if s != t {
      InEntries(t, s.parent, x);
      if IsChild(t, s) {
        ChildAntisymmetric(s, t);
      }
    }
  }

  lemma EntriesStep(trace: seq<Act>, s: State, t: State)
    requires s.Sub? && s != t && IsChild(s.parent, t)
    ensures trace + Entries(t, s.parent) + [Entry(s)] == trace + Entries(t, s)
  {
  }

  lemma ExitsStep(trace: seq<Act>, s: State, t: State)
    requires s.Sub? && s != t && IsChild(s.parent, t)
    ensures trace + [Exit(s)] + Exits(s.parent, t) == trace + Exits(s, t)
  {
  }

  // Going to Root exits every state.
  lemma ToRoot(s: State)
    ensures IsChild(s, Root) && Transition(s, Root) == Exits(s, Root)
  {
    RootAbove(s);
    LeftIsPivot(s, Root);
  }

  lemma TransitionGrouped(trace: seq<Act>, prev: State, next: State)
    ensures trace + Exits(prev, Turn(prev, next)) + Entries(Turn(prev, next), next) == trace + Transition(prev, next)
  {
  }

  lemma EntryRuns(trace: seq<Act>, s: State)
    requires s.Sub? && Run(trace) == Some(Path(s.parent))
    ensures Run(trace + [Entry(s)]) == Some(Path(s))
  {
    PathTop(s.parent);
    RunAppend(trace, Entry(s));
  }

  lemma ExitRuns(trace: seq<Act>, s: State)
    requires s.Sub? && Run(trace) == Some(Path(s))
    ensures Run(trace + [Exit(s)]) == Some(Path(s.parent))
  {
    PathTop(s);
    RunAppend(trace, Exit(s));
    assert Path(s)[..|Path(s)| - 1] == Path(s.parent);
  }

  // Init actions and event handlers run in the innermost entered state.
  lemma ActionRuns(trace: seq<Act>, a: Act)
    requires (a.Init? || a.Handle?) && Run(trace) == Some(Path(a.state))
    ensures Run(trace + [a]) == Some(Path(a.state))
  {
    PathTop(a.state);
    RunAppend(trace, a);
  }

  // The entries of s in the trace less the exits from it.
  function Balance(trace: seq<Act>, s: State): int {
    if |trace| == 0 then 0
    else
      var a := trace[|trace| - 1];
      Balance(trace[..|trace| - 1], s) + if a == Entry(s) then 1 else if a == Exit(s) then -1 else 0
  }

  // s is Root or has been entered more often than exited, and so are only its superstates.
  ghost predicate Innermost(trace: seq<Act>, s: State) {
    (s.Root? || Balance(trace, s) > 0) && forall x :: Balance(trace, x) > 0 ==> IsChild(s, x)
  }

  // The action may come next: an entry from the innermost state into a substate, an exit
  // from the innermost state, or another action in it.
  ghost predicate MayFollow(trace: seq<Act>, a: Act) {
    match a
    case Entry(s) => s.Sub? && Innermost(trace, s.parent)
    case Exit(s) => s.Sub? && Innermost(trace, s)
    case Init(s) => Innermost(trace, s)
    case Handle(s) => Innermost(trace, s)
  }

  ghost predicate Disciplined(trace: seq<Act>) {
    forall k :: 0 <= k < |trace| ==> MayFollow(trace[..k], trace[k])
  }

  // The stack is the path to its last state, and holds what was entered and not exited.
  ghost predicate Open(trace: seq<Act>, top: State) {
    forall s :: Balance(trace, s) == if s in Path(top) then 1 else 0
  }

  lemma InnermostIs(trace: seq<Act>, top: State, s: State)
    requires Open(trace, top)
    ensures Innermost(trace, s) <==> s == top
  {
    forall x
      ensures Balance(trace, x) > 0 <==> IsChild(top, x) && x.Sub?
    {
      InPath(top, x);
    }
    RootAbove(top);
    if Innermost(trace, s) && s != top {
      assert IsChild(top, s);
      if top.Sub? {
        assert IsChild(s, top);
        ChildAntisymmetric(s, top);
      }
    }
  }

  lemma OpenNext(trace: seq<Act>, a: Act, top: State)
    requires Open(trace, top)
    requires a.Entry? ==> a.state.Sub? && a.state.parent == top
    requires a.Exit? ==> a.state.Sub? && a.state == top
    ensures Open(trace + [a], if a.Entry? then a.state else if a.Exit? then top.parent else top)
  {
    assert (trace + [a])[..|trace|] == trace;
    forall s
      ensures Balance(trace + [a], s) == Balance(trace, s) + if a == Entry(s) then 1 else if a == Exit(s) then -1 else 0
    {
    }
    if a.Entry? {
      NotInOwnPath(a.state);
    } else if a.Exit? {
      NotInOwnPath(a.state);
    }
  }

  lemma NotInOwnPath(s: State)
    requires s.Sub?
    ensures s !in Path(s.parent)
  {
    InPath(s.parent, s);
    if IsChild(s.parent, s) {
      ChildDepth(s.parent, s);
    }
  }

  // What Run accepts are the traces in which every action is where it may be, judged by
  // counting entries and exits only, and what it yields are the states entered once more
  // than exited, along one path.
  lemma {:induction false} RunDisciplined(trace: seq<Act>) returns (top: State)
    ensures Run(trace).Some? <==> Disciplined(trace)
    ensures Run(trace).Some? ==> Run(trace) == Some(Path(top)) && Open(trace, top)
    decreases |trace|
  {
    if |trace| == 0 {
      top := Root;
    } else {
      var before, a := trace[..|trace| - 1], trace[|trace| - 1];
      top := RunDisciplined(before);
      DisciplinedNext(before, a);
      assert trace == before + [a];
      if Run(before).Some? {
        PathTop(top);
        InnermostIs(before, top, if a.Entry? && a.state.Sub? then a.state.parent else a.state);
        if Run(trace).Some? {
          OpenNext(before, a, top);
          PathNext(top, a);
          top := if a.Entry? then a.state else if a.Exit? then top.parent else top;
        }
      }
    }
  }

  lemma DisciplinedNext(trace: seq<Act>, a: Act)
    ensures Disciplined(trace + [a]) <==> Disciplined(trace) && MayFollow(trace, a)
  {
    var t := trace + [a];
    assert t[..|trace|] == trace && t[|trace|] == a;
    assert forall k :: 0 <= k < |trace| ==> t[..k] == trace[..k] && t[k] == trace[k];
  }

  lemma PathNext(top: State, a: Act)
    requires Step(Path(top), a).Some?
    ensures Step(Path(top), a) == Some(Path(if a.Entry? then a.state else if a.Exit? then top.parent else top))
  {
    PathTop(top);
  }

  // ----- History -----

  // Some superstate of s, s included, keeps a history.
  predicate Bubbles(s: State) {
    s.Sub? && (s.strategy != NoHistory || Bubbles(s.parent))
  }

  // The child of x on the path to s.
  function Toward(x: State, s: State): (c: State)
    requires Proper(s, x)
    ensures IsChild(s, c) && c.Sub? && c.parent == x
  {
    if s.parent == x then s else Toward(x, s.parent)
  }

  // When s is left and deep was current, a superstate of s remembers this state.
  function Remembered(x: State, s: State, deep: State): Option<State> {
    if x.Sub? && Proper(s, x) then
      match x.strategy
      case NoHistory => None
      case Shallow => Some(Toward(x, s))
      case Deep => Some(deep)
    else None
  }

  // Every superstate of s that keeps history is set, and no other.
  ghost predicate Saved(before: map<State, State>, after: map<State, State>, s: State, deep: State) {
    forall x :: if Remembered(x, s, deep).Some? then x in after && after[x] == Remembered(x, s, deep).value
                else (x in after <==> x in before) && (x in after ==> after[x] == before[x])
  }

  lemma {:induction false} KeepsNone(s: State, x: State)
    requires x.Sub? && IsChild(s, x) && !Bubbles(s)
    ensures x.strategy == NoHistory
    decreases s
  {
    if s != x {
      KeepsNone(s.parent, x);
    }
  }

  // Without a superstate that keeps history there is nothing to save.
  lemma NothingSaved(h: map<State, State>, s: State, deep: State)
    requires s.Sub? ==> !Bubbles(s.parent)
    ensures Saved(h, h, s, deep)
  {
    forall x
      ensures Remembered(x, s, deep) == None
    {
      if x.Sub? && Proper(s, x) {
        KeepsNone(s.parent, x);
      }
    }
  }

  // Setting the history of the parent, then that of the superstates of the parent.
  lemma SavedStep(h0: map<State, State>, h1: map<State, State>, h2: map<State, State>, s: State, deep: State)
    requires s.Sub? && s.parent.Sub?
    requires h1 == match s.parent.strategy
                   case NoHistory => h0
                   case Shallow => h0[s.parent := s]
                   case Deep => h0[s.parent := deep]
    requires Saved(h1, h2, s.parent, deep)
    ensures Saved(h0, h2, s, deep)
  {
    ChildDepth(s, s.parent);
    assert Proper(s, s.parent);
    if IsChild(s.parent, s) {
      ChildDepth(s.parent, s);
    }
    forall x | x != s.parent
      ensures Remembered(x, s, deep) == Remembered(x, s.parent, deep)
    {
    }
    assert Remembered(s.parent, s.parent, deep) == None;
  }

  // Every history is a proper substate of its owner, and a child of an owner with
  // shallow history.
  ghost predicate HistoryOk(h: map<State, State>, instances: seq<State>) {
    forall x :: x in h ==>
      && x.Sub? && x in instances && h[x] in instances && Proper(h[x], x)
      && x.strategy != NoHistory && (x.strategy == Shallow ==> h[x].parent == x)
  }

  lemma HistoryProper(h: map<State, State>, instances: seq<State>, s: State)
    requires HistoryOk(h, instances) && s in h
    ensures s.Sub? && Proper(h[s], s)
  {
  }

  lemma InstancesCover(h: map<State, State>, instances: seq<State>)
    requires HistoryOk(h, instances)
    ensures forall x :: x in h ==> exists k :: 0 <= k < |instances| && instances[k] == x
  {
  }

  lemma FewerHistories(h: map<State, State>, h': map<State, State>, instances: seq<State>)
    requires HistoryOk(h, instances)
    requires forall x :: x in h' ==> x in h && h'[x] == h[x]
    ensures HistoryOk(h', instances)
  {
  }

  // State instances are made after the instance of their superstate.
  ghost predicate InstancesOk(instances: seq<State>, height: nat) {
    && Root in instances
    && forall x :: x in instances ==> Depth(x) <= height && (x.Sub? ==> x.parent in instances)
  }

  lemma {:induction false} AboveInstance(instances: seq<State>, height: nat, s: State, t: State)
    requires InstancesOk(instances, height) && s in instances && IsChild(s, t)
    ensures t in instances
    decreases s
  {
    if s != t {
      AboveInstance(instances, height, s.parent, t);
    }
  }

  lemma SavedIsOk(h: map<State, State>, h': map<State, State>, s: State, instances: seq<State>, height: nat)
    requires HistoryOk(h, instances) && InstancesOk(instances, height) && s in instances
    requires Saved(h, h', s, s)
    ensures HistoryOk(h', instances)
  {
    forall x | x in h' && Remembered(x, s, s).Some?
      ensures x.Sub? && x in instances && h'[x] in instances && Proper(h'[x], x)
      ensures x.strategy != NoHistory && (x.strategy == Shallow ==> h'[x].parent == x)
    {
      AboveInstance(instances, height, s, x);
      AboveInstance(instances, height, s, Toward(x, s));
      ChildDepth(s, x);
      assert IsChild(Toward(x, s), x);
    }
  }

  // ----- Boxes -----

  // Entered states have their box; others keep only a persistent one.
  ghost predicate BoxesOk(boxes: set<State>, s: State) {
    && (forall x :: x in Path(s) && x.Sub? && x.boxKind != EmptyBox ==> x in boxes)
    && (forall x :: x in boxes ==> x.Sub? && (x.boxKind == OwnBox ==> x in Path(s)))
  }

  function BoxMade(boxes: set<State>, s: State): set<State>
    requires s.Sub?
  {
    if s.boxKind == EmptyBox then boxes else boxes + {s}
  }

  function BoxDeleted(boxes: set<State>, s: State): set<State>
    requires s.Sub?
  {
    if s.boxKind == OwnBox then boxes - {s} else boxes
  }

  lemma BoxesEntered(boxes: set<State>, s: State)
    requires s.Sub? && BoxesOk(boxes, s.parent)
    ensures BoxesOk(BoxMade(boxes, s), s)
  {
  }

  lemma BoxesExited(boxes: set<State>, s: State)
    requires s.Sub? && BoxesOk(boxes, s)
    ensures s.boxKind == OwnBox ==> s in boxes
    ensures BoxesOk(BoxDeleted(boxes, s), s.parent)
  {
    PathTop(s);
    assert s in Path(s);
    assert s !in Path(s.parent) by {
      InPath(s.parent, s);
      if IsChild(s.parent, s) {
        ChildDepth(s.parent, s);
      }
    }
  }

  // Exits end the boxes of their states that are not persistent, then entries make boxes.
  ghost predicate BoxesMoved(before: set<State>, after: set<State>, acts: seq<Act>) {
    forall x :: x in after <==>
      (x in before && !(x.Sub? && x.boxKind == OwnBox && Exit(x) in acts))
      || (x.Sub? && x.boxKind != EmptyBox && Entry(x) in acts)
  }

  lemma BoxesStay(boxes: set<State>)
    ensures BoxesMoved(boxes, boxes, [])
  {
  }

  lemma BoxEntered(boxes: set<State>, s: State)
    requires s.Sub?
    ensures BoxesMoved(boxes, BoxMade(boxes, s), [Entry(s)])
  {
  }

  lemma BoxExited(boxes: set<State>, s: State)
    requires s.Sub?
    ensures BoxesMoved(boxes, BoxDeleted(boxes, s), [Exit(s)])
  {
  }

  lemma BoxesJoined(b0: set<State>, b1: set<State>, b2: set<State>, first: seq<Act>, second: seq<Act>)
    requires BoxesMoved(b0, b1, first) && BoxesMoved(b1, b2, second)
    requires (forall a <- first :: !a.Entry?) || (forall a <- second :: !a.Exit?)
    ensures BoxesMoved(b0, b2, first + second)
  {
  }

  // ----- What a machine does -----

  // All that decides what a machine will do, the states and actions so far, and whether the
  // last init action asked for a state outside the one it initialised.
  datatype Point = Point(
    current: State,
    wanted: Option<(State, Initializer)>,
    event: bool,
    history: map<State, State>,
    boxes: set<State>,
    inits: seq<Request>,
    handlers: seq<Reaction>,
    trace: seq<Act>,
    fault: bool)

  // The state a request asks for, with h as the histories.
  function Wanted(r: Request, h: map<State, State>): Option<(State, Initializer)> {
    match r
    case Stay => None
    case Go(target, init) => Some((target, init))
    case Back(target) => Some((if target in h then h[target] else target, History))
  }

  // A transition into the wanted state: what is left remembers it, and the initializer goes
  // to the history of the state if asked and there is one, or runs the init action, which
  // asks for what the script says.
  ghost predicate Moves(a: Point, b: Point)
    requires a.wanted.Some?
  {
    exists saved :: Saved(a.history, saved, a.current, a.current) && Arrives(a, saved, b)
  }

  ghost predicate Arrives(a: Point, saved: map<State, State>, b: Point)
    requires a.wanted.Some?
  {
    var (s, init) := a.wanted.value;
    var moved := a.trace + Transition(a.current, s);
    && b.current == s && b.event == a.event && b.handlers == a.handlers
    && b.history == (if init == WithData then saved else saved - {s})
    && BoxesMoved(a.boxes, b.boxes, Transition(a.current, s))
    && b.fault == (b.wanted.Some? && !Proper(b.wanted.value.0, s))
    && if init == History && s in saved then
         b.wanted == Some((saved[s], Default)) && b.trace == moved && b.inits == a.inits
       else if s.Root? then
         b.wanted == None && b.trace == moved && b.inits == a.inits
       else
         && b.trace == moved + [Init(s)]
         && b.wanted == (if |a.inits| > 0 then Wanted(a.inits[0], saved) else None)
         && b.inits == (if |a.inits| > 0 then a.inits[1..] else [])
  }

  // The handler of the current state, which asks for a state and posts an event as the
  // script says.
  function Handled(a: Point): Point {
    var b := a.(trace := a.trace + [Handle(a.current)], event := false, wanted := None);
    if |a.handlers| == 0 then b
    else
      var reaction := a.handlers[0];
      b.(handlers := a.handlers[1..], event := reaction.posts, wanted := Wanted(reaction.request, a.history))
  }

  // Wanted states go before events.
  ghost predicate Turns(a: Point, b: Point) {
    !a.fault && if a.wanted.Some? then Moves(a, b) else a.event && b == Handled(a)
  }

  predicate Final(a: Point) {
    a.fault || (a.wanted.None? && !a.event)
  }

  ghost predicate IsRun(run: seq<Point>, a: Point, b: Point) {
    && |run| > 0 && run[0] == a && run[|run| - 1] == b
    && forall j :: 0 <= j < |run| - 1 ==> TurnAt(run, j)
  }

  ghost predicate TurnAt(run: seq<Point>, j: nat) {
    j + 1 < |run| && Turns(run[j], run[j + 1])
  }

  ghost predicate Leads(a: Point, b: Point) {
    exists run :: IsRun(run, a, b)
  }

  lemma LeadsNowhere(a: Point)
    ensures Leads(a, a)
  {
    assert IsRun([a], a, a);
  }

  lemma LeadsOn(a: Point, b: Point, c: Point)
    requires Leads(a, b) && Turns(b, c)
    ensures Leads(a, c)
  {
    hide Turns;
    var run :| IsRun(run, a, b);
    var more := run + [c];
    forall j | 0 <= j < |more| - 1
      ensures TurnAt(more, j)
    {
      if j == |run| - 1 {
        assert more[j] == b && more[j + 1] == c;
      } else {
        assert TurnAt(run, j) && more[j] == run[j] && more[j + 1] == run[j + 1];
      }
    }
    assert IsRun(more, a, c);
  }

  lemma {:induction false} LeadsJoined(a: Point, b: Point, c: Point)
    requires Leads(a, b) && Leads(b, c)
    ensures Leads(a, c)
  {
    hide Turns;
    var run :| IsRun(run, b, c);
    RunAfter(a, b, run, c);
  }

  lemma {:induction false} RunAfter(a: Point, b: Point, run: seq<Point>, c: Point)
    requires Leads(a, b) && IsRun(run, b, c)
    ensures Leads(a, c)
    decreases |run|
  {
    hide Turns;
    if |run| > 1 {
      var d := run[|run| - 2];
      AllButLast(run, b, c);
      RunAfter(a, b, run[..|run| - 1], d);
      LeadsOn(a, d, c);
    }
  }

  lemma AllButLast(run: seq<Point>, a: Point, b: Point)
    requires IsRun(run, a, b) && |run| > 1
    ensures IsRun(run[..|run| - 1], a, run[|run| - 2]) && Turns(run[|run| - 2], b)
  {
    hide Turns;
    var most := run[..|run| - 1];
    forall j | 0 <= j < |most| - 1
      ensures TurnAt(most, j)
    {
      assert TurnAt(run, j);
    }
    assert TurnAt(run, |run| - 2);
  }

  // A machine does one thing only: what it leads to is determined.
  lemma TurnsUnique(a: Point, b: Point, c: Point)
    requires Turns(a, b) && Turns(a, c)
    ensures b == c
  {
    if a.wanted.Some? {
      var h :| Saved(a.history, h, a.current, a.current) && Arrives(a, h, b);
      var k :| Saved(a.history, k, a.current, a.current) && Arrives(a, k, c);
      SavedUnique(a.history, h, k, a.current, a.current);
      BoxesUnique(a.boxes, b.boxes, c.boxes, Transition(a.current, a.wanted.value.0));
    }
  }

  lemma SavedUnique(before: map<State, State>, h: map<State, State>, k: map<State, State>, s: State, deep: State)
    requires Saved(before, h, s, deep) && Saved(before, k, s, deep)
    ensures h == k
  {
    forall x
      ensures x in h <==> x in k
      ensures x in h ==> h[x] == k[x]
    {
      assert Remembered(x, s, deep).Some? || Remembered(x, s, deep).None?;
    }
  }

  lemma BoxesUnique(before: set<State>, b: set<State>, c: set<State>, acts: seq<Act>)
    requires BoxesMoved(before, b, acts) && BoxesMoved(before, c, acts)
    ensures b == c
  {
  }

  lemma LeadsUnique(a: Point, b: Point, c: Point)
    requires Leads(a, b) && Leads(a, c) && Final(b) && Final(c)
    ensures b == c
  {
    var r :| IsRun(r, a, b);
    var q :| IsRun(q, a, c);
    RunsAgree(r, q, a, b, c);
  }

  lemma {:induction false} RunsAgree(r: seq<Point>, q: seq<Point>, a: Point, b: Point, c: Point)
    requires IsRun(r, a, b) && IsRun(q, a, c) && Final(b) && Final(c)
    ensures b == c
    decreases |r|
  {
    hide Turns, Final;
    if |r| > 1 && |q| > 1 {
      Rest(r, a, b);
      Rest(q, a, c);
      TurnsUnique(a, r[1], q[1]);
      RunsAgree(r[1..], q[1..], r[1], b, c);
    } else {
      FinalEnds(r, a, b);
      FinalEnds(q, a, c);
    }
  }

  lemma Rest(run: seq<Point>, a: Point, b: Point)
    requires IsRun(run, a, b) && |run| > 1
    ensures Turns(a, run[1]) && IsRun(run[1..], run[1], b)
  {
    hide Turns;
    assert TurnAt(run, 0);
    var rest := run[1..];
    forall j | 0 <= j < |rest| - 1
      ensures TurnAt(rest, j)
    {
      assert TurnAt(run, j + 1) && rest[j] == run[j + 1] && rest[j + 1] == run[j + 2];
    }
  }

  lemma FinalEnds(run: seq<Point>, a: Point, b: Point)
    requires IsRun(run, a, b)
    ensures |run| == 1 ==> a == b
    ensures Final(a) ==> |run| == 1
  {
    assert |run| > 1 ==> TurnAt(run, 0);
  }

  lemma FirstTurn(a: Point, b: Point) returns (m: Point)
    requires Leads(a, b) && !Final(a) && Final(b)
    ensures Turns(a, m) && Leads(m, b)
  {
    hide Turns, Final;
    var run :| IsRun(run, a, b);
    FinalEnds(run, a, b);
    m := run[1];
    Rest(run, a, b);
  }

  lemma NoTurn(a: Point, b: Point)
    requires Leads(a, b) && Final(a)
    ensures a == b
  {
    hide Turns, Final;
    var run :| IsRun(run, a, b);
    FinalEnds(run, a, b);
  }

  // An init action that asks for a substate is followed by the transition into it.
  lemma InitGoesOn(a: Point, b: Point, s: State, t: State)
    requires Leads(a, b) && Final(b) && !a.fault && !a.event
    requires a.wanted == Some((s, Default)) && s.Sub? && a.inits == [Go(t, Default)] && Proper(t, s)
    ensures b.current == t && !b.fault && b.inits == []
    ensures b.trace == a.trace + Transition(a.current, s) + [Init(s)] + Transition(s, t) + [Init(t)]
  {
    var m := FirstTurn(a, b);
    assert m.current == s && m.wanted == Some((t, Default)) && m.inits == [] && !m.fault;
    ChildDepth(t, s);
    var n := FirstTurn(m, b);
    NoTurn(n, b);
  }

  // A transition to the history of a state goes to what was left there.
  lemma HistoryGoesBack(a: Point, b: Point, s: State, saved: map<State, State>)
    requires Leads(a, b) && Final(b) && !a.fault && !a.event && a.inits == []
    requires a.wanted == Some((s, History)) && Saved(a.history, saved, a.current, a.current)
    requires s.Sub? && s in saved && Proper(saved[s], s)
    ensures b.current == saved[s] && !b.fault
    ensures b.trace == a.trace + Transition(a.current, s) + Transition(s, saved[s]) + [Init(saved[s])]
  {
    var m := FirstTurn(a, b);
    var h :| Saved(a.history, h, a.current, a.current) && Arrives(a, h, m);
    SavedUnique(a.history, h, saved, a.current, a.current);
    ChildDepth(saved[s], s);
    var n := FirstTurn(m, b);
    NoTurn(n, b);
  }

  predicate RequestOk(r: Request, height: nat) {
    r.Stay? || (r.target.Sub? && Depth(r.target) <= height)
  }

  class Machine {
    // No state of the machine lies deeper.
    const height: nat

    var current: State
    var pending: Option<State>
    var how: Initializer
    var event: bool
    var history: map<State, State>
    var instances: seq<State>
    var boxes: set<State>

    // What the user's init actions and event handlers will ask for, in order.
    var inits: seq<Request>
    var handlers: seq<Reaction>

    ghost var trace: seq<Act>

    ghost predicate Valid()
      reads this
    {
      && At(current)
      && InstancesOk(instances, height) && current in instances
      && HistoryOk(history, instances)
      && (pending.Some? ==> pending.value in instances)
      && (forall r :: r in inits ==> RequestOk(r, height))
      && (forall r :: r in handlers ==> RequestOk(r.request, height))
    }

    // The states entered and not exited are the path to s.
    ghost predicate At(s: State)
      reads this`trace, this`boxes
    {
      Run(trace) == Some(Path(s)) && BoxesOk(boxes, s)
    }

    // At any time between calls every action so far was where it may be, and the states
    // entered once more than exited are those on the path to the current state.
    lemma CurrentPathOpen()
      requires Valid()
      ensures Disciplined(trace)
      ensures forall s :: Balance(trace, s) == if s.Sub? && IsChild(current, s) then 1 else 0
    {
      var top := RunDisciplined(trace);
      PathTop(top);
      PathTop(current);
      forall s
        ensures s in Path(current) <==> s.Sub? && IsChild(current, s)
      {
        InPath(current, s);
      }
    }

    ghost predicate Idle()
      reads this
    {
      pending.None? && !event
    }

    ghost function Pending(): Option<(State, Initializer)>
      reads this`pending, this`how
    {
      if pending.None? then None else Some((pending.value, how))
    }

    ghost function Now(fault: bool): Point
      reads this
    {
      Point(current, Pending(), event, history, boxes, inits, handlers, trace, fault)
    }

    method Enter(s: State, previous: State, first: bool)
      requires At(Entered(s, previous, first))
      modifies this`trace, this`boxes
      ensures IsChild(s, Entered(s, previous, first))
      ensures At(s) && BoxesMoved(old(boxes), boxes, Entries(Entered(s, previous, first), s))
      ensures trace == old(trace) + Entries(Entered(s, previous, first), s)
      decreases s
    {
      hide BoxesMoved;
      if s.Root? {
        assert trace + [] == trace;
        BoxesStay(boxes);
        return;
      }
      if first || !IsChild(previous, s) {
        ghost var before, b0, p := trace, boxes, Entered(s, previous, first);
        EnteredIsDeepest(s.parent, previous, false);
        ChildDepth(s.parent, p);
        EntriesStep(before, s, p);
        Enter(s.parent, previous, false);
        ghost var b1 := boxes;
        EnterOne(s);
        BoxesJoined(b0, b1, boxes, Entries(p, s.parent), [Entry(s)]);
      } else {
        assert trace + [] == trace;
        BoxesStay(boxes);
      }
    }

    // createBox and the entry action.
    method EnterOne(s: State)
      requires s.Sub? && At(s.parent)
      modifies this`trace, this`boxes
      ensures At(s) && trace == old(trace) + [Entry(s)] && BoxesMoved(old(boxes), boxes, [Entry(s)])
    {
      hide Run, BoxesOk, Path, BoxesMoved;
      BoxesEntered(boxes, s);
      EntryRuns(trace, s);
      BoxEntered(boxes, s);
      ghost var made := BoxMade(boxes, s);
      if s.boxKind != EmptyBox && s !in boxes {
        boxes := boxes + {s};
      }
      assert boxes == made;
      trace := trace + [Entry(s)];
    }

    method Leave(s: State, next: State)
      requires At(s)
      modifies this`trace, this`boxes
      ensures IsChild(s, Left(s, next))
      ensures trace == old(trace) + Exits(s, Left(s, next))
      ensures At(Left(s, next)) && BoxesMoved(old(boxes), boxes, Exits(s, Left(s, next)))
      decreases s
    {
      hide BoxesMoved;
      if s.Root? {
        assert trace + [] == trace;
        BoxesStay(boxes);
        return;
      }
      if s == next || !IsChild(next, s) {
        ghost var before, b0 := trace, boxes;
        LeaveOne(s);
        ghost var b1 := boxes;
        Leave(s.parent, next);
        ChildDepth(s.parent, Left(s, next));
        ExitsStep(before, s, Left(s, next));
        BoxesJoined(b0, b1, boxes, [Exit(s)], Exits(s.parent, Left(s, next)));
      } else {
        assert trace + [] == trace;
        BoxesStay(boxes);
      }
    }

    // The exit action and the end of a box that is not persistent.
    method LeaveOne(s: State)
      requires s.Sub? && At(s)
      modifies this`trace, this`boxes
      ensures At(s.parent) && trace == old(trace) + [Exit(s)] && BoxesMoved(old(boxes), boxes, [Exit(s)])
    {
      hide Run, BoxesOk, Path, BoxesMoved;
      BoxExited(boxes, s);
      ExitRuns(trace, s);
      BoxesExited(boxes, s);
      trace := trace + [Exit(s)];
      if s.boxKind == OwnBox {
        assert s in boxes;
        boxes := boxes - {s};
      }
    }

    // Tells the superstates of s that s is left while deep was current.
    method SetHistorySuper(s: State, deep: State)
      modifies this`history
      ensures Saved(old(history), history, s, deep)
      decreases s, 1
    {
      if s.Sub? {
        SaveHistory(s.parent, s, deep);
      } else {
        NothingSaved(history, s, deep);
      }
    }

    // The strategy of state s, whose child on the way to deep is shallow.
    method SaveHistory(s: State, shallow: State, deep: State)
      requires shallow.Sub? && shallow.parent == s
      modifies this`history
      ensures Saved(old(history), history, shallow, deep)
      decreases shallow, 0
    {
      if s.Root? {
        NothingSaved(history, shallow, deep);
        return;
      }
      ghost var h0 := history;
      match s.strategy {
        case NoHistory =>
        case Shallow => history := history[s := shallow];
        case Deep => history := history[s := deep];
      }
      ghost var h1 := history;
      if (if s.strategy == NoHistory then Bubbles(s) else Bubbles(s.parent)) {
        SetHistorySuper(s, deep);
      } else {
        NothingSaved(history, s, deep);
      }
      hide Saved;
      SavedStep(h0, h1, history, shallow, deep);
    }

    // The instance of a state, made after those of its superstates.
    method GetInstance(s: State)
      requires InstancesOk(instances, height) && Depth(s) <= height
      modifies this`instances
      ensures InstancesOk(instances, height) && s in instances
      ensures forall x :: x in instances <==> x in old(instances) || IsChild(s, x)
      decreases s
    {
      if s in instances {
        forall x | IsChild(s, x)
          ensures x in instances
        {
          AboveInstance(instances, height, s, x);
        }
        return;
      }
      GetInstance(s.parent);
      instances := instances + [s];
    }

    method SetPendingState(s: State, how: Initializer)
      requires pending.None?
      modifies this`pending, this`how
      ensures pending == Some(s) && this.how == how
    {
      pending := Some(s);
      this.how := how;
    }

    // setState as called in a user action.
    method Ask(r: Request)
      requires Valid() && pending.None? && RequestOk(r, height)
      modifies this`pending, this`how, this`instances
      ensures Valid() && Asked(r, history)
    {
      match r
      case Stay =>
      case Go(target, init) =>
        GetInstance(target);
        SetPendingState(target, init);
      case Back(target) =>
        var s := if target in history then history[target] else target;
        if target !in history {
          GetInstance(s);
        }
        SetPendingState(s, History);
    }

    // The pending state is what a request asks for, with h as the histories.
    ghost predicate Asked(r: Request, h: map<State, State>)
      reads this`pending, this`how
    {
      Pending() == Wanted(r, h)
    }

    // The next request of the script was taken, if there is one.
    ghost predicate Answered(before: seq<Request>, h: map<State, State>)
      reads this`pending, this`how, this`inits
    {
      if |before| == 0 then pending.None? && inits == before
      else inits == before[1..] && Asked(before[0], h)
    }

    // The user's init action of the current state.
    method RunInit()
      requires Valid() && pending.None?
      modifies this`pending, this`how, this`instances, this`inits, this`trace
      ensures Valid()
      ensures trace == old(trace) + if current.Root? then [] else [Init(current)]
      ensures if current.Root? then pending.None? && inits == old(inits) else Answered(old(inits), history)
    {
      if current.Root? {
        assert trace + [] == trace;
        return;
      }
      hide Run, BoxesOk, Path, IsChild, Depth, HistoryOk, InstancesOk;
      ActionRuns(trace, Init(current));
      trace := trace + [Init(current)];
      if |inits| > 0 {
        var r := inits[0];
        inits := inits[1..];
        Ask(r);
      }
    }

    // _StateInstance::init of the current state.
    method InitState(useHistory: bool)
      requires Valid() && pending.None?
      modifies this`pending, this`how, this`instances, this`inits, this`trace, this`history
      ensures Valid()
      ensures history == old(history) - {current}
      ensures if useHistory && current in old(history)
              then pending == Some(old(history)[current]) && how == Default && trace == old(trace)
                   && inits == old(inits)
              else trace == old(trace) + (if current.Root? then [] else [Init(current)])
                   && if current.Root? then pending.None? && inits == old(inits) else Answered(old(inits), old(history))
    {
      if useHistory && current in history {
        SetPendingState(history[current], Default);
      } else {
        RunInit();
      }
      history := history - {current};
    }

    // Exits, history and entries of a transition.
    method Move(next: State)
      requires Valid() && next in instances
      modifies this`current, this`trace, this`history, this`boxes
      ensures At(next) && current == next
      ensures trace == old(trace) + Transition(old(current), next)
      ensures Saved(old(history), history, old(current), old(current)) && HistoryOk(history, instances)
      ensures BoxesMoved(old(boxes), boxes, Transition(old(current), next))
    {
      hide Run, BoxesOk, Path, Pivot, Saved, HistoryOk, InstancesOk, BoxesMoved;
      var previous := current;
      ghost var b0 := boxes;
      Leave(previous, next);
      ghost var b1 := boxes;
      SetHistorySuper(previous, previous);
      SavedIsOk(old(history), history, previous, instances, height);
      current := next;
      SamePivot(previous, next);
      Enter(next, previous, true);
      ExitsOnly(previous, Turn(previous, next));
      BoxesJoined(b0, b1, boxes, Exits(previous, Turn(previous, next)), Entries(Turn(previous, next), next));
      TransitionGrouped(old(trace), previous, next);
    }

    // One pending transition; false when an init action asked for a state that is not a
    // proper substate of the state it initialised.
    method Transit() returns (ok: bool, ghost saved: map<State, State>)
      requires Valid() && pending.Some?
      modifies this`current, this`pending, this`how, this`instances, this`inits, this`trace, this`history, this`boxes
      ensures Valid() && current == old(pending).value
      ensures ok <==> (pending.Some? ==> Proper(pending.value, current))
      ensures current.Root? ==> pending.None?
      ensures !ok ==> |old(inits)| > 0 && |trace| > 0 && trace[|trace| - 1] == Init(current)
      ensures Saved(old(history), saved, old(current), old(current))
      ensures Arrived(old(trace) + Transition(old(current), current), old(how), saved, old(inits))
      ensures Turns(old(Now(false)), Now(!ok))
    {
      hide At, Pivot, Saved, Transition, InstancesOk, HistoryOk, RequestOk, IsChild, BoxesMoved, Turns;
      ghost var a := Now(false);
      var next := pending.value;
      Move(next);
      saved := history;
      if current in saved {
        HistoryProper(saved, instances, current);
      }
      pending := None;
      Execute();
      ok := pending.None? || (IsChild(pending.value, current) && current != pending.value);
      MovesNow(a, saved, Now(!ok));
    }

    lemma MovesNow(a: Point, saved: map<State, State>, b: Point)
      requires a.wanted.Some? && !a.fault && b == Now(b.fault) && a.wanted.value.0 == current
      requires Saved(a.history, saved, a.current, a.current)
      requires BoxesMoved(a.boxes, boxes, Transition(a.current, current))
      requires event == a.event && handlers == a.handlers
      requires b.fault == (pending.Some? && !Proper(pending.value, current))
      requires Arrived(a.trace + Transition(a.current, current), a.wanted.value.1, saved, a.inits)
      ensures Turns(a, b)
    {
      assert Arrives(a, saved, b);
    }

    // The initializer of the new state.
    method Execute()
      requires Valid() && pending.None?
      modifies this`pending, this`how, this`instances, this`inits, this`trace, this`history
      ensures Valid() && Arrived(old(trace), old(how), old(history), old(inits))
      ensures pending.Some? ==> current.Sub?
      ensures pending.Some? && !(old(how) == History && current in old(history))
              ==> |old(inits)| > 0 && |trace| > 0 && trace[|trace| - 1] == Init(current)
    {
      hide Run, BoxesOk, Path, Pivot, Saved, InstancesOk;
      if current in history {
        HistoryProper(history, instances, current);
      }
      hide HistoryOk;
      if how == WithData {
        RunInit();
      } else {
        InitState(how == History);
      }
    }

    // What the initializer did after the entries, when saved was the history and script
    // what init actions were going to ask for.
    ghost predicate Arrived(moved: seq<Act>, init: Initializer, saved: map<State, State>, script: seq<Request>)
      reads this
    {
      && history == (if init == WithData then saved else saved - {current})
      && if init == History && current in saved then
           pending == Some(saved[current]) && how == Default && trace == moved && inits == script
         else if current.Root? then
           trace == moved && pending.None? && inits == script
         else
           trace == moved + [Init(current)] && Answered(script, saved)
    }

    // The inner loop: init actions may ask for a proper substate, so it goes down the tree.
    method Settle() returns (ok: bool)
      requires Valid()
      modifies this`current, this`pending, this`how, this`instances, this`inits, this`trace, this`history, this`boxes
      ensures Valid() && (ok ==> pending.None?) && (!ok ==> InitAtFault())
      ensures Leads(old(Now(false)), Now(!ok))
      ensures First(old(trace), old(current), old(pending)) <= trace
      ensures old(pending).None? ==> ok && current == old(current) && trace == old(trace)
      ensures old(pending) == Some(Root)
              ==> ok && current == Root && trace == old(trace) + Transition(old(current), Root)
    {
      hide At, Transition, HistoryOk, Leads, Turns, Saved;
      ok := true;
      ghost var moved, a := false, Now(false);
      LeadsNowhere(a);
      while pending.Some?
        invariant Valid() && Leads(a, Now(false))
        invariant if moved then pending.Some? ==> Proper(pending.value, current)
                  else pending == old(pending) && current == old(current) && trace == old(trace)
        invariant moved ==> old(pending).Some? && First(old(trace), old(current), old(pending)) <= trace
        invariant moved && old(pending) == Some(Root)
                  ==> pending.None? && current == Root && trace == old(trace) + Transition(old(current), Root)
        decreases if moved then height - Depth(current) else height + 1
      {
        ghost var before, b := current, Now(false);
        ghost var saved;
        ok, saved := Transit();
        LeadsOn(a, b, Now(!ok));
        if !ok {
          return;
        }
        DeepEnough(before, current, moved);
        moved := true;
      }
    }

    lemma DeepEnough(before: State, after: State, moved: bool)
      requires InstancesOk(instances, height) && after in instances
      requires moved ==> Proper(after, before)
      ensures height - Depth(after) < if moved then height - Depth(before) else height + 1
    {
      if moved {
        ChildDepth(after, before);
      }
    }

    // What is done before anything else: the pending transition, if any.
    static function First(trace: seq<Act>, current: State, pending: Option<State>): seq<Act> {
      if pending.None? then trace else trace + Transition(current, pending.value)
    }

    // The loop that performs pending transitions and posted events.
    method RattleOn() returns (ok: bool)
      requires Valid()
      modifies this
      ensures Valid() && (ok ==> Idle()) && (!ok ==> InitAtFault())
      ensures Leads(old(Now(false)), Now(!ok))
      ensures First(old(trace), old(current), old(pending)) <= trace
      ensures old(pending).None? && old(event) ==> old(trace) + [Handle(old(current))] <= trace
      ensures old(pending) == Some(Root) && !old(event)
              ==> ok && current == Root && trace == old(trace) + Transition(old(current), Root)
    {
      hide At, Transition, IsChild, Depth, HistoryOk, InstancesOk, Leads, Turns;
      ok := true;
      ghost var first, toRoot := true, pending == Some(Root) && !event;
      ghost var a := Now(false);
      LeadsNowhere(a);
      while pending.Some? || event
        invariant Valid() && Leads(a, Now(false))
        invariant first ==> pending == old(pending) && event == old(event)
        invariant first ==> current == old(current) && trace == old(trace)
        invariant !first ==> First(old(trace), old(current), old(pending)) <= trace
        invariant !first && old(pending).None? && old(event) ==> old(trace) + [Handle(old(current))] <= trace
        invariant !first && toRoot
                  ==> Idle() && current == Root && trace == old(trace) + Transition(old(current), Root)
        decreases |handlers|, event, pending.Some?
      {
        ghost var b := Now(false);
        ok := Settle();
        LeadsJoined(a, b, Now(!ok));
        if !ok {
          return;
        }
        if event {
          ghost var c := Now(false);
          TakeEvent();
          LeadsOn(a, c, Now(false));
        }
        first := false;
      }
    }

    // The pending event goes to its handler.
    method TakeEvent()
      requires Valid() && pending.None? && event
      modifies this`pending, this`how, this`event, this`instances, this`handlers, this`trace
      ensures Valid() && Turns(old(Now(false)), Now(false))
      ensures trace == old(trace) + [Handle(current)]
      ensures |handlers| < |old(handlers)| || (handlers == old(handlers) && Idle())
    {
      hide At, Transition, IsChild, Depth, HistoryOk, InstancesOk;
      ghost var a := Now(false);
      event := false;
      RunHandler();
      assert Now(false) == Handled(a);
    }

    // The last action was an init that asked for a state outside the one it initialised.
    ghost predicate InitAtFault()
      reads this
    {
      && pending.Some? && !Proper(pending.value, current)
      && |trace| > 0 && trace[|trace| - 1] == Init(current)
    }

    // The event handler of the current state.
    method RunHandler()
      requires Valid() && pending.None? && !event
      modifies this`pending, this`how, this`event, this`instances, this`handlers, this`trace
      ensures Valid()
      ensures trace == old(trace) + [Handle(current)]
      ensures if |old(handlers)| == 0 then handlers == old(handlers) && Idle()
              else handlers == old(handlers)[1..] && event == old(handlers)[0].posts
                   && Asked(old(handlers)[0].request, history)
      ensures Now(false) == Handled(old(Now(false)))
    {
      hide Run, BoxesOk, Path, IsChild, Depth, HistoryOk, InstancesOk;
      ActionRuns(trace, Handle(current));
      trace := trace + [Handle(current)];
      if |handlers| > 0 {
        var r := handlers[0];
        handlers := handlers[1..];
        Ask(r.request);
        event := r.posts;
      }
    }

    constructor (height: nat, inits: seq<Request>, handlers: seq<Reaction>)
      requires forall r :: r in inits ==> RequestOk(r, height)
      requires forall r :: r in handlers ==> RequestOk(r.request, height)
      ensures Valid() && Idle() && current == Root && trace == [] && history == map[] && boxes == {}
      ensures this.height == height && this.inits == inits && this.handlers == handlers
    {
      this.height, this.inits, this.handlers := height, inits, handlers;
      current, pending, how, event := Root, None, Default, false;
      history, instances, boxes, trace := map[], [Root], {}, [];
    }

    // Goes from Root to the start state.
    method Start(r: Request) returns (ok: bool)
      requires Valid() && Idle() && current == Root && RequestOk(r, height)
      modifies this
      ensures Valid() && (ok ==> Idle()) && (!ok ==> InitAtFault())
      ensures Leads(old(Now(false)).(wanted := Wanted(r, old(history))), Now(!ok))
      ensures r.Go? ==> old(trace) + Transition(Root, r.target) <= trace
    {
      hide At, Transition, IsChild, Depth, HistoryOk, InstancesOk, Leads;
      Ask(r);
      ok := RattleOn();
    }

    // An event from outside: its handler runs in the current state, then what it asked for.
    method Dispatch() returns (ok: bool)
      requires Valid() && Idle()
      modifies this
      ensures Valid() && (ok ==> Idle()) && (!ok ==> InitAtFault())
      ensures Leads(Handled(old(Now(false))), Now(!ok))
      ensures old(trace) + [Handle(old(current))] <= trace
      ensures |old(handlers)| > 0 && old(handlers)[0].request.Go?
              ==> First(old(trace) + [Handle(old(current))], old(current),
                  Some(old(handlers)[0].request.target)) <= trace
    {
      hide At, Transition, IsChild, Depth, HistoryOk, InstancesOk, Leads;
      RunHandler();
      ok := RattleOn();
    }

    // Exits every state by going to Root.
    method Shutdown() returns (ok: bool)
      requires Valid() && Idle()
      modifies this
      ensures ok && Valid() && Idle() && current == Root
      ensures Leads(old(Now(false)).(wanted := Some((Root, Default))), Now(false))
      ensures IsChild(old(current), Root)
      ensures trace == old(trace) + Exits(old(current), Root) && Run(trace) == Some([])
    {
      ToRoot(current);
      SetPendingState(Root, Default);
      ok := RattleOn();
    }

    method ClearHistory(s: State)
      requires Valid()
      modifies this`history
      ensures Valid() && history == old(history) - {s}
    {
      history := history - {s};
    }

    method ClearHistoryDeep(s: State)
      requires Valid()
      modifies this`history
      ensures Valid()
      ensures forall x :: x in history <==> x in old(history) && !IsChild(x, s)
      ensures forall x :: x in history ==> history[x] == old(history)[x]
    {
      hide At, HistoryOk, InstancesOk;
      InstancesCover(history, instances);
      var i := 0;
      while i < |instances|
        invariant 0 <= i <= |instances|
        invariant forall x :: x in history ==> x in old(history) && history[x] == old(history)[x]
        invariant forall x :: x in old(history) && !IsChild(x, s) ==> x in history
        invariant forall k :: 0 <= k < i && IsChild(instances[k], s) ==> instances[k] !in history
      {
        if IsChild(instances[i], s) {
          history := history - {instances[i]};
        }
        i := i + 1;
      }
      FewerHistories(old(history), history, instances);
    }
  }
}
