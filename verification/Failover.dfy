/** rpc/manager.go: which node a chain uses, and what concurrent changes of the active index can do. */
module Failover {
  import opened Base

  /** Answers of the nodes, fixed while one search runs. */
  type Health = nat -> bool

  /** The node `k` places behind `from`, in a ring of `n`. */
  function Ahead(from: nat, k: nat, n: nat): (i: nat)
    requires from < n && k <= n
    ensures i < n
  {
    if from + k < n then from + k else from + k - n
  }

  /** Going once around the ring meets every node. */
  lemma RoundTrip(from: nat, i: nat, n: nat) returns (k: nat)
    requires from < n && i < n
    ensures 1 <= k <= n && Ahead(from, k, n) == i
  {
    k := if i > from then i - from else i - from + n;
  }

  /** The search stops `k` places on: there is the first healthy node after `from`. */
  predicate FirstHealthy(health: Health, from: nat, k: nat, n: nat)
    requires from < n && k <= n
  {
    health(Ahead(from, k, n)) && forall j :: 1 <= j < k ==> !health(Ahead(from, j, n))
  }

  /** `to` is the first healthy node behind `from`. */
  predicate MovesTo(health: Health, from: nat, to: nat, n: nat) {
    from < n && exists k :: 1 <= k < n && FirstHealthy(health, from, k, n) && to == Ahead(from, k, n)
  }

  class Manager {
    var activeIndex: nat
    const clients: nat

    constructor (nodes: nat)
      ensures activeIndex == 0 && clients == nodes
    {
      activeIndex, clients := 0, nodes;
    }

    predicate Valid()
      reads this
    {
      activeIndex < clients
    }

    method RestorePrimary()
      requires Valid()
      modifies this
      ensures Valid() && activeIndex == 0
    {
      activeIndex := 0;
    }

    method NextNode()
      requires Valid()
      modifies this
      ensures Valid() && activeIndex == Ahead(old(activeIndex), 1, clients)
      ensures activeIndex == if old(activeIndex) + 1 < clients then old(activeIndex) + 1 else 0
    {
      if activeIndex < clients - 1 {
        activeIndex := activeIndex + 1;
      } else {
        activeIndex := 0;
      }
    }

    /**
     * At most one probe a node; stops at the first healthy node after the current one, in ring order.  An error means
     * that every node was unhealthy, and leaves the index where it was.
     */
    method FindHealthyNode(health: Health) returns (r: Result<()>, probes: nat)
      requires Valid() || clients == 0
      modifies this
      ensures probes <= clients && (Valid() || clients == 0)
      ensures r.Ok? <==> exists i :: 0 <= i < clients && health(i)
      ensures r.Ok? ==> 1 <= probes && activeIndex == Ahead(old(activeIndex), probes, clients)
      ensures r.Ok? ==> FirstHealthy(health, old(activeIndex), probes, clients)
      ensures r.Ok? ==>
        activeIndex == old(activeIndex) + probes - if old(activeIndex) + probes < clients then 0 else clients
      ensures r.Err? ==> r.why == NoNode && probes == clients && activeIndex == old(activeIndex)
    {
      ghost var start := activeIndex;
      var nodesChecked: nat := 0;
      var nowHealthy := false;
      probes := 0;
      while !nowHealthy
        invariant Valid() || clients == 0
        invariant probes == nodesChecked <= clients
        invariant clients > 0 ==> activeIndex == Ahead(start, probes, clients)
        invariant clients == 0 ==> activeIndex == start && !nowHealthy
        invariant forall j :: 1 <= j < probes ==> !health(Ahead(start, j, clients))
        invariant probes > 0 ==> nowHealthy == health(activeIndex)
        invariant nowHealthy ==> probes > 0
        decreases clients - nodesChecked, !nowHealthy
      {
        nodesChecked := nodesChecked + 1;
        if nodesChecked > clients {
          forall i | 0 <= i < clients ensures !health(i) {
            var k := RoundTrip(start, i, clients);
          }
          return Err(NoNode), probes;
        }
        NextNode();
        probes := probes + 1;
        nowHealthy := health(activeIndex);
      }
      return Ok(()), probes;
    }

    /** Keeps a healthy node; otherwise searches, and on success leaves a watcher that will restore the primary. */
    method CheckAndRecover(health: Health) returns (r: Result<()>, watch: bool)
      requires Valid() || clients == 0
      modifies this
      ensures clients == 0 ==> r == Err(Panic) && !watch
      ensures r.Ok? <==> exists i :: 0 <= i < clients && health(i)
      ensures r.Ok? ==> Valid() && health(activeIndex)
      ensures r.Err? || health(old(activeIndex)) ==> activeIndex == old(activeIndex) && !watch
      ensures r.Ok? ==> (watch <==> activeIndex != old(activeIndex))
      ensures watch ==> MovesTo(health, old(activeIndex), activeIndex, clients)
    {
      if clients == 0 {
        return Err(Panic), false;
      }
      if health(activeIndex) {
        return Ok(()), false;
      }
      var probes;
      r, probes := FindHealthyNode(health);
      watch := r.Ok?;
    }
  }

  // ---------- interleavings ----------

  /** A thread inside `nextNode`: what it has read decides what it writes. */
  datatype Finder = Ready | Below | Loaded(index: nat) | AtEnd

  /** The shared index, and every thread that may be inside a search. */
  datatype State = State(index: nat, finders: seq<Finder>)

  /** One memory access of a finder, or a watcher that restores the primary. */
  datatype Action = Move(finder: nat) | Restore

  /** Compare the index, then either load and store it plus one, or store zero. */
  function Moved(f: Finder, index: nat, n: nat): (Finder, nat) {
    match f
    case Ready => (if index + 1 < n then Below else AtEnd, index)
    case Below => (Loaded(index), index)
    case Loaded(v) => (Ready, v + 1)
    case AtEnd => (Ready, 0)
  }

  /** A finder that nobody disturbs does what `NextNode` does. */
  lemma UndisturbedIsNextNode(index: nat, n: nat)
    requires index < n
    ensures var (f1, i1) := Moved(Ready, index, n);
      var (f2, i2) := Moved(f1, i1, n);
      (Ready, Ahead(index, 1, n)) == if index + 1 < n then Moved(f2, i2, n) else (f2, i2)
  {
  }

  function Next(s: State, a: Action, n: nat): (t: State)
    ensures |t.finders| == |s.finders|
  {
    match a
    case Restore => s.(index := 0)
    case Move(f) =>
      if f >= |s.finders| then s
      else
        var (finder, index) := Moved(s.finders[f], s.index, n);
        State(index, s.finders[f := finder])
  }

  function Run(s: State, actions: seq<Action>, n: nat): (t: State)
    ensures |t.finders| == |s.finders|
    decreases |actions|
  {
    if actions == [] then s else Run(Next(s, actions[0], n), actions[1..], n)
  }

  function Start(finders: nat): (s: State)
    ensures |s.finders| == finders
  {
    State(0, seq(finders, _ => Ready))
  }

  /** No interleaving takes the index out of the list of clients. */
  ghost predicate AlwaysInRange(n: nat, finders: nat) {
    forall actions: seq<Action> :: Run(Start(finders), actions, n).index < n
  }

  /** What keeps a single finder safe: whatever it has read, one more still fits. */
  predicate Fits(s: State, n: nat) {
    && s.index < n
    && forall i :: 0 <= i < |s.finders| ==>
      match s.finders[i]
      case Below => n > 1 && s.index + 1 < n
      case Loaded(v) => v + 1 < n
      case _ => true
  }

  /** With one node, nobody ever passes the comparison. */
  predicate NobodyBelow(s: State) {
    s.index == 0 && forall i :: 0 <= i < |s.finders| ==> s.finders[i] == Ready || s.finders[i] == AtEnd
  }

  lemma {:induction false} OneFinderFits(s: State, actions: seq<Action>, n: nat)
    requires |s.finders| <= 1 && Fits(s, n)
    ensures Run(s, actions, n).index < n
    decreases |actions|
  {
    if actions != [] {
      OneFinderFits(Next(s, actions[0], n), actions[1..], n);
    }
  }

  lemma {:induction false} OneNodeFits(s: State, actions: seq<Action>)
    requires NobodyBelow(s)
    ensures Run(s, actions, 1).index == 0
    decreases |actions|
  {
    if actions != [] {
      OneNodeFits(Next(s, actions[0], 1), actions[1..]);
    }
  }

  lemma {:induction false} RunConcat(s: State, a: seq<Action>, b: seq<Action>, n: nat)
    ensures Run(s, a + b, n) == Run(Run(s, a, n), b, n)
    decreases |a|
  {
    if a == [] {
      ConcatEmpty(b);
    } else {
      SplitWithin(a, b, 1);
      RunConcat(Next(s, a[0], n), a[1..], b, n);
    }
  }

  /** The first finder, left alone, walks the index up to the last node but one. */
  lemma {:induction false} Climb(index: nat, finders: nat, n: nat) returns (actions: seq<Action>)
    requires finders >= 1 && index + 2 <= n
    ensures Run(State(index, Start(finders).finders), actions, n) == State(n - 2, Start(finders).finders)
    decreases n - index
  {
    actions := [];
    if index + 2 < n {
      var s := State(index, Start(finders).finders);
      var once := [Move(0), Move(0), Move(0)];
      assert Run(s, once, n) == State(index + 1, s.finders) by {
        ThreeMoves(s, 0, 0, 0, n);
        assert s.finders[0 := Below][0 := Loaded(index)][0 := Ready] == s.finders;
      }
      var rest := Climb(index + 1, finders, n);
      RunConcat(s, once, rest, n);
      actions := once + rest;
    }
  }

  lemma ThreeMoves(s: State, a: nat, b: nat, c: nat, n: nat)
    ensures Run(s, [Move(a), Move(b), Move(c)], n) == Next(Next(Next(s, Move(a), n), Move(b), n), Move(c), n)
  {
    var t := Next(s, Move(a), n);
    var u := Next(t, Move(b), n);
    assert [Move(a), Move(b), Move(c)][1..] == [Move(b), Move(c)];
    assert [Move(b), Move(c)][1..] == [Move(c)];
    assert [Move(c)][1..] == [];
    assert Run(u, [Move(c)], n) == Next(u, Move(c), n);
    assert Run(t, [Move(b), Move(c)], n) == Run(u, [Move(c)], n);
  }

  /** Two finders that both compare before either stores step past the end. */
  lemma TwoFindersCollide(finders: nat, n: nat) returns (actions: seq<Action>)
    requires finders >= 2 && n >= 2
    ensures Run(Start(finders), actions, n).index == n
  {
    var up := Climb(0, finders, n);
    var s := State(n - 2, Start(finders).finders);
    var first, second := [Move(0), Move(1), Move(0)], [Move(0), Move(1), Move(1)];
    ThreeMoves(s, 0, 1, 0, n);
    var t := Run(s, first, n);
    ThreeMoves(t, 0, 1, 1, n);
    RunConcat(s, first, second, n);
    RunConcat(Start(finders), up, first + second, n);
    actions := up + (first + second);
  }

  /**
   * The index stays in range in every interleaving with any number of restores, exactly when there is at most one
   * finder or a single node.
   */
  lemma InRangeIff(n: nat, finders: nat)
    requires n >= 1
    ensures AlwaysInRange(n, finders) <==> finders <= 1 || n == 1
  {
    if n == 1 {
      forall actions: seq<Action> ensures Run(Start(finders), actions, n).index < n {
        OneNodeFits(Start(finders), actions);
      }
    } else if finders <= 1 {
      forall actions: seq<Action> ensures Run(Start(finders), actions, n).index < n {
        OneFinderFits(Start(finders), actions, n);
      }
    } else {
      var actions := TwoFindersCollide(finders, n);
    }
  }
}
