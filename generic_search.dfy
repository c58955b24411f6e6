/**
 * The generic search library of chapter 2: membership tests over sequences,
 * the Stack (LIFO) and Queue (FIFO) frontiers, search-tree nodes with parent
 * links, path reconstruction, and the depth-first and breadth-first drivers
 * over a caller-supplied goal test and successor function.
 */
module GenericSearch {
  import opened Wrappers

  // ---------------------------------------------------------------------
  // linear_contains and binary_contains

  /** `linear_contains(iterable, key)`: scan until an element equals key. */
  method LinearContains<T(==)>(items: seq<T>, key: T) returns (found: bool)
    ensures found <==> key in items
  {
    for i := 0 to |items|
      invariant key !in items[..i]
    {
      if items[i] == key {
        return true;
      }
    }
    return false;
  }

  /** `less` is the `<` of a strict total order: irreflexive, transitive, total. */
  ghost predicate StrictTotalOrder<T(!new)>(less: (T, T) -> bool)
  {
    && (forall x :: !less(x, x))
    && (forall x, y, z :: less(x, y) && less(y, z) ==> less(x, z))
    && (forall x, y :: x != y ==> less(x, y) || less(y, x))
  }

  /** Ascending order (duplicates allowed). */
  ghost predicate SortedBy<T>(less: (T, T) -> bool, s: seq<T>)
  {
    forall i, j :: 0 <= i < j < |s| ==> !less(s[j], s[i])
  }

  /**
   * `binary_contains(sequence, key)`: halve the window [low, high] until the
   * middle element equals key or the window is empty. `sequence[mid] > key`
   * is `key < sequence[mid]` for a total order.
   */
  method BinaryContains<T(==, !new)>(s: seq<T>, key: T, less: (T, T) -> bool) returns (found: bool)
    requires StrictTotalOrder(less)
    requires SortedBy(less, s)
    ensures found <==> key in s
  {
    var low: int := 0;
    var high: int := |s| - 1;
    while low <= high
      invariant 0 <= low <= high + 1 <= |s|
      invariant forall i :: 0 <= i < low ==> less(s[i], key)
      invariant forall i :: high < i < |s| ==> less(key, s[i])
      decreases high - low
    {
      var mid := (low + high) / 2;
      if less(s[mid], key) {
        low := mid + 1;
      } else if less(key, s[mid]) {
        high := mid - 1;
      } else {
        return true;
      }
    }
    return false;
  }

  // ---------------------------------------------------------------------
  // Frontiers

  /** `Stack`: a list whose end is the top. */
  class Stack<T> {
    var container: seq<T>

    constructor ()
      ensures container == []
    {
      container := [];
    }

    /** `empty`: nothing is held. */
    predicate Empty()
      reads this
      ensures Empty() <==> |container| == 0
    {
      container == []
    }

    /** `push`: append at the top. */
    method Push(item: T)
      modifies this
      ensures container == old(container) + [item]
    {
      container := container + [item];
    }

    /** `pop`: remove and return the most recently pushed item still held. */
    method Pop() returns (item: T)
      requires container != []
      modifies this
      ensures old(container) == container + [item]
    {
      item := container[|container| - 1];
      container := container[..|container| - 1];
    }
  }

  /** `Queue`: a deque pushed at the back and popped at the front. */
  class Queue<T> {
    var container: seq<T>

    constructor ()
      ensures container == []
    {
      container := [];
    }

    /** `empty`: nothing is held. */
    predicate Empty()
      reads this
      ensures Empty() <==> |container| == 0
    {
      container == []
    }

    /** `push`: append at the back. */
    method Push(item: T)
      modifies this
      ensures container == old(container) + [item]
    {
      container := container + [item];
    }

    /** `pop`: remove and return the earliest pushed item still held (`popleft`). */
    method Pop() returns (item: T)
      requires container != []
      modifies this
      ensures old(container) == [item] + container
    {
      item := container[0];
      container := container[1..];
    }
  }

  // ---------------------------------------------------------------------
  // Nodes and paths

  /** A search-tree node: a state and the node it was generated from. Nodes
      are never changed after construction. */
  datatype Node<T> = Node(state: T, parent: Option<Node<T>>)

  /** The number of parent links above a node. */
  function Depth<T>(n: Node<T>): nat
  {
    match n.parent
    case None => 0
    case Some(p) => 1 + Depth(p)
  }

  /** The state of the node at the top of the parent chain. */
  function RootState<T>(n: Node<T>): T
  {
    match n.parent
    case None => n.state
    case Some(p) => RootState(p)
  }

  /** The states from the root down to n. */
  function Path<T>(n: Node<T>): (p: seq<T>)
  {
    match n.parent
    case None => [n.state]
    case Some(q) => Path(q) + [n.state]
  }

  /** A path runs from the root's state to the node's state and has one state per node of the chain. */
  lemma {:induction false} PathShape<T>(n: Node<T>)
    ensures |Path(n)| == Depth(n) + 1
    ensures Path(n)[0] == RootState(n)
    ensures Path(n)[|Path(n)| - 1] == n.state
  {
    match n.parent
    case None =>
    case Some(q) => PathShape(q);
  }

  function Reverse<T>(s: seq<T>): (r: seq<T>)
    ensures |r| == |s| && forall i :: 0 <= i < |s| ==> r[i] == s[|s| - 1 - i]
  {
    if s == [] then [] else Reverse(s[1..]) + [s[0]]
  }

  /**
   * `node_to_path(node)`: collect the states while walking up the parent
   * links, then reverse them.
   */
  method NodeToPath<T>(node: Node<T>) returns (path: seq<T>)
    ensures path == Path(node)
  {
    var n := node;
    var acc := [n.state];
    while n.parent.Some?
      invariant acc != [] && acc[|acc| - 1] == n.state
      invariant Path(node) == Path(n) + Reverse(acc)[1..]
      decreases n
    {
      var p := n.parent.value;
      assert Path(n) == Path(p) + [n.state];
      assert Reverse(acc + [p.state]) == [p.state] + Reverse(acc);
      n := p;
      acc := acc + [n.state];
    }
    path := Reverse(acc);
    assert Path(n) == [n.state];
    assert path == [n.state] + Reverse(acc)[1..];
  }

  // ---------------------------------------------------------------------
  // What the drivers promise

  /** p is a sequence of states in which each one is a successor of the one before. */
  ghost predicate IsPath<T>(successors: T -> seq<T>, p: seq<T>)
  {
    |p| >= 1 && forall i :: 0 <= i < |p| - 1 ==> p[i + 1] in successors(p[i])
  }

  ghost predicate PathFrom<T>(successors: T -> seq<T>, initial: T, p: seq<T>)
  {
    IsPath(successors, p) && p[0] == initial
  }

  /** Every successor of a state in S is in S. */
  ghost predicate Closed<T>(successors: T -> seq<T>, S: set<T>)
  {
    forall s | s in S :: forall c | c in successors(s) :: c in S
  }

  /** Every successor of a state in `done` is in `seen`. */
  ghost predicate Expanded<T>(successors: T -> seq<T>, done: set<T>, seen: set<T>)
  {
    forall s | s in done :: forall c | c in successors(s) :: c in seen
  }

  /** Every path from `initial` to s has at least d edges. */
  ghost predicate NoShorterPath<T(!new)>(successors: T -> seq<T>, initial: T, s: T, d: nat)
  {
    forall p | PathFrom(successors, initial, p) && p[|p| - 1] == s :: |p| - 1 >= d
  }

  /** Some path from `initial` ends in s. */
  ghost predicate Reachable<T(!new)>(successors: T -> seq<T>, initial: T, s: T)
  {
    exists p :: PathFrom(successors, initial, p) && p[|p| - 1] == s
  }

  /** Every state of S is reachable from `initial`. */
  ghost predicate AllReachable<T(!new)>(successors: T -> seq<T>, initial: T, S: set<T>)
  {
    forall s | s in S :: Reachable(successors, initial, s)
  }

  /** The states of the nodes in a frontier. */
  ghost function StatesOf<T>(c: seq<Node<T>>): set<T>
  {
    if c == [] then {} else StatesOf(c[..|c| - 1]) + {c[|c| - 1].state}
  }

  /** The elements of a sequence. */
  ghost function SetOf<T>(s: seq<T>): set<T>
  {
    if s == [] then {} else SetOf(s[..|s| - 1]) + {s[|s| - 1]}
  }

  ghost predicate Distinct<T>(s: seq<T>)
  {
    forall i, j :: 0 <= i < j < |s| ==> s[i] != s[j]
  }

  lemma StatesOfAppend<T>(c: seq<Node<T>>, n: Node<T>)
    ensures StatesOf(c + [n]) == StatesOf(c) + {n.state}
  {
    assert (c + [n])[..|c|] == c;
  }

  lemma {:induction false} StatesOfCons<T>(n: Node<T>, c: seq<Node<T>>)
    ensures StatesOf([n] + c) == {n.state} + StatesOf(c)
  {
    if c != [] {
      var init := c[..|c| - 1];
      StatesOfCons(n, init);
      assert ([n] + c)[..|c|] == [n] + init;
    } else {
      assert ([n] + c)[..0] == [];
    }
  }

  lemma SetOfAppend<T>(s: seq<T>, x: T)
    ensures SetOf(s + [x]) == SetOf(s) + {x}
  {
    assert (s + [x])[..|s|] == s;
  }

  lemma {:induction false} SetOfMembers<T>(s: seq<T>)
    ensures forall x :: x in SetOf(s) <==> x in s
  {
    if s != [] {
      SetOfMembers(s[..|s| - 1]);
      assert s == s[..|s| - 1] + [s[|s| - 1]];
    }
  }

  /** A sequence with as many distinct elements as entries has no repeats. */
  lemma {:induction false} CardinalityDistinct<T>(s: seq<T>)
    requires |SetOf(s)| == |s|
    ensures Distinct(s)
  {
    if s != [] {
      var init := s[..|s| - 1];
      var x := s[|s| - 1];
      SetOfMembers(init);
      if x in SetOf(init) {
        assert SetOf(s) == SetOf(init);
        SetOfCardinality(init);
      } else {
        CardinalityDistinct(init);
      }
    }
  }

  lemma {:induction false} SetOfCardinality<T>(s: seq<T>)
    ensures |SetOf(s)| <= |s|
  {
    if s != [] {
      SetOfCardinality(s[..|s| - 1]);
    }
  }

  /** A path that starts in a closed set never leaves it. */
  lemma {:induction false} PathStaysIn<T>(successors: T -> seq<T>, S: set<T>, p: seq<T>)
    requires IsPath(successors, p) && p[0] in S && Closed(successors, S)
    ensures p[|p| - 1] in S
  {
    if |p| > 1 {
      var init := p[..|p| - 1];
      assert IsPath(successors, init) by {
        forall i | 0 <= i < |init| - 1 ensures init[i + 1] in successors(init[i]) {
          assert init[i] == p[i] && init[i + 1] == p[i + 1];
        }
      }
      PathStaysIn(successors, S, init);
      assert p[|p| - 1] in successors(p[|p| - 2]);
    }
  }

  /** Each node of the chain holds a successor of its parent's state, and the root holds `initial`. */
  ghost predicate ValidNode<T>(successors: T -> seq<T>, initial: T, n: Node<T>)
  {
    match n.parent
    case None => n.state == initial
    case Some(q) => n.state in successors(q.state) && ValidNode(successors, initial, q)
  }

  /** The path of a valid node is a path from `initial`. */
  lemma {:induction false} ValidNodePath<T>(successors: T -> seq<T>, initial: T, n: Node<T>)
    requires ValidNode(successors, initial, n)
    ensures PathFrom(successors, initial, Path(n))
  {
    match n.parent
    case None =>
    case Some(q) =>
      ValidNodePath(successors, initial, q);
      PathShape(q);
      var p := Path(q);
      var r := Path(n);
      assert r == p + [n.state];
      forall i | 0 <= i < |r| - 1 ensures r[i + 1] in successors(r[i]) {
        if i < |p| - 1 {
          assert r[i] == p[i] && r[i + 1] == p[i + 1];
        }
      }
  }

  /** Every node of a frontier is valid. */
  ghost predicate NodesFrom<T>(successors: T -> seq<T>, initial: T, c: seq<Node<T>>)
  {
    c == [] || (NodesFrom(successors, initial, c[..|c| - 1]) && ValidNode(successors, initial, c[|c| - 1]))
  }

  lemma NodesFromAppend<T>(successors: T -> seq<T>, initial: T, c: seq<Node<T>>, n: Node<T>)
    ensures NodesFrom(successors, initial, c + [n]) <==>
      NodesFrom(successors, initial, c) && ValidNode(successors, initial, n)
  {
    assert (c + [n])[..|c|] == c;
  }

  lemma {:induction false} NodesFromCons<T>(successors: T -> seq<T>, initial: T, n: Node<T>, c: seq<Node<T>>)
    ensures NodesFrom(successors, initial, [n] + c) <==>
      ValidNode(successors, initial, n) && NodesFrom(successors, initial, c)
  {
    if c != [] {
      var init := c[..|c| - 1];
      NodesFromCons(successors, initial, n, init);
      assert ([n] + c)[..|c|] == [n] + init;
    } else {
      assert ([n] + c)[..0] == [];
    }
  }

  lemma SetMinusOne<T>(universe: set<T>, explored: set<T>, x: T)
    requires x in universe && x !in explored
    ensures |universe - (explored + {x})| == |universe - explored| - 1
  {
    assert universe - (explored + {x}) == (universe - explored) - {x};
  }

  // ---------------------------------------------------------------------
  // The bookkeeping shared by dfs and bfs

  /** The termination measure of the search loop: unexplored states plus frontier nodes. */
  ghost function Measure<T>(universe: set<T>, explored: set<T>, c: seq<Node<T>>): nat
  {
    |universe - explored| + |c|
  }

  /**
   * What holds between two iterations of the search loop: every explored
   * state lies in the universe and was pushed exactly once; an explored state
   * has either been popped or sits in the frontier `c`; every frontier node
   * is a valid node; no popped state satisfies the goal test; and every
   * successor of a popped state is explored.
   */
  ghost predicate SearchInv<T(!new)>(successors: T -> seq<T>, goalTest: T -> bool, initial: T, universe: set<T>,
                               explored: set<T>, popped: set<T>, pushed: seq<T>, c: seq<Node<T>>)
  {
    && explored <= universe && initial in explored
    && explored == SetOf(pushed) && |explored| == |pushed|
    && |pushed| >= 1 && pushed[0] == initial
    && explored == popped + StatesOf(c)
    && NodesFrom(successors, initial, c)
    && (forall s | s in popped :: !goalTest(s))
    && Expanded(successors, popped, explored)
    && AllReachable(successors, initial, explored)
  }

  /** What holds while the children of the popped node `cur` are pushed. */
  ghost predicate ExpandInv<T(!new)>(successors: T -> seq<T>, goalTest: T -> bool, initial: T, universe: set<T>,
                               explored: set<T>, popped: set<T>, pushed: seq<T>, c: seq<Node<T>>, cur: Node<T>)
  {
    && explored <= universe && initial in explored && Closed(successors, universe)
    && explored == SetOf(pushed) && |explored| == |pushed|
    && |pushed| >= 1 && pushed[0] == initial
    && explored == popped + StatesOf(c) + {cur.state}
    && NodesFrom(successors, initial, c)
    && ValidNode(successors, initial, cur)
    && !goalTest(cur.state)
    && (forall s | s in popped :: !goalTest(s))
    && Expanded(successors, popped, explored)
    && AllReachable(successors, initial, explored)
  }

  lemma SearchInvInit<T(!new)>(successors: T -> seq<T>, goalTest: T -> bool, initial: T, universe: set<T>)
    requires initial in universe
    ensures SearchInv(successors, goalTest, initial, universe, {initial}, {}, [initial], [Node(initial, None)])
  {
    NodesFromAppend(successors, initial, [], Node(initial, None));
    StatesOfAppend([], Node(initial, None));
    SetOfAppend([], initial);
    assert PathFrom(successors, initial, [initial]);
  }

  /** What a search can report when it pops a node. */
  lemma {:induction false} SearchInvResult<T(!new)>(successors: T -> seq<T>, goalTest: T -> bool, initial: T,
                                              universe: set<T>, explored: set<T>, popped: set<T>, pushed: seq<T>,
                                              c: seq<Node<T>>)
    requires SearchInv(successors, goalTest, initial, universe, explored, popped, pushed, c)
    ensures Distinct(pushed) && SetOf(pushed) <= universe
    ensures AllReachable(successors, initial, SetOf(pushed))
    ensures forall k :: 0 <= k < |c| ==> PathFrom(successors, initial, Path(c[k]))
  {
    CardinalityDistinct(pushed);
    forall k | 0 <= k < |c| ensures PathFrom(successors, initial, Path(c[k])) {
      NodesFromAt(successors, initial, c, k);
      ValidNodePath(successors, initial, c[k]);
    }
  }

  lemma {:induction false} NodesFromAt<T>(successors: T -> seq<T>, initial: T, c: seq<Node<T>>, k: int)
    requires NodesFrom(successors, initial, c) && 0 <= k < |c|
    ensures ValidNode(successors, initial, c[k])
  {
    if k < |c| - 1 {
      var init := c[..|c| - 1];
      NodesFromAt(successors, initial, init, k);
      assert init[k] == c[k];
    }
  }

  /** Popping the last node (a stack) and finding it is not a goal. */
  lemma PopBack<T(!new)>(successors: T -> seq<T>, goalTest: T -> bool, initial: T, universe: set<T>,
                   explored: set<T>, popped: set<T>, pushed: seq<T>, c: seq<Node<T>>, cur: Node<T>)
    requires SearchInv(successors, goalTest, initial, universe, explored, popped, pushed, c + [cur])
    requires Closed(successors, universe) && !goalTest(cur.state)
    ensures ExpandInv(successors, goalTest, initial, universe, explored, popped, pushed, c, cur)
  {
    StatesOfAppend(c, cur);
    NodesFromAppend(successors, initial, c, cur);
  }

  /** Popping the first node (a queue) and finding it is not a goal. */
  lemma PopFront<T(!new)>(successors: T -> seq<T>, goalTest: T -> bool, initial: T, universe: set<T>,
                    explored: set<T>, popped: set<T>, pushed: seq<T>, c: seq<Node<T>>, cur: Node<T>)
    requires SearchInv(successors, goalTest, initial, universe, explored, popped, pushed, [cur] + c)
    requires Closed(successors, universe) && !goalTest(cur.state)
    ensures ExpandInv(successors, goalTest, initial, universe, explored, popped, pushed, c, cur)
  {
    StatesOfCons(cur, c);
    NodesFromCons(successors, initial, cur, c);
  }

  /** Exploring one child not explored before and pushing its node. */
  lemma PushStep<T(!new)>(successors: T -> seq<T>, goalTest: T -> bool, initial: T, universe: set<T>,
                    explored: set<T>, popped: set<T>, pushed: seq<T>, c: seq<Node<T>>, cur: Node<T>, child: T)
    requires ExpandInv(successors, goalTest, initial, universe, explored, popped, pushed, c, cur)
    requires child in successors(cur.state) && child !in explored
    ensures ExpandInv(successors, goalTest, initial, universe, explored + {child}, popped, pushed + [child],
                      c + [Node(child, Some(cur))], cur)
    ensures Measure(universe, explored + {child}, c + [Node(child, Some(cur))]) == Measure(universe, explored, c)
  {
    var node := Node(child, Some(cur));
    assert cur.state in universe;
    SetMinusOne(universe, explored, child);
    StatesOfAppend(c, node);
    NodesFromAppend(successors, initial, c, node);
    SetOfAppend(pushed, child);
    ValidNodePath(successors, initial, node);
    PathShape(node);
    assert Reachable(successors, initial, child);
  }

  /** Once every child of `cur` is explored, `cur` counts as popped. */
  lemma FinishExpand<T(!new)>(successors: T -> seq<T>, goalTest: T -> bool, initial: T, universe: set<T>,
                        explored: set<T>, popped: set<T>, pushed: seq<T>, c: seq<Node<T>>, cur: Node<T>)
    requires ExpandInv(successors, goalTest, initial, universe, explored, popped, pushed, c, cur)
    requires forall ch | ch in successors(cur.state) :: ch in explored
    ensures SearchInv(successors, goalTest, initial, universe, explored, popped + {cur.state}, pushed, c)
  {
  }

  /** An empty frontier means every state reachable from `initial` was popped. */
  lemma {:induction false} Exhausted<T(!new)>(successors: T -> seq<T>, goalTest: T -> bool, initial: T, universe: set<T>,
                                        explored: set<T>, popped: set<T>, pushed: seq<T>)
    requires SearchInv(successors, goalTest, initial, universe, explored, popped, pushed, [])
    ensures forall p | PathFrom(successors, initial, p) :: !goalTest(p[|p| - 1])
    ensures forall p | PathFrom(successors, initial, p) :: p[|p| - 1] in SetOf(pushed)
  {
    assert Closed(successors, popped);
    forall p | PathFrom(successors, initial, p) ensures !goalTest(p[|p| - 1]) && p[|p| - 1] in SetOf(pushed) {
      PathStaysIn(successors, popped, p);
    }
  }

  lemma PrefixIn<T>(children: seq<T>, i: int, before: set<T>, after: set<T>)
    requires 0 <= i < |children| && before <= after && children[i] in after
    requires forall k :: 0 <= k < i ==> children[k] in before
    ensures forall k :: 0 <= k < i + 1 ==> children[k] in after
  {
  }

  // ---------------------------------------------------------------------
  // dfs

  /**
   * The `for child in successors(current_node.state)` loop of `dfs`: every
   * child not yet explored is marked explored and pushed, as a node whose
   * parent is the current node.
   */
  method PushChildren<T(==, !new)>(frontier: Stack<Node<T>>, current: Node<T>, children: seq<T>, explored0: set<T>,
                             ghost pushed0: seq<T>, ghost popped: set<T>,
                             ghost successors: T -> seq<T>, ghost goalTest: T -> bool, ghost initial: T,
                             ghost universe: set<T>)
    returns (explored: set<T>, ghost pushed: seq<T>)
    modifies frontier
    requires children == successors(current.state)
    requires ExpandInv(successors, goalTest, initial, universe, explored0, popped, pushed0, frontier.container, current)
    ensures ExpandInv(successors, goalTest, initial, universe, explored, popped, pushed, frontier.container, current)
    ensures forall ch | ch in children :: ch in explored
    ensures Measure(universe, explored, frontier.container) == Measure(universe, explored0, old(frontier.container))
  {
    explored := explored0;
    pushed := pushed0;
    var i := 0;
    while i < |children|
      invariant 0 <= i <= |children|
      invariant ExpandInv(successors, goalTest, initial, universe, explored, popped, pushed, frontier.container, current)
      invariant forall k :: 0 <= k < i ==> children[k] in explored
      invariant Measure(universe, explored, frontier.container) == Measure(universe, explored0, old(frontier.container))
    {
      var child := children[i];
      ghost var before := explored;
      if child !in explored {
        PushStep(successors, goalTest, initial, universe, explored, popped, pushed, frontier.container, current, child);
        explored := explored + {child};
        pushed := pushed + [child];
        frontier.Push(Node(child, Some(current)));
      }
      PrefixIn(children, i, before, explored);
      i := i + 1;
    }
    forall ch | ch in children ensures ch in explored {
      var k :| 0 <= k < |children| && children[k] == ch;
    }
  }

  /**
   * `dfs(initial, goal_test, successors)`. The state space is finite: a
   * ghost `universe` holds the initial state and is closed under successors.
   * A returned node satisfies the goal test and its path is a path from the
   * initial state; None means no state reachable from the initial state
   * satisfies the goal test. `pushed` lists the states in the order they were
   * pushed: the initial state first, and no state twice.
   */
  method Dfs<T(==, !new)>(initial: T, goalTest: T -> bool, successors: T -> seq<T>, ghost universe: set<T>)
    returns (result: Option<Node<T>>, ghost pushed: seq<T>)
    requires initial in universe && Closed(successors, universe)
    ensures result.Some? ==> goalTest(result.value.state)
    ensures result.Some? ==> PathFrom(successors, initial, Path(result.value))
    ensures result.None? ==> forall p | PathFrom(successors, initial, p) :: !goalTest(p[|p| - 1])
    ensures |pushed| >= 1 && pushed[0] == initial && Distinct(pushed)
    ensures SetOf(pushed) <= universe
    ensures AllReachable(successors, initial, SetOf(pushed))
    ensures result.Some? ==> result.value.state in SetOf(pushed)
    ensures result.None? ==> forall p | PathFrom(successors, initial, p) :: p[|p| - 1] in SetOf(pushed)
  {
    var frontier := new Stack<Node<T>>();
    frontier.Push(Node(initial, None));
    var explored: set<T> := {initial};
    pushed := [initial];
    ghost var popped: set<T> := {};
    SearchInvInit(successors, goalTest, initial, universe);
    while !frontier.Empty()
      invariant fresh(frontier)
      invariant SearchInv(successors, goalTest, initial, universe, explored, popped, pushed, frontier.container)
      decreases Measure(universe, explored, frontier.container)
    {
      ghost var c := frontier.container;
      var current := frontier.Pop();
      if goalTest(current.state) {
        SearchInvResult(successors, goalTest, initial, universe, explored, popped, pushed, c);
        assert c[|c| - 1] == current;
        StatesOfAppend(frontier.container, current);
        return Some(current), pushed;
      }
      PopBack(successors, goalTest, initial, universe, explored, popped, pushed, frontier.container, current);
      explored, pushed := PushChildren(frontier, current, successors(current.state), explored, pushed, popped,
                                       successors, goalTest, initial, universe);
      FinishExpand(successors, goalTest, initial, universe, explored, popped, pushed, frontier.container, current);
      popped := popped + {current.state};
    }
    Exhausted(successors, goalTest, initial, universe, explored, popped, pushed);
    SearchInvResult(successors, goalTest, initial, universe, explored, popped, pushed, []);
    return None, pushed;
  }

  // ---------------------------------------------------------------------
  // bfs

  /**
   * The queue holds nodes in order of depth, all of depth `level` or
   * `level + 1`, and no state in it can be reached by a path shorter than
   * the depth of its node.
   */
  ghost predicate Layered<T(!new)>(successors: T -> seq<T>, initial: T, c: seq<Node<T>>, level: nat)
  {
    && (forall k :: 0 <= k < |c| ==> level <= Depth(c[k]) <= level + 1)
    && (forall j, k :: 0 <= j < k < |c| ==> Depth(c[j]) <= Depth(c[k]))
    && (forall k :: 0 <= k < |c| ==> NoShorterPath(successors, initial, c[k].state, Depth(c[k])))
  }

  /** Every state reachable from `initial` in fewer than `level` steps has been popped. */
  ghost predicate Reach<T(!new)>(successors: T -> seq<T>, initial: T, popped: set<T>, level: nat)
  {
    forall p | PathFrom(successors, initial, p) && |p| - 1 < level :: p[|p| - 1] in popped
  }

  lemma LayeredInit<T(!new)>(successors: T -> seq<T>, initial: T)
    ensures Layered(successors, initial, [Node(initial, None)], 0)
  {
  }

  lemma {:induction false} PathPrefix<T>(successors: T -> seq<T>, initial: T, p: seq<T>)
    requires PathFrom(successors, initial, p) && |p| >= 2
    ensures PathFrom(successors, initial, p[..|p| - 1])
    ensures p[|p| - 1] in successors(p[|p| - 2])
  {
    var q := p[..|p| - 1];
    forall i | 0 <= i < |q| - 1 ensures q[i + 1] in successors(q[i]) {
      assert q[i] == p[i] && q[i + 1] == p[i + 1];
    }
  }

  /** Every state reachable within `level` steps is explored. */
  lemma {:induction false} WithinExplored<T(!new)>(successors: T -> seq<T>, initial: T, popped: set<T>,
                                                   explored: set<T>, level: nat)
    requires Reach(successors, initial, popped, level)
    requires Expanded(successors, popped, explored) && initial in explored
    ensures forall p | PathFrom(successors, initial, p) && |p| - 1 <= level :: p[|p| - 1] in explored
  {
    forall p | PathFrom(successors, initial, p) && |p| - 1 <= level ensures p[|p| - 1] in explored {
      if |p| >= 2 {
        PathPrefix(successors, initial, p);
        var q := p[..|p| - 1];
        assert q[|q| - 1] in popped;
      }
    }
  }

  lemma {:induction false} StatesOfMember<T>(c: seq<Node<T>>, s: T)
    requires s in StatesOf(c)
    ensures exists k :: 0 <= k < |c| && c[k].state == s
  {
    var init := c[..|c| - 1];
    if s != c[|c| - 1].state {
      StatesOfMember(init, s);
      var k :| 0 <= k < |init| && init[k].state == s;
      assert c[k] == init[k];
    }
  }

  /**
   * When the front of the queue is one level deeper than `level`, every
   * state at distance `level` has been popped, so the level can advance.
   */
  lemma LevelUp<T(!new)>(successors: T -> seq<T>, goalTest: T -> bool, initial: T, universe: set<T>,
                         explored: set<T>, popped: set<T>, pushed: seq<T>, c: seq<Node<T>>, level: nat)
    requires SearchInv(successors, goalTest, initial, universe, explored, popped, pushed, c)
    requires Layered(successors, initial, c, level) && Reach(successors, initial, popped, level)
    requires c != [] && Depth(c[0]) == level + 1
    ensures Layered(successors, initial, c, level + 1) && Reach(successors, initial, popped, level + 1)
  {
    WithinExplored(successors, initial, popped, explored, level);
    forall p | PathFrom(successors, initial, p) && |p| - 1 < level + 1 ensures p[|p| - 1] in popped {
      var s := p[|p| - 1];
      if |p| - 1 == level && s !in popped {
        StatesOfMember(c, s);
      }
    }
  }

  /** Popping the front of a layered queue. */
  lemma LayeredTail<T(!new)>(successors: T -> seq<T>, initial: T, cur: Node<T>, c: seq<Node<T>>, level: nat)
    requires Layered(successors, initial, [cur] + c, level)
    ensures Layered(successors, initial, c, level)
    ensures level <= Depth(cur) <= level + 1
  {
    assert forall k :: 0 <= k < |c| ==> c[k] == ([cur] + c)[k + 1];
    assert cur == ([cur] + c)[0];
  }

  /** A child first reached from a node at depth `level` lies at distance `level + 1`. */
  lemma LayeredPush<T(!new)>(successors: T -> seq<T>, goalTest: T -> bool, initial: T, universe: set<T>,
                             explored: set<T>, popped: set<T>, pushed: seq<T>, c: seq<Node<T>>, cur: Node<T>,
                             level: nat, child: T)
    requires ExpandInv(successors, goalTest, initial, universe, explored, popped, pushed, c, cur)
    requires Layered(successors, initial, c, level) && Reach(successors, initial, popped, level)
    requires Depth(cur) == level && child !in explored
    ensures Layered(successors, initial, c + [Node(child, Some(cur))], level)
  {
    WithinExplored(successors, initial, popped, explored, level);
    assert NoShorterPath(successors, initial, child, level + 1);
    LayeredAppend(successors, initial, c, Node(child, Some(cur)), level);
  }

  /** Appending a node one level down, whose state has no shorter path, keeps the queue layered. */
  lemma LayeredAppend<T(!new)>(successors: T -> seq<T>, initial: T, c: seq<Node<T>>, node: Node<T>, level: nat)
    requires Layered(successors, initial, c, level)
    requires Depth(node) == level + 1 && NoShorterPath(successors, initial, node.state, level + 1)
    ensures Layered(successors, initial, c + [node], level)
  {
    var c' := c + [node];
    assert forall k :: 0 <= k < |c| ==> c'[k] == c[k];
    assert c'[|c|] == node;
  }

  /** A goal popped at depth `level` lies on a shortest path to any goal. */
  lemma {:induction false} Shortest<T(!new)>(successors: T -> seq<T>, goalTest: T -> bool, initial: T,
                                             popped: set<T>, cur: Node<T>, level: nat)
    requires Reach(successors, initial, popped, level) && forall s | s in popped :: !goalTest(s)
    requires Depth(cur) == level
    ensures forall p | PathFrom(successors, initial, p) && goalTest(p[|p| - 1]) :: |Path(cur)| <= |p|
  {
    PathShape(cur);
  }

  /** The `for child in successors(current_node.state)` loop of `bfs`. */
  method EnqueueChildren<T(==, !new)>(frontier: Queue<Node<T>>, current: Node<T>, children: seq<T>, explored0: set<T>,
                                      ghost pushed0: seq<T>, ghost popped: set<T>, ghost level: nat,
                                      ghost successors: T -> seq<T>, ghost goalTest: T -> bool, ghost initial: T,
                                      ghost universe: set<T>)
    returns (explored: set<T>, ghost pushed: seq<T>)
    modifies frontier
    requires children == successors(current.state) && Depth(current) == level
    requires ExpandInv(successors, goalTest, initial, universe, explored0, popped, pushed0, frontier.container, current)
    requires Layered(successors, initial, frontier.container, level) && Reach(successors, initial, popped, level)
    ensures ExpandInv(successors, goalTest, initial, universe, explored, popped, pushed, frontier.container, current)
    ensures Layered(successors, initial, frontier.container, level)
    ensures forall ch | ch in children :: ch in explored
    ensures Measure(universe, explored, frontier.container) == Measure(universe, explored0, old(frontier.container))
  {
    explored := explored0;
    pushed := pushed0;
    var i := 0;
    while i < |children|
      invariant 0 <= i <= |children|
      invariant ExpandInv(successors, goalTest, initial, universe, explored, popped, pushed, frontier.container, current)
      invariant Layered(successors, initial, frontier.container, level)
      invariant forall k :: 0 <= k < i ==> children[k] in explored
      invariant Measure(universe, explored, frontier.container) == Measure(universe, explored0, old(frontier.container))
    {
      var child := children[i];
      ghost var before := explored;
      if child !in explored {
        LayeredPush(successors, goalTest, initial, universe, explored, popped, pushed, frontier.container, current,
                    level, child);
        PushStep(successors, goalTest, initial, universe, explored, popped, pushed, frontier.container, current, child);
        explored := explored + {child};
        pushed := pushed + [child];
        frontier.Push(Node(child, Some(current)));
      }
      PrefixIn(children, i, before, explored);
      i := i + 1;
    }
    forall ch | ch in children ensures ch in explored {
      var k :| 0 <= k < |children| && children[k] == ch;
    }
  }

  /**
   * `bfs(initial, goal_test, successors)`: as `dfs`, with a queue for the
   * frontier. In addition, the returned node's path is a shortest path from
   * the initial state to any state satisfying the goal test.
   */
  method Bfs<T(==, !new)>(initial: T, goalTest: T -> bool, successors: T -> seq<T>, ghost universe: set<T>)
    returns (result: Option<Node<T>>, ghost pushed: seq<T>)
    requires initial in universe && Closed(successors, universe)
    ensures result.Some? ==> goalTest(result.value.state)
    ensures result.Some? ==> PathFrom(successors, initial, Path(result.value))
    ensures result.Some? ==>
      forall p | PathFrom(successors, initial, p) && goalTest(p[|p| - 1]) :: |Path(result.value)| <= |p|
    ensures result.None? ==> forall p | PathFrom(successors, initial, p) :: !goalTest(p[|p| - 1])
    ensures |pushed| >= 1 && pushed[0] == initial && Distinct(pushed)
    ensures SetOf(pushed) <= universe
    ensures AllReachable(successors, initial, SetOf(pushed))
    ensures result.Some? ==> result.value.state in SetOf(pushed)
    ensures result.None? ==> forall p | PathFrom(successors, initial, p) :: p[|p| - 1] in SetOf(pushed)
  {
    var frontier := new Queue<Node<T>>();
    frontier.Push(Node(initial, None));
    var explored: set<T> := {initial};
    pushed := [initial];
    ghost var popped: set<T> := {};
    ghost var level: nat := 0;
    SearchInvInit(successors, goalTest, initial, universe);
    LayeredInit(successors, initial);
    while !frontier.Empty()
      invariant fresh(frontier)
      invariant SearchInv(successors, goalTest, initial, universe, explored, popped, pushed, frontier.container)
      invariant Layered(successors, initial, frontier.container, level)
      invariant Reach(successors, initial, popped, level)
      decreases Measure(universe, explored, frontier.container)
    {
      ghost var c := frontier.container;
      if Depth(c[0]) == level + 1 {
        LevelUp(successors, goalTest, initial, universe, explored, popped, pushed, c, level);
        level := level + 1;
      }
      var current := frontier.Pop();
      LayeredTail(successors, initial, current, frontier.container, level);
      if goalTest(current.state) {
        SearchInvResult(successors, goalTest, initial, universe, explored, popped, pushed, c);
        assert c[0] == current;
        StatesOfCons(current, frontier.container);
        Shortest(successors, goalTest, initial, popped, current, level);
        return Some(current), pushed;
      }
      PopFront(successors, goalTest, initial, universe, explored, popped, pushed, frontier.container, current);
      explored, pushed := EnqueueChildren(frontier, current, successors(current.state), explored, pushed, popped,
                                          level, successors, goalTest, initial, universe);
      FinishExpand(successors, goalTest, initial, universe, explored, popped, pushed, frontier.container, current);
      popped := popped + {current.state};
    }
    Exhausted(successors, goalTest, initial, universe, explored, popped, pushed);
    SearchInvResult(successors, goalTest, initial, universe, explored, popped, pushed, []);
    return None, pushed;
  }
}
