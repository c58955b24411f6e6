/**
 * The missionaries-and-cannibals puzzle of chapter 2. Three missionaries
 * and three cannibals cross a river in a boat that carries one or two
 * people; on either bank the missionaries present must not be outnumbered
 * by cannibals. A state counts the people on the west bank (the east bank
 * holds the rest) and records whether the boat is on the west bank.
 */
module Missionaries {
  import opened Wrappers
  import GenericSearch

  /** `MAX_NUM`. */
  const MaxNum: int := 3

  datatype MCState = MCState(wm: int, wc: int, em: int, ec: int, boat: bool)

  /** `MCState(missionaries, cannibals, boat)`: the east bank gets the rest. */
  function NewState(missionaries: int, cannibals: int, boat: bool): (s: MCState)
    ensures s.wm == missionaries && s.wc == cannibals && s.boat == boat
    ensures Balanced(s)
  {
    MCState(missionaries, cannibals, MaxNum - missionaries, MaxNum - cannibals, boat)
  }

  /** The two banks together hold everyone: what every constructed state satisfies. */
  predicate Balanced(s: MCState)
  {
    s.em == MaxNum - s.wm && s.ec == MaxNum - s.wc
  }

  /** Every count lies between 0 and MAX_NUM. */
  predicate InRange(s: MCState)
  {
    0 <= s.wm <= MaxNum && 0 <= s.wc <= MaxNum && 0 <= s.em <= MaxNum && 0 <= s.ec <= MaxNum
  }

  /** `is_legal`: on neither bank are missionaries present and outnumbered. */
  function IsLegal(s: MCState): (r: bool)
    ensures r <==> (s.wm <= 0 || s.wc <= s.wm) && (s.em <= 0 || s.ec <= s.em)
  {
    if s.wm < s.wc && s.wm > 0 then false
    else if s.em < s.ec && s.em > 0 then false
    else true
  }

  /** `goal_test`. */
  function GoalTest(s: MCState): (r: bool)
    ensures Balanced(s) ==> (r <==> s.wm == 0 && s.wc == 0)
  {
    IsLegal(s) && s.em == MaxNum && s.ec == MaxNum
  }

  /**
   * The moves tried before filtering, in order: two missionaries, one
   * missionary, two cannibals, one cannibal, one of each.
   */
  const Moves: seq<(int, int)> := [(2, 0), (1, 0), (0, 2), (0, 1), (1, 1)]

  /**
   * A move is tried when the boat's bank holds the people it carries
   * (`wm > 1` for two missionaries, `wc > 0 and wm > 0` for one of each, and
   * so on).
   */
  predicate Allowed(s: MCState, mv: (int, int))
  {
    if s.boat then (mv.0 == 0 || s.wm >= mv.0) && (mv.1 == 0 || s.wc >= mv.1)
    else (mv.0 == 0 || s.em >= mv.0) && (mv.1 == 0 || s.ec >= mv.1)
  }

  /** The state after the move: the people leave the boat's bank and the boat changes sides. */
  function Apply(s: MCState, mv: (int, int)): MCState
  {
    if s.boat then NewState(s.wm - mv.0, s.wc - mv.1, !s.boat)
    else NewState(s.wm + mv.0, s.wc + mv.1, !s.boat)
  }

  /** The states of the allowed moves of ms, in the order of ms. */
  function Gather(s: MCState, ms: seq<(int, int)>): (sucs: seq<MCState>)
    ensures |sucs| <= |ms|
    ensures forall t :: t in sucs <==> exists k :: 0 <= k < |ms| && Allowed(s, ms[k]) && t == Apply(s, ms[k])
  {
    if ms == [] then []
    else
      var rest := Gather(s, ms[1..]);
      assert forall k :: 1 <= k < |ms| ==> ms[k] == ms[1..][k - 1];
      (if Allowed(s, ms[0]) then [Apply(s, ms[0])] else []) + rest
  }

  /** The list `sucs` that `successors` builds before filtering. */
  function Candidates(s: MCState): (sucs: seq<MCState>)
    ensures |sucs| <= 5
  {
    Gather(s, Moves)
  }

  /** `[x for x in sucs if x.is_legal]`. */
  function FilterLegal(sucs: seq<MCState>): (r: seq<MCState>)
    ensures |r| <= |sucs|
    ensures forall x :: x in r <==> x in sucs && IsLegal(x)
  {
    if sucs == [] then []
    else (if IsLegal(sucs[0]) then [sucs[0]] else []) + FilterLegal(sucs[1..])
  }

  /** `successors()`. */
  function Successors(s: MCState): (r: seq<MCState>)
    ensures |r| <= 5
    ensures forall x :: x in r <==> x in Candidates(s) && IsLegal(x)
  {
    FilterLegal(Candidates(s))
  }

  /** A move across the river: the boat changes bank and carries one or two people from its own bank. */
  predicate Crossing(s: MCState, t: MCState)
  {
    var dm := s.wm - t.wm;
    var dc := s.wc - t.wc;
    && t.boat == !s.boat
    && Balanced(t)
    && (if s.boat then 0 <= dm && 0 <= dc else dm <= 0 && dc <= 0)
    && 1 <= Abs(dm) + Abs(dc) <= 2
  }

  function Abs(x: int): nat
  {
    if x < 0 then -x else x
  }

  /** An allowed move is a crossing, and keeps a state within range. */
  lemma MoveIsCrossing(s: MCState, k: int)
    requires 0 <= k < |Moves| && Allowed(s, Moves[k])
    ensures Crossing(s, Apply(s, Moves[k]))
    ensures Balanced(s) && InRange(s) ==> InRange(Apply(s, Moves[k]))
  {
    var mv := Moves[k];
    assert mv.0 >= 0 && mv.1 >= 0 && 1 <= mv.0 + mv.1 <= 2;
  }

  /** Every successor is legal and is one crossing away. */
  lemma SuccessorsAreCrossings(s: MCState)
    ensures forall t | t in Successors(s) :: IsLegal(t) && Crossing(s, t)
  {
    forall t | t in Successors(s) ensures Crossing(s, t) {
      var k :| 0 <= k < |Moves| && Allowed(s, Moves[k]) && t == Apply(s, Moves[k]);
      MoveIsCrossing(s, k);
    }
  }

  /** From a state within range, every successor stays within range. */
  lemma SuccessorsInRange(s: MCState)
    requires Balanced(s) && InRange(s)
    ensures forall t | t in Successors(s) :: InRange(t)
  {
    forall t | t in Successors(s) ensures InRange(t) {
      var k :| 0 <= k < |Moves| && Allowed(s, Moves[k]) && t == Apply(s, Moves[k]);
      MoveIsCrossing(s, k);
    }
  }

  /** Conversely, every legal crossing that keeps the counts in range is offered. */
  lemma CrossingsAreSuccessors(s: MCState, t: MCState)
    requires Balanced(s) && InRange(s)
    requires Crossing(s, t) && InRange(t) && IsLegal(t)
    ensures t in Successors(s)
  {
    var mv := if s.boat then (s.wm - t.wm, s.wc - t.wc) else (t.wm - s.wm, t.wc - s.wc);
    assert t == Apply(s, mv);
    assert mv in Moves;
    var k :| 0 <= k < |Moves| && Moves[k] == mv;
  }

  // ---------------------------------------------------------------------
  // Solving the puzzle with bfs

  /** All balanced states with counts in range. */
  function States(): set<MCState>
  {
    set wm: int, wc: int, boat: bool | 0 <= wm <= MaxNum && 0 <= wc <= MaxNum :: NewState(wm, wc, boat)
  }

  lemma StatesMembers()
    ensures forall s :: s in States() <==> Balanced(s) && InRange(s)
  {
    forall s | Balanced(s) && InRange(s) ensures s in States() {
      assert s == NewState(s.wm, s.wc, s.boat);
    }
  }

  /** The states form a finite universe closed under successors. */
  lemma StatesClosed()
    ensures NewState(MaxNum, MaxNum, true) in States()
    ensures GenericSearch.Closed(Successors, States())
  {
    StatesMembers();
    forall s | s in States() ensures forall t | t in Successors(s) :: t in States() {
      SuccessorsInRange(s);
    }
  }

  /** A crossing plan in eleven trips. */
  lemma SolutionExists()
    ensures GenericSearch.PathFrom(Successors, NewState(MaxNum, MaxNum, true),
      [NewState(3, 3, true), NewState(3, 1, false), NewState(3, 2, true), NewState(3, 0, false),
       NewState(3, 1, true), NewState(1, 1, false), NewState(2, 2, true), NewState(0, 2, false),
       NewState(0, 3, true), NewState(0, 1, false), NewState(1, 1, true), NewState(0, 0, false)])
  {
    var p := [NewState(3, 3, true), NewState(3, 1, false), NewState(3, 2, true), NewState(3, 0, false),
              NewState(3, 1, true), NewState(1, 1, false), NewState(2, 2, true), NewState(0, 2, false),
              NewState(0, 3, true), NewState(0, 1, false), NewState(1, 1, true), NewState(0, 0, false)];
    forall i | 0 <= i < |p| - 1 ensures p[i + 1] in Successors(p[i]) {
      CrossingsAreSuccessors(p[i], p[i + 1]);
    }
  }

  /**
   * The demo's search: bfs from everyone on the west bank with the boat
   * there. It finds a crossing plan, and no plan has fewer trips.
   */
  method Solve() returns (solution: Node)
    ensures GoalTest(solution.state)
    ensures GenericSearch.PathFrom(Successors, NewState(MaxNum, MaxNum, true), GenericSearch.Path(solution))
    ensures forall p | GenericSearch.PathFrom(Successors, NewState(MaxNum, MaxNum, true), p) && GoalTest(p[|p| - 1]) ::
      |GenericSearch.Path(solution)| <= |p|
  {
    var start := NewState(MaxNum, MaxNum, true);
    StatesClosed();
    var result, _ := GenericSearch.Bfs(start, GoalTest, Successors, States());
    if result.None? {
      SolutionExists();
      assert false;
    }
    solution := result.value;
  }

  type Node = GenericSearch.Node<MCState>
}
