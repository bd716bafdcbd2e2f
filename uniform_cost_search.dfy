/**
  Generic breadth-first ("uniform cost", every step costs one) search for a
  shortest path to a goal state (UniformCostSearch.h).

  The search keeps a FIFO frontier of partial paths and a list of explored
  states.  A state is marked explored when it is discovered, not when it is
  expanded, and the explored list starts empty: the start state is not in
  it, so the start can be rediscovered once as a successor of a neighbour.
*/
module UniformCostSearch {

  /**
    The two capabilities the search asks of its caller (the abstract
    `SearchHelper`): a goal test and the successors of a state, in order.
  */
  datatype SearchHelper<!State> = SearchHelper(isGoal: State -> bool, getSuccessors: State -> seq<State>)

  function Last<T>(p: seq<T>): T
    requires |p| > 0
  {
    p[|p| - 1]
  }

  /** `p` starts at `start` and each later state is a successor of the one before it. */
  ghost predicate IsPathFrom<State>(succ: State -> seq<State>, start: State, p: seq<State>) {
    |p| >= 1 && p[0] == start && forall i :: 1 <= i < |p| ==> p[i] in succ(p[i - 1])
  }

  /** The states reachable from `start` in at most `n` steps. */
  ghost function Reach<State>(succ: State -> seq<State>, start: State, n: nat): set<State>
  {
    if n == 0 then {start}
    else
      var r := Reach(succ, start, n - 1);
      r + set s, t | s in r && t in succ(s) :: t
  }

  lemma {:induction false} ReachMonotone<State>(succ: State -> seq<State>, start: State, m: nat, n: nat)
    requires m <= n
    ensures Reach(succ, start, m) <= Reach(succ, start, n)
    decreases n
  {
    if m < n {
      ReachMonotone(succ, start, m, n - 1);
    }
  }

  /** The end of a path with `k` steps is reachable in `k` steps. */
  lemma {:induction false} PathEndReached<State>(succ: State -> seq<State>, start: State, p: seq<State>)
    requires IsPathFrom(succ, start, p)
    ensures Last(p) in Reach(succ, start, |p| - 1)
    decreases |p|
  {
    if |p| > 1 {
      var q := p[..|p| - 1];
      assert IsPathFrom(succ, start, q) by {
        forall i | 1 <= i < |q| ensures q[i] in succ(q[i - 1]) {
          assert q[i] == p[i] && q[i - 1] == p[i - 1];
        }
      }
      PathEndReached(succ, start, q);
      assert Last(p) in succ(Last(q));
    }
  }

  /** A set that holds `start` and every successor of its members holds everything reachable. */
  lemma {:induction false} ClosedSetHoldsReach<State>(succ: State -> seq<State>, start: State, d: set<State>, n: nat)
    requires start in d
    requires forall x :: x in d ==> Expanded(succ, d, x)
    ensures Reach(succ, start, n) <= d
  {
    if n > 0 {
      ClosedSetHoldsReach(succ, start, d, n - 1);
      forall t | t in Reach(succ, start, n) ensures t in d {
        var r := Reach(succ, start, n - 1);
        if t !in r {
          var s :| s in r && t in succ(s);
          assert Expanded(succ, d, s);
        }
      }
    }
  }

  /** Every successor of `x` is in `d`. */
  ghost predicate Expanded<State>(succ: State -> seq<State>, d: set<State>, x: State) {
    forall t :: t in succ(x) ==> t in d
  }

  /**
    Some path of the frontier ends in `x`, and (unless it is the start's
    own path) `x` is not reachable in fewer steps than that path has.
  */
  ghost predicate Pending<State>(succ: State -> seq<State>, start: State, frontier: seq<seq<State>>, x: State) {
    exists i :: 0 <= i < |frontier| && PendingAt(succ, start, frontier[i], x)
  }

  ghost predicate PendingAt<State>(succ: State -> seq<State>, start: State, q: seq<State>, x: State) {
    |q| >= 1 && Last(q) == x && (|q| >= 2 ==> x !in Reach(succ, start, |q| - 2))
  }

  lemma PendingAfterPop<State>(succ: State -> seq<State>, start: State, frontier: seq<seq<State>>, x: State)
    requires frontier != [] && Pending(succ, start, frontier, x)
    ensures PendingAt(succ, start, frontier[0], x) || Pending(succ, start, frontier[1..], x)
  {
    var i :| 0 <= i < |frontier| && PendingAt(succ, start, frontier[i], x);
    if i > 0 {
      assert frontier[1..][i - 1] == frontier[i];
    }
  }

  lemma PendingAfterPush<State>(succ: State -> seq<State>, start: State, frontier: seq<seq<State>>, q: seq<State>, x: State)
    requires Pending(succ, start, frontier, x) || PendingAt(succ, start, q, x)
    ensures Pending(succ, start, frontier + [q], x)
  {
    if PendingAt(succ, start, q, x) {
      assert (frontier + [q])[|frontier|] == q;
    } else {
      var i :| 0 <= i < |frontier| && PendingAt(succ, start, frontier[i], x);
      assert (frontier + [q])[i] == frontier[i];
    }
  }

  /**
    When everything within `L - 1` steps is discovered, every discovered
    state is expanded or pending, and every frontier path has more than `L`
    states, then everything within `L` steps is discovered too.
  */
  lemma AdvanceLevel<State>(succ: State -> seq<State>, start: State, d: set<State>, frontier: seq<seq<State>>, L: nat)
    requires L >= 1
    requires Reach(succ, start, L - 1) <= d
    requires forall x :: x in d ==> Expanded(succ, d, x) || Pending(succ, start, frontier, x)
    requires forall i :: 0 <= i < |frontier| ==> |frontier[i]| >= L + 1
    ensures Reach(succ, start, L) <= d
  {
    var r := Reach(succ, start, L - 1);
    forall t | t in Reach(succ, start, L) ensures t in d {
      if t !in r {
        var s :| s in r && t in succ(s);
        if !Expanded(succ, d, s) {
          var i :| 0 <= i < |frontier| && PendingAt(succ, start, frontier[i], s);
          ReachMonotone(succ, start, L - 1, |frontier[i]| - 2);
          assert false;
        }
      }
    }
  }

  /** Every discovered state is expanded, pending in the frontier, or the state `s` now being expanded. */
  ghost predicate Covered<State>(succ: State -> seq<State>, start: State, d: set<State>, frontier: seq<seq<State>>, s: State) {
    forall x :: x in d ==> Expanded(succ, d, x) || Pending(succ, start, frontier, x) || x == s
  }

  /** Popping the front path leaves its last state as the one being expanded. */
  lemma PopKeepsCovered<State>(succ: State -> seq<State>, start: State, d: set<State>, frontier: seq<seq<State>>)
    requires frontier != [] && |frontier[0]| >= 1
    requires forall x :: x in d ==> Expanded(succ, d, x) || Pending(succ, start, frontier, x)
    ensures Covered(succ, start, d, frontier[1..], Last(frontier[0]))
  {
    forall x | x in d && !Expanded(succ, d, x)
      ensures Pending(succ, start, frontier[1..], x) || x == Last(frontier[0])
    {
      PendingAfterPop(succ, start, frontier, x);
    }
  }

  /**
    Discovering `t` and pushing the path `q` to it keeps every discovered
    state covered: a newly discovered `t` lies outside everything reachable
    in `|q| - 2` steps, so `q` is a shortest path to it.
  */
  lemma PushKeepsCovered<State>(succ: State -> seq<State>, start: State, d: set<State>, frontier: seq<seq<State>>,
                                s: State, q: seq<State>, t: State)
    requires Covered(succ, start, d, frontier, s)
    requires |q| >= 2 && Last(q) == t
    requires Reach(succ, start, |q| - 2) <= d
    ensures Covered(succ, start, d + {t}, frontier + [q], s)
  {
    forall x | x in d + {t} && !Expanded(succ, d + {t}, x) && x != s
      ensures Pending(succ, start, frontier + [q], x)
    {
      if x in d && !(x == t && t !in d) {
        PendingAfterPush(succ, start, frontier, q, x);
      } else {
        assert PendingAt(succ, start, q, x);
        PendingAfterPush(succ, start, frontier, q, x);
      }
    }
  }

  /**
    Once `s` is expanded, every discovered state is expanded or pending, and
    the new front path (of `L` or `L + 1` states) has all states within one
    step fewer discovered.
  */
  lemma FinishExpansion<State>(succ: State -> seq<State>, start: State, d: set<State>, frontier: seq<seq<State>>,
                               s: State, L: nat)
    requires L >= 1
    requires Covered(succ, start, d, frontier, s) && Expanded(succ, d, s)
    requires forall i :: 0 <= i < |frontier| ==> L <= |frontier[i]| <= L + 1
    requires forall i, j :: 0 <= i < j < |frontier| ==> |frontier[i]| <= |frontier[j]|
    requires Reach(succ, start, L - 1) <= d
    ensures forall x :: x in d ==> Expanded(succ, d, x) || Pending(succ, start, frontier, x)
    ensures frontier != [] ==> Reach(succ, start, |frontier[0]| - 1) <= d
  {
    if frontier != [] && |frontier[0]| == L + 1 {
      AdvanceLevel(succ, start, d, frontier, L);
    }
  }

  /** No goal within `n` steps means every path to a goal has more than `n + 1` states. */
  lemma NoShorterGoalPath<State>(helper: SearchHelper<State>, start: State, d: set<State>, n: nat)
    requires Reach(helper.getSuccessors, start, n) <= d
    requires forall x :: x in d ==> !helper.isGoal(x)
    ensures forall p :: IsPathFrom(helper.getSuccessors, start, p) && helper.isGoal(Last(p)) ==> |p| > n + 1
  {
    forall p | IsPathFrom(helper.getSuccessors, start, p) && helper.isGoal(Last(p))
      ensures |p| > n + 1
    {
      if |p| <= n + 1 {
        PathEndReached(helper.getSuccessors, start, p);
        ReachMonotone(helper.getSuccessors, start, |p| - 1, n);
      }
    }
  }

  /** A successor-closed set without goals that holds the start: no path reaches a goal. */
  lemma ClosedNoGoalPath<State>(helper: SearchHelper<State>, start: State, d: set<State>)
    requires start in d
    requires forall x :: x in d ==> Expanded(helper.getSuccessors, d, x)
    requires forall x :: x in d ==> !helper.isGoal(x)
    ensures forall p :: IsPathFrom(helper.getSuccessors, start, p) ==> !helper.isGoal(Last(p))
  {
    forall p | IsPathFrom(helper.getSuccessors, start, p)
      ensures !helper.isGoal(Last(p))
    {
      PathEndReached(helper.getSuccessors, start, p);
      ClosedSetHoldsReach(helper.getSuccessors, start, d, |p| - 1);
    }
  }

  /** The states of `explored`. */
  ghost function Elems<State>(explored: seq<State>): set<State> {
    set x | x in explored
  }

  /** Discovered states: the start and everything marked explored. */
  ghost function Discovered<State>(start: State, explored: seq<State>): set<State> {
    Elems(explored) + {start}
  }

  /**
    What holds of the search state between steps: discovered states stay in
    the universe and are no goals, `explored` has no duplicates, every
    frontier entry is a path from the start to a discovered state, and the
    frontier is ordered by length with lengths between `lo` and `hi`.
  */
  ghost predicate SearchInvariant<State>(helper: SearchHelper<State>, start: State, universe: set<State>,
                                         explored: seq<State>, frontier: seq<seq<State>>, lo: nat, hi: nat) {
    && Discovered(start, explored) <= universe
    && (forall x :: x in Discovered(start, explored) ==> !helper.isGoal(x))
    && (forall i, j :: 0 <= i < j < |explored| ==> explored[i] != explored[j])
    && (forall k :: 0 <= k < |frontier| ==>
          IsPathFrom(helper.getSuccessors, start, frontier[k]) && Last(frontier[k]) in Discovered(start, explored))
    && (forall i, j :: 0 <= i < j < |frontier| ==> |frontier[i]| <= |frontier[j]|)
    && (forall k :: 0 <= k < |frontier| ==> lo <= |frontier[k]| <= hi)
  }

  /** `universe` holds the start and every successor of its members. */
  ghost predicate ClosedUniverse<State>(helper: SearchHelper<State>, start: State, universe: set<State>) {
    start in universe && forall s, t :: s in universe && t in helper.getSuccessors(s) ==> t in universe
  }

  /** Marking `t` explored adds exactly `t` to the discovered states. */
  lemma DiscoverOne<State>(start: State, explored: seq<State>, t: State)
    ensures Elems(explored + [t]) == Elems(explored) + {t}
    ensures Discovered(start, explored + [t]) == Discovered(start, explored) + {t}
  {
  }

  /**
    One step of the inner loop that discovers a non-goal successor `t` of
    the path's last state: marking it explored and pushing the extended path
    keeps the invariant, the coverage, and the level bound.
  */
  lemma PushStep<State>(helper: SearchHelper<State>, start: State, universe: set<State>,
                        path: seq<State>, explored: seq<State>, frontier: seq<seq<State>>, t: State)
    requires ClosedUniverse(helper, start, universe)
    requires IsPathFrom(helper.getSuccessors, start, path)
    requires SearchInvariant(helper, start, universe, explored, frontier, |path|, |path| + 1)
    requires Last(path) in Discovered(start, explored)
    requires Reach(helper.getSuccessors, start, |path| - 1) <= Discovered(start, explored)
    requires Covered(helper.getSuccessors, start, Discovered(start, explored), frontier, Last(path))
    requires t in helper.getSuccessors(Last(path)) && t !in explored && !helper.isGoal(t)
    ensures SearchInvariant(helper, start, universe, explored + [t], frontier + [path + [t]], |path|, |path| + 1)
    ensures Covered(helper.getSuccessors, start, Discovered(start, explored + [t]), frontier + [path + [t]], Last(path))
    ensures Discovered(start, explored) <= Discovered(start, explored + [t])
    ensures Elems(explored) < Elems(explored + [t])
  {
    var succ := helper.getSuccessors;
    var e, q := explored + [t], path + [t];
    DiscoverOne(start, explored, t);
    assert IsPathFrom(succ, start, q);
    assert t in universe;
    PushKeepsCovered(succ, start, Discovered(start, explored), frontier, Last(path), q, t);
    assert t in Elems(e) - Elems(explored);
  }

  /** The inner loop found a goal `t` one step beyond `path`: the extended path is a shortest path to a goal. */
  lemma GoalStep<State>(helper: SearchHelper<State>, start: State, d: set<State>, path: seq<State>, t: State)
    requires IsPathFrom(helper.getSuccessors, start, path)
    requires Reach(helper.getSuccessors, start, |path| - 1) <= d
    requires forall x :: x in d ==> !helper.isGoal(x)
    requires t in helper.getSuccessors(Last(path)) && helper.isGoal(t)
    ensures IsPathFrom(helper.getSuccessors, start, path + [t]) && Last(path + [t]) == t
    ensures forall p :: IsPathFrom(helper.getSuccessors, start, p) && helper.isGoal(Last(p)) ==> |path + [t]| <= |p|
  {
    assert IsPathFrom(helper.getSuccessors, start, path + [t]);
    NoShorterGoalPath(helper, start, d, |path| - 1);
  }

  /**
    The inner loop of `findShortestPathToGoal`: walks the successors of the
    last state of `path` in order; each one not yet explored is marked
    explored and, extended onto `path`, either returned at once when it is a
    goal or pushed onto the frontier.  A returned path is a shortest path to
    a goal; otherwise the expanded state has all its successors discovered.
  */
  method ExploreSuccessors<State(==)>(helper: SearchHelper<State>, start: State, ghost universe: set<State>,
                                      path: seq<State>, explored: seq<State>, frontier: seq<seq<State>>)
    returns (goalPath: seq<State>, explored': seq<State>, frontier': seq<seq<State>>)
    requires ClosedUniverse(helper, start, universe)
    requires IsPathFrom(helper.getSuccessors, start, path)
    requires SearchInvariant(helper, start, universe, explored, frontier, |path|, |path| + 1)
    requires Last(path) in Discovered(start, explored)
    requires Reach(helper.getSuccessors, start, |path| - 1) <= Discovered(start, explored)
    requires Covered(helper.getSuccessors, start, Discovered(start, explored), frontier, Last(path))
    ensures goalPath != [] ==>
      && IsPathFrom(helper.getSuccessors, start, goalPath) && helper.isGoal(Last(goalPath))
      && |goalPath| == |path| + 1
      && forall p :: IsPathFrom(helper.getSuccessors, start, p) && helper.isGoal(Last(p)) ==> |goalPath| <= |p|
    ensures goalPath == [] ==>
      var d := Discovered(start, explored');
      && SearchInvariant(helper, start, universe, explored', frontier', |path|, |path| + 1)
      && Reach(helper.getSuccessors, start, |path| - 1) <= d
      && Covered(helper.getSuccessors, start, d, frontier', Last(path))
      && Expanded(helper.getSuccessors, d, Last(path))
      && ((explored' == explored && frontier' == frontier) || Elems(explored) < Elems(explored'))
  {
    ghost var succ := helper.getSuccessors;
    ghost var L := |path|;
    ghost var discovered0 := Discovered(start, explored);
    var s := Last(path);
    var successors := helper.getSuccessors(s);
    explored', frontier' := explored, frontier;
    var i := 0;
    while i < |successors|
      invariant 0 <= i <= |successors|
      invariant SearchInvariant(helper, start, universe, explored', frontier', L, L + 1)
      invariant Reach(succ, start, L - 1) <= discovered0 <= Discovered(start, explored')
      invariant Covered(succ, start, Discovered(start, explored'), frontier', s)
      invariant forall j :: 0 <= j < i ==> successors[j] in Discovered(start, explored')
      invariant (explored' == explored && frontier' == frontier) || Elems(explored) < Elems(explored')
    {
      var state := successors[i];
      if state !in explored' {
        if helper.isGoal(state) {
          GoalStep(helper, start, discovered0, path, state);
          explored' := explored' + [state];
          return path + [state], explored', frontier';
        }
        PushStep(helper, start, universe, path, explored', frontier', state);
        explored' := explored' + [state];
        frontier' := frontier' + [path + [state]];
      }
      i := i + 1;
    }
    goalPath := [];
  }

  /**
    `findShortestPathToGoal`.  The result is `[start]` when the start is a
    goal; otherwise it is a path from the start to a goal with as few states
    as any such path, or empty exactly when no path reaches a goal.

    `universe` is a finite set of states, closed under successors, that holds
    the start: it bounds the number of states that can be explored, so the
    search terminates.
  */
  method FindShortestPathToGoal<State(==)>(start: State, helper: SearchHelper<State>, ghost universe: set<State>)
    returns (result: seq<State>)
    requires start in universe
    requires forall s, t :: s in universe && t in helper.getSuccessors(s) ==> t in universe
    ensures helper.isGoal(start) ==> result == [start]
    ensures result != [] ==> IsPathFrom(helper.getSuccessors, start, result) && helper.isGoal(Last(result))
    ensures result != [] ==>
      forall p :: IsPathFrom(helper.getSuccessors, start, p) && helper.isGoal(Last(p)) ==> |result| <= |p|
    ensures result == [] <==>
      forall p :: IsPathFrom(helper.getSuccessors, start, p) ==> !helper.isGoal(Last(p))
  {
    if helper.isGoal(start) {
      return [start];
    }
    ghost var succ := helper.getSuccessors;
    var explored: seq<State> := [];
    var frontier: seq<seq<State>> := [[start]];
    assert PendingAt(succ, start, frontier[0], start);
    assert Discovered(start, explored) == {start};

    while frontier != []
      invariant frontier != [] ==> SearchInvariant(helper, start, universe, explored, frontier, |frontier[0]|, |frontier[0]| + 1)
      invariant frontier == [] ==> SearchInvariant(helper, start, universe, explored, frontier, 0, 0)
      invariant frontier != [] ==> Reach(succ, start, |frontier[0]| - 1) <= Discovered(start, explored)
      invariant forall x :: x in Discovered(start, explored) ==>
        Expanded(succ, Discovered(start, explored), x) || Pending(succ, start, frontier, x)
      decreases universe - Elems(explored), |frontier|
    {
      var path := frontier[0];
      PopKeepsCovered(succ, start, Discovered(start, explored), frontier);
      frontier := frontier[1..];
      var goalPath, explored', frontier' := ExploreSuccessors(helper, start, universe, path, explored, frontier);
      if goalPath != [] {
        return goalPath;
      }
      FinishExpansion(succ, start, Discovered(start, explored'), frontier', Last(path), |path|);
      explored, frontier := explored', frontier';
    }
    ClosedNoGoalPath(helper, start, Discovered(start, explored));
    result := [];
  }
}
