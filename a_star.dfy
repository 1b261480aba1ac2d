/**
 * aStarShortestPath: best-first search from a start position to a goal,
 * with a g-score per position, the position each one was last reached from
 * (came_from), the set of positions already expanded and a priority queue
 * ordered by f = g + heuristic.
 *
 * Positions are the numbers 0 .. n - 1 (hashing and equality of the
 * position type become equality of numbers), weights and heuristic values
 * are natural numbers, and the heuristic and the neighbour lists are given
 * functions. The result lists the path goal first, start last.
 */
module AStar {
  import opened Wrappers

  /** A queued position with its f-score. */
  datatype Entry = Entry(pos: nat, f: nat)

  /** The neighbours of a position, each with the distance to it. */
  type Neighbours = nat -> seq<(nat, nat)>

  /** The search state: queue, expanded positions, g-scores and came_from (None: no entry). */
  datatype Search = Search(heap: seq<Entry>, visited: set<nat>, g: seq<Option<nat>>, cameFrom: seq<Option<nat>>)

  /** Every neighbour of a position is a position. */
  predicate NeighboursIn(nb: Neighbours, n: nat) {
    forall u, i :: 0 <= u < n && 0 <= i < |nb(u)| ==> nb(u)[i].0 < n
  }

  /** v is listed among the neighbours of u. */
  predicate IsEdge(nb: Neighbours, u: nat, v: nat) {
    exists i :: 0 <= i < |nb(u)| && nb(u)[i].0 == v
  }

  /** Each position of p is listed among the neighbours of the one before it. */
  ghost predicate IsWalk(nb: Neighbours, p: seq<nat>) {
    forall i :: 0 <= i < |p| - 1 ==> IsEdge(nb, p[i], p[i + 1])
  }

  /** goal can be reached from start by following neighbour lists, in any number of steps. */
  ghost predicate Reachable(nb: Neighbours, start: nat, goal: nat) {
    exists p: seq<nat> :: |p| > 0 && p[0] == start && p[|p| - 1] == goal && IsWalk(nb, p)
  }

  /** x is the position of some queued entry. */
  predicate InHeap(heap: seq<Entry>, x: nat) {
    exists i :: 0 <= i < |heap| && heap[i].pos == x
  }

  /** Every position with a g-score has been expanded or is still queued. */
  predicate ScoredQueued(s: Search) {
    forall x :: 0 <= x < |s.g| && s.g[x].Some? ==> x in s.visited || InHeap(s.heap, x)
  }

  /** Every expanded position is a position, and all its neighbours have a g-score. */
  predicate Closed(s: Search, nb: Neighbours) {
    forall x :: x in s.visited ==>
      x < |s.g| && forall i :: 0 <= i < |nb(x)| ==> nb(x)[i].0 < |s.g| && s.g[nb(x)[i].0].Some?
  }

  /** The position the priority queue hands out: the first entry of least f-score. */
  function MinIndex(heap: seq<Entry>): (k: nat)
    requires heap != []
    ensures k < |heap|
    ensures forall i :: 0 <= i < |heap| ==> heap[k].f <= heap[i].f
  {
    if |heap| == 1 then 0
    else
      var k := MinIndex(heap[1..]) + 1;
      if heap[0].f <= heap[k].f then 0 else k
  }

  /** Reaching v from u with distance w beats v's g-score (a missing score is infinite). */
  predicate Improves(s: Search, u: nat, v: nat, w: nat)
    requires u < |s.g| && v < |s.g| && s.g[u].Some?
  {
    s.g[v].None? || s.g[u].value + w < s.g[v].value
  }

  /**
   * One neighbour (v, w) of the expanded position u: when the new g-score
   * is better, came_from[v] becomes u, g[v] the new score, and v is queued
   * unless it was already expanded.
   */
  function Relax(s: Search, u: nat, v: nat, w: nat, h: nat -> nat): (r: Search)
    requires |s.g| == |s.cameFrom| && u < |s.g| && v < |s.g| && s.g[u].Some?
    ensures |r.g| == |s.g| && |r.cameFrom| == |s.cameFrom| && r.visited == s.visited
  {
    if Improves(s, u, v, w) then
      var newG := s.g[u].value + w;
      Search(s.heap + (if v in s.visited then [] else [Entry(v, newG + h(v))]),
             s.visited, s.g[v := Some(newG)], s.cameFrom[v := Some(u)])
    else s
  }

  /**
   * A g-score only ever goes from missing to present or strictly down;
   * came_from changes exactly with it (at v, to u); nothing else changes.
   */
  lemma RelaxOnlyImproves(s: Search, u: nat, v: nat, w: nat, h: nat -> nat)
    requires |s.g| == |s.cameFrom| && u < |s.g| && v < |s.g| && s.g[u].Some?
    ensures var r := Relax(s, u, v, w, h);
      forall x :: 0 <= x < |s.g| && s.g[x].Some? ==> r.g[x].Some? && r.g[x].value <= s.g[x].value
    ensures var r := Relax(s, u, v, w, h);
      r.g != s.g <==> Improves(s, u, v, w)
    ensures var r := Relax(s, u, v, w, h);
      r.g != s.g ==> r.cameFrom == s.cameFrom[v := Some(u)] && r.g == s.g[v := Some(s.g[u].value + w)]
    ensures Relax(s, u, v, w, h).g == s.g ==> Relax(s, u, v, w, h) == s
    ensures Relax(s, u, v, w, h).g[v].Some?
  {
    if Improves(s, u, v, w) {
      assert Relax(s, u, v, w, h).g[v] != s.g[v];
    }
  }

  /** An expanded position is never queued again, and queued entries stay. */
  lemma RelaxNeverQueuesVisited(s: Search, u: nat, v: nat, w: nat, h: nat -> nat)
    requires |s.g| == |s.cameFrom| && u < |s.g| && v < |s.g| && s.g[u].Some?
    ensures var r := Relax(s, u, v, w, h);
      |s.heap| <= |r.heap| <= |s.heap| + 1 && r.heap[..|s.heap|] == s.heap &&
      (forall i :: |s.heap| <= i < |r.heap| ==> r.heap[i].pos == v && v !in s.visited)
  {
  }

  /** A relaxation keeps every scored position expanded or queued. */
  lemma RelaxKeepsQueued(s: Search, u: nat, v: nat, w: nat, h: nat -> nat)
    requires |s.g| == |s.cameFrom| && u < |s.g| && v < |s.g| && s.g[u].Some?
    requires ScoredQueued(s)
    ensures ScoredQueued(Relax(s, u, v, w, h))
  {
    var r := Relax(s, u, v, w, h);
    RelaxNeverQueuesVisited(s, u, v, w, h);
    forall x | 0 <= x < |r.g| && r.g[x].Some? ensures x in r.visited || InHeap(r.heap, x) {
      if x == v && Improves(s, u, v, w) {
        if v !in s.visited {
          assert r.heap[|s.heap|].pos == v;
        }
      } else {
        assert s.g[x].Some?;
        if x !in s.visited {
          var i :| 0 <= i < |s.heap| && s.heap[i].pos == x;
          assert r.heap[i] == s.heap[i];
        }
      }
    }
  }

  /** The number of positions without a g-score. */
  function Absent(g: seq<Option<nat>>): nat {
    if g == [] then 0 else (if g[0].None? then 1 else 0) + Absent(g[1..])
  }

  /** The sum of the g-scores present. */
  function SumG(g: seq<Option<nat>>): nat {
    if g == [] then 0 else (if g[0].Some? then g[0].value else 0) + SumG(g[1..])
  }

  /** Giving a score to a position that had none removes one missing score. */
  lemma {:induction false} AbsentOfNewScore(g: seq<Option<nat>>, v: nat, x: nat)
    requires v < |g| && g[v].None?
    ensures Absent(g[v := Some(x)]) + 1 == Absent(g)
  {
    if v > 0 {
      assert g[v := Some(x)][1..] == g[1..][v - 1 := Some(x)];
      AbsentOfNewScore(g[1..], v - 1, x);
    }
  }

  /** Lowering a score keeps the missing ones and lowers the sum. */
  lemma {:induction false} LowerScore(g: seq<Option<nat>>, v: nat, x: nat)
    requires v < |g| && g[v].Some? && x < g[v].value
    ensures Absent(g[v := Some(x)]) == Absent(g)
    ensures SumG(g[v := Some(x)]) < SumG(g)
  {
    if v > 0 {
      assert g[v := Some(x)][1..] == g[1..][v - 1 := Some(x)];
      LowerScore(g[1..], v - 1, x);
    }
  }

  /** (Absent, SumG) is lexicographically below. */
  predicate LexLess(a: nat, s: nat, a0: nat, s0: nat) {
    a < a0 || (a == a0 && s < s0)
  }

  /** An improving relaxation lowers (Absent, SumG): the search cannot improve forever. */
  lemma RelaxDecreases(s: Search, u: nat, v: nat, w: nat, h: nat -> nat)
    requires |s.g| == |s.cameFrom| && u < |s.g| && v < |s.g| && s.g[u].Some?
    requires Improves(s, u, v, w)
    ensures var r := Relax(s, u, v, w, h);
      LexLess(Absent(r.g), SumG(r.g), Absent(s.g), SumG(s.g))
  {
    if s.g[v].None? {
      AbsentOfNewScore(s.g, v, s.g[u].value + w);
    } else {
      LowerScore(s.g, v, s.g[u].value + w);
    }
  }

  /**
   * came_from[v] = u links v to one of u's neighbours, reached no later:
   * (g, stamp) is lexicographically smaller at u, where the ghost stamp of
   * a position is the step at which its score last improved.
   */
  predicate Parent(s: Search, nb: Neighbours, stamp: seq<nat>, v: nat)
    requires |s.g| == |s.cameFrom| == |stamp| && v < |s.g| && s.cameFrom[v].Some?
  {
    var u := s.cameFrom[v].value;
    u < |s.g| && s.g[v].Some? && s.g[u].Some? && IsEdge(nb, u, v) &&
    (s.g[u].value < s.g[v].value || (s.g[u].value == s.g[v].value && stamp[u] < stamp[v]))
  }

  /** What holds of the search state between two steps. */
  predicate Inv(s: Search, n: nat, start: nat, nb: Neighbours, stamp: seq<nat>, clock: nat) {
    |s.g| == n && |s.cameFrom| == n && |stamp| == n && start < n &&
    s.g[start] == Some(0) && s.cameFrom[start] == None &&
    (forall i :: 0 <= i < |s.heap| ==> s.heap[i].pos < n && s.g[s.heap[i].pos].Some?) &&
    (forall v :: 0 <= v < n && v != start && s.g[v].Some? ==> s.cameFrom[v].Some?) &&
    (forall v :: 0 <= v < n && s.cameFrom[v].Some? ==> Parent(s, nb, stamp, v)) &&
    (forall v :: 0 <= v < n ==> stamp[v] < clock)
  }

  /** The state aStarShortestPath starts from. */
  function InitialSearch(n: nat, start: nat, h: nat -> nat): (s: Search)
    requires start < n
    ensures |s.g| == n && s.g[start] == Some(0)
  {
    Search([Entry(start, h(start))], {}, seq(n, _ => None)[start := Some(0)], seq(n, _ => None))
  }

  /** The initial state satisfies the invariant. */
  lemma InitialSearchInv(n: nat, start: nat, h: nat -> nat, nb: Neighbours)
    requires start < n
    ensures Inv(InitialSearch(n, start, h), n, start, nb, seq(n, _ => 0), 1)
    ensures ScoredQueued(InitialSearch(n, start, h)) && InitialSearch(n, start, h).visited == {}
  {
    var s := InitialSearch(n, start, h);
    assert s.heap[0].pos == start;
  }

  /** Relaxing an edge of an expanded position keeps the invariant, the stamp of v moving to the clock. */
  lemma RelaxKeepsInv(s: Search, n: nat, start: nat, nb: Neighbours, h: nat -> nat,
                      stamp: seq<nat>, clock: nat, u: nat, i: nat)
    requires Inv(s, n, start, nb, stamp, clock) && NeighboursIn(nb, n)
    requires u < n && s.g[u].Some? && i < |nb(u)|
    ensures var (v, w) := nb(u)[i];
      Inv(Relax(s, u, v, w, h), n, start, nb, if Improves(s, u, v, w) then stamp[v := clock] else stamp, clock + 1)
  {
    var (v, w) := nb(u)[i];
    if Improves(s, u, v, w) {
      var r := Relax(s, u, v, w, h);
      var stamp' := stamp[v := clock];
      assert v != start;
      assert u != v;
      assert IsEdge(nb, u, v);
      forall x | 0 <= x < n && r.cameFrom[x].Some? ensures Parent(r, nb, stamp', x) {
        if x != v {
          assert Parent(s, nb, stamp, x);
          var p := s.cameFrom[x].value;
          if p == v {
            assert r.g[v].value < s.g[v].value;
          }
        }
      }
    }
  }

  /** The neighbours of a position, as the unit-weight overload sees them: every distance is 1. */
  function UnitWeights(neighbours: seq<nat>): (r: seq<(nat, nat)>)
    ensures |r| == |neighbours|
    ensures forall i :: 0 <= i < |r| ==> r[i] == (neighbours[i], 1)
  {
    seq(|neighbours|, i requires 0 <= i < |neighbours| => (neighbours[i], 1))
  }

  /**
   * aStarShortestPath (weighted neighbours). A non-empty result starts with
   * the goal and ends with the start, each position in it is a neighbour of
   * the one after it, and when start and goal coincide the result is exactly
   * [start].
   */
  method AStarShortestPath(start: nat, goal: nat, n: nat, h: nat -> nat, nb: Neighbours) returns (path: seq<nat>)
    requires start < n && NeighboursIn(nb, n)
    ensures path == [] || (path[0] == goal && path[|path| - 1] == start)
    ensures forall i :: 0 <= i < |path| ==> path[i] < n
    ensures forall i :: 0 <= i < |path| - 1 ==> IsEdge(nb, path[i + 1], path[i])
    ensures start == goal ==> path == [start]
    ensures Reachable(nb, start, goal) ==> path != []
  {
    var s := InitialSearch(n, start, h);
    ghost var stamp: seq<nat> := seq(n, _ => 0);
    ghost var clock := 1;
    InitialSearchInv(n, start, h, nb);
    path := [];
    while s.heap != []
      invariant Inv(s, n, start, nb, stamp, clock)
      invariant path == []
      invariant start == goal ==> s.heap == [Entry(start, h(start))]
      invariant ScoredQueued(s) && Closed(s, nb) && goal !in s.visited
      decreases Absent(s.g), SumG(s.g), |s.heap|
    {
      var k := MinIndex(s.heap);
      var current := s.heap[k].pos;
      PopKeepsInv(s, n, start, nb, stamp, clock, k);
      PopKeepsQueued(s, k);
      ghost var before := s;
      s := Pop(s, k);
      if current == goal {
        path := ReconstructPath(s, n, start, nb, stamp, clock, current);
        break;
      }
      s, stamp, clock := Expand(s, n, start, nb, h, stamp, clock, current);
      ExpandCloses(before, s, nb, current);
    }
    if path == [] {
      ExhaustedSearchExpandedReachable(s, nb, start, goal);
    }
  }

  /** Taking the entry at k off the queue and marking its position expanded. */
  function Pop(s: Search, k: nat): (r: Search)
    requires k < |s.heap|
    ensures |r.heap| == |s.heap| - 1 && r.g == s.g && r.cameFrom == s.cameFrom
    ensures r.visited == s.visited + {s.heap[k].pos}
  {
    Search(s.heap[..k] + s.heap[k + 1..], s.visited + {s.heap[k].pos}, s.g, s.cameFrom)
  }

  /** Popping an entry keeps every scored position expanded or queued. */
  lemma PopKeepsQueued(s: Search, k: nat)
    requires k < |s.heap| && ScoredQueued(s)
    ensures ScoredQueued(Pop(s, k))
  {
    var r := Pop(s, k);
    forall x | 0 <= x < |r.g| && r.g[x].Some? && x !in r.visited ensures InHeap(r.heap, x) {
      var i :| 0 <= i < |s.heap| && s.heap[i].pos == x;
      if i < k {
        assert r.heap[i] == s.heap[i];
      } else {
        assert i != k;
        assert r.heap[i - 1] == s.heap[i];
      }
    }
  }

  /**
   * After `current` is popped and expanded, the expanded positions are closed
   * again: the earlier ones keep their neighbours' scores, and current's
   * neighbours have all been scored.
   */
  lemma ExpandCloses(before: Search, after: Search, nb: Neighbours, current: nat)
    requires Closed(before, nb) && |after.g| == |before.g| && current < |after.g|
    requires after.visited == before.visited + {current}
    requires forall x :: 0 <= x < |before.g| && before.g[x].Some? ==> after.g[x].Some?
    requires forall i :: 0 <= i < |nb(current)| ==> nb(current)[i].0 < |after.g| && after.g[nb(current)[i].0].Some?
    ensures Closed(after, nb)
  {
  }

  /** With the queue empty, the last position of a walk from a scored position is scored. */
  lemma {:induction false} WalkEndScored(s: Search, nb: Neighbours, p: seq<nat>)
    requires s.heap == [] && ScoredQueued(s) && Closed(s, nb)
    requires |p| > 0 && p[0] < |s.g| && s.g[p[0]].Some? && IsWalk(nb, p)
    ensures p[|p| - 1] < |s.g| && s.g[p[|p| - 1]].Some?
    decreases |p|
  {
    if |p| > 1 {
      var q := p[..|p| - 1];
      assert IsWalk(nb, q) by {
        forall i | 0 <= i < |q| - 1 ensures IsEdge(nb, q[i], q[i + 1]) {
          assert q[i] == p[i] && q[i + 1] == p[i + 1];
        }
      }
      WalkEndScored(s, nb, q);
      var x := p[|p| - 2];
      assert q[|q| - 1] == x;
      assert x in s.visited || InHeap(s.heap, x);
      assert IsEdge(nb, x, p[|p| - 1]);
      var i :| 0 <= i < |nb(x)| && nb(x)[i].0 == p[|p| - 1];
    }
  }

  /**
   * A search whose queue ran empty has expanded every position reachable
   * from the start.
   */
  lemma ExhaustedSearchExpandedReachable(s: Search, nb: Neighbours, start: nat, goal: nat)
    requires s.heap == [] && ScoredQueued(s) && Closed(s, nb)
    requires start < |s.g| && s.g[start].Some?
    ensures Reachable(nb, start, goal) ==> goal in s.visited
  {
    if Reachable(nb, start, goal) {
      var p: seq<nat> :| |p| > 0 && p[0] == start && p[|p| - 1] == goal && IsWalk(nb, p);
      WalkEndScored(s, nb, p);
      assert goal in s.visited || InHeap(s.heap, goal);
    }
  }

  /** Popping keeps the invariant, and the popped position has a score. */
  lemma PopKeepsInv(s: Search, n: nat, start: nat, nb: Neighbours, stamp: seq<nat>, clock: nat, k: nat)
    requires Inv(s, n, start, nb, stamp, clock) && k < |s.heap|
    ensures Inv(Pop(s, k), n, start, nb, stamp, clock)
    ensures s.heap[k].pos < n && s.g[s.heap[k].pos].Some?
  {
    var r := Pop(s, k);
    forall i | 0 <= i < |r.heap| ensures r.heap[i].pos < n && r.g[r.heap[i].pos].Some? {
      if i < k {
        assert r.heap[i] == s.heap[i];
      } else {
        assert r.heap[i] == s.heap[i + 1];
      }
    }
    forall v | 0 <= v < n && r.cameFrom[v].Some? ensures Parent(r, nb, stamp, v) {
      assert Parent(s, nb, stamp, v);
    }
  }

  /**
   * Expanding `current`: every neighbour is relaxed in turn. The state
   * satisfies the invariant again, and either (Absent, SumG) went down or
   * nothing changed.
   */
  method Expand(s: Search, n: nat, start: nat, nb: Neighbours, h: nat -> nat,
                ghost stamp: seq<nat>, ghost clock: nat, current: nat)
      returns (r: Search, ghost stamp': seq<nat>, ghost clock': nat)
    requires Inv(s, n, start, nb, stamp, clock) && NeighboursIn(nb, n)
    requires current < n && s.g[current].Some? && ScoredQueued(s)
    ensures Inv(r, n, start, nb, stamp', clock') && r.visited == s.visited
    ensures LexLess(Absent(r.g), SumG(r.g), Absent(s.g), SumG(s.g)) || r == s
    ensures ScoredQueued(r)
    ensures forall x :: 0 <= x < n && s.g[x].Some? ==> r.g[x].Some?
    ensures forall i :: 0 <= i < |nb(current)| ==> nb(current)[i].0 < n && r.g[nb(current)[i].0].Some?
  {
    var heap: seq<Entry> := s.heap;
    var visited: set<nat> := s.visited;
    var g: seq<Option<nat>> := s.g;
    var cameFrom: seq<Option<nat>> := s.cameFrom;
    stamp', clock' := stamp, clock;
    var neighbours := nb(current);
    for i := 0 to |neighbours|
      invariant Inv(Search(heap, visited, g, cameFrom), n, start, nb, stamp', clock')
      invariant g[current].Some? && visited == s.visited
      invariant LexLess(Absent(g), SumG(g), Absent(s.g), SumG(s.g)) || Search(heap, visited, g, cameFrom) == s
      invariant ScoredQueued(Search(heap, visited, g, cameFrom))
      invariant forall x :: 0 <= x < n && s.g[x].Some? ==> g[x].Some?
      invariant forall j :: 0 <= j < i ==> neighbours[j].0 < n && g[neighbours[j].0].Some?
    {
      var (v, w) := neighbours[i];
      ghost var before := Search(heap, visited, g, cameFrom);
      assert v < n;
      RelaxKeepsInv(before, n, start, nb, h, stamp', clock', current, i);
      RelaxKeepsQueued(before, current, v, w, h);
      RelaxOnlyImproves(before, current, v, w, h);
      if Improves(before, current, v, w) {
        RelaxDecreases(before, current, v, w, h);
        stamp' := stamp'[v := clock'];
      }
      heap, g, cameFrom := RelaxNeighbour(heap, visited, g, cameFrom, h, current, v, w);
      clock' := clock' + 1;
    }
    r := Search(heap, visited, g, cameFrom);
  }

  /**
   * The loop body for one neighbour (v, w) of `current`: g[v] is looked up
   * (a missing score counts as infinite), and when current's score plus w
   * beats it, came_from and g are updated and v is queued unless expanded.
   */
  method RelaxNeighbour(heap: seq<Entry>, visited: set<nat>, g: seq<Option<nat>>, cameFrom: seq<Option<nat>>,
                        h: nat -> nat, current: nat, v: nat, w: nat)
      returns (heap': seq<Entry>, g': seq<Option<nat>>, cameFrom': seq<Option<nat>>)
    requires |g| == |cameFrom| && current < |g| && v < |g| && g[current].Some?
    ensures Search(heap', visited, g', cameFrom') == Relax(Search(heap, visited, g, cameFrom), current, v, w, h)
  {
    heap', g', cameFrom' := heap, g, cameFrom;
    var newG := g[current].value + w;
    if g[v].None? || newG < g[v].value {
      cameFrom' := cameFrom'[v := Some(current)];
      g' := g'[v := Some(newG)];
      if v !in visited {
        heap' := heap' + [Entry(v, newG + h(v))];
      } else {
        assert heap' == heap + [];
      }
    }
  }

  /**
   * The path reconstruction: from `goal`, follow came_from until a position
   * that has none, which is the start.
   */
  method ReconstructPath(s: Search, n: nat, start: nat, nb: Neighbours, ghost stamp: seq<nat>, ghost clock: nat, goal: nat)
      returns (path: seq<nat>)
    requires Inv(s, n, start, nb, stamp, clock) && goal < n && s.g[goal].Some?
    ensures |path| > 0 && path[0] == goal && path[|path| - 1] == start
    ensures forall i :: 0 <= i < |path| ==> path[i] < n
    ensures forall i :: 0 <= i < |path| - 1 ==> IsEdge(nb, path[i + 1], path[i])
    ensures goal == start ==> path == [start]
  {
    path := [goal];
    var pos: nat := goal;
    while s.cameFrom[pos].Some?
      invariant |s.g| == |s.cameFrom| == |stamp| == n
      invariant goal == start ==> path == [start]
      invariant pos < n
      invariant s.g[pos].Some? && |path| > 0 && path[0] == goal && path[|path| - 1] == pos
      invariant forall i :: 0 <= i < |path| ==> path[i] < n
      invariant forall i :: 0 <= i < |path| - 1 ==> IsEdge(nb, path[i + 1], path[i])
      decreases s.g[pos].value, stamp[pos]
    {
      assert Parent(s, nb, stamp, pos);
      pos := s.cameFrom[pos].value;
      path := path + [pos];
    }
  }

  /** The plain neighbour lists seen as weighted ones, every distance 1. */
  function UnitNeighbours(neighbours: nat -> seq<nat>): (nb: Neighbours)
    ensures forall u :: nb(u) == UnitWeights(neighbours(u))
  {
    u => UnitWeights(neighbours(u))
  }

  /** Under unit weights, v is a neighbour of u exactly when it is listed in u's plain neighbours. */
  lemma UnitEdge(neighbours: nat -> seq<nat>, u: nat, v: nat)
    ensures IsEdge(UnitNeighbours(neighbours), u, v) <==> v in neighbours(u)
  {
    var nb := UnitNeighbours(neighbours);
    if v in neighbours(u) {
      var j :| 0 <= j < |neighbours(u)| && neighbours(u)[j] == v;
      assert nb(u)[j].0 == v;
    }
  }

  /**
   * aStarShortestPath (plain neighbours): the weighted search with every
   * distance equal to 1.
   */
  method AStarShortestPathUnit(start: nat, goal: nat, n: nat, h: nat -> nat, neighbours: nat -> seq<nat>)
      returns (path: seq<nat>)
    requires start < n && forall u, i :: 0 <= u < n && 0 <= i < |neighbours(u)| ==> neighbours(u)[i] < n
    ensures path == [] || (path[0] == goal && path[|path| - 1] == start)
    ensures forall i :: 0 <= i < |path| ==> path[i] < n
    ensures forall i :: 0 <= i < |path| - 1 ==> path[i] in neighbours(path[i + 1])
    ensures start == goal ==> path == [start]
    ensures Reachable(UnitNeighbours(neighbours), start, goal) ==> path != []
  {
    var nb := UnitNeighbours(neighbours);
    assert NeighboursIn(nb, n) by {
      forall u, i | 0 <= u < n && 0 <= i < |nb(u)| ensures nb(u)[i].0 < n {
        assert nb(u) == UnitWeights(neighbours(u));
      }
    }
    path := AStarShortestPath(start, goal, n, h, nb);
    forall i | 0 <= i < |path| - 1 ensures path[i] in neighbours(path[i + 1]) {
      UnitEdge(neighbours, path[i + 1], path[i]);
    }
  }
}
