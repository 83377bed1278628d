/**
 * `pathfind` of util.py: a best-first grid search that expands the frontier
 * entry of least priority, priority being the squared Manhattan distance to
 * the goal added to the priority the entry was reached from, then walks the
 * back-pointers from the goal. The grid is unbounded, so the model's search
 * is given a number of rounds to run.
 */
module Pathfind {
  import opened Common
  import Diagram

  type Point = Diagram.Point

  /** `_heuristic`: the Manhattan distance, squared. */
  function Heuristic(a: Point, b: Point): nat
  {
    var d := Diagram.Abs(a.x - b.x) + Diagram.Abs(a.y - b.y);
    d * d
  }

  /** The four unit steps, in the order the search tries them: (0,1), (0,-1), (1,0), (-1,0). */
  function Neighbour(p: Point, k: int): Point
  {
    if k == 0 then Diagram.Point(p.x, p.y + 1)
    else if k == 1 then Diagram.Point(p.x, p.y - 1)
    else if k == 2 then Diagram.Point(p.x + 1, p.y)
    else Diagram.Point(p.x - 1, p.y)
  }

  /** One unit step apart along one axis. */
  predicate Adjacent(a: Point, b: Point)
  {
    Diagram.Abs(a.x - b.x) + Diagram.Abs(a.y - b.y) == 1
  }

  lemma NeighbourAdjacent(p: Point, k: int)
    ensures Adjacent(p, Neighbour(p, k)) && Adjacent(Neighbour(p, k), p)
  {
  }

  /** Every adjacent point is one of the four neighbours. */
  lemma AdjacentIsNeighbour(a: Point, b: Point) returns (k: int)
    requires Adjacent(a, b)
    ensures 0 <= k < 4 && b == Neighbour(a, k)
  {
    if b.y == a.y + 1 { k := 0; }
    else if b.y == a.y - 1 { k := 1; }
    else if b.x == a.x + 1 { k := 2; }
    else { k := 3; }
  }

  /** A walk by unit steps over points none of which collides. */
  predicate ClearPath(collides: Point -> bool, path: seq<Point>)
  {
    && |path| >= 1
    && (forall k :: 0 <= k < |path| ==> !collides(path[k]))
    && (forall k :: 0 <= k < |path| - 1 ==> Adjacent(path[k], path[k + 1]))
  }

  ghost predicate Connected(collides: Point -> bool, a: Point, b: Point)
  {
    exists path :: ClearPath(collides, path) && path[0] == a && path[|path| - 1] == b
  }

  // ---------------------------------------------------------------- the frontier

  /** An entry of the sorted frontier: a priority and a point. */
  datatype Entry = Entry(cost: int, p: Point)

  /** The order of the frontier's tuples `(cost, (x, y))`. */
  predicate Le(a: Entry, b: Entry)
  {
    a.cost < b.cost || (a.cost == b.cost && (a.p.x < b.p.x || (a.p.x == b.p.x && a.p.y <= b.p.y)))
  }

  lemma LeTotal(a: Entry, b: Entry)
    ensures Le(a, b) || Le(b, a)
  {
  }

  lemma LeTrans(a: Entry, b: Entry, c: Entry)
    requires Le(a, b) && Le(b, c)
    ensures Le(a, c)
  {
  }

  /** A finite non-empty frontier has a least entry. */
  lemma {:induction false} MinExists(q: set<Entry>)
    requires q != {}
    ensures exists e :: e in q && forall e' :: e' in q ==> Le(e, e')
    decreases |q|
  {
    var x :| x in q;
    var rest := q - {x};
    if rest == {} {
      assert q == {x};
      MinOfOne(x);
    } else {
      MinExists(rest);
      var m :| m in rest && forall e' :: e' in rest ==> Le(m, e');
      assert q == rest + {x};
      LeTotal(x, m);
      if Le(x, m) {
        MinBelow(x, m, rest);
      } else {
        MinAbove(x, m, rest);
      }
    }
  }

  lemma MinOfOne(x: Entry)
    ensures forall e' :: e' in {x} ==> Le(x, e')
  {
  }

  /** A new entry below the least one is the new least. */
  lemma MinBelow(x: Entry, m: Entry, rest: set<Entry>)
    requires m in rest && Le(x, m) && forall e' :: e' in rest ==> Le(m, e')
    ensures forall e' :: e' in rest + {x} ==> Le(x, e')
  {
    forall e' | e' in rest + {x} ensures Le(x, e') {
      if e' != x {
        LeTrans(x, m, e');
      }
    }
  }

  /** A new entry not below the least one leaves it the least. */
  lemma MinAbove(x: Entry, m: Entry, rest: set<Entry>)
    requires m in rest && !Le(x, m) && forall e' :: e' in rest ==> Le(m, e')
    ensures forall e' :: e' in rest + {x} ==> Le(m, e')
  {
    LeTotal(m, x);
  }

  /** What the search returns: a path, `None`, or (in the model only) running out of rounds. */
  datatype Outcome = Found(path: seq<Point>) | NotFound | OutOfRounds

  /** `q`, `visited`, `curr_cost` (pairs of cost so far and heuristic) and `backtrace`. */
  datatype State = State(q: set<Entry>, visited: set<Point>, cost: map<Point, (int, int)>, back: map<Point, Point>)

  function Sum(c: (int, int)): int
  {
    c.0 + c.1
  }

  /**
   * What holds between rounds: every frontier entry is an unvisited point
   * carrying its recorded cost; every recorded point is visited or on the
   * frontier, collides with nothing and is the start or has a back-pointer
   * to an adjacent visited point, visited earlier (`rank`) than itself.
   */
  ghost predicate Inv(st: State, start: Point, collides: Point -> bool, rank: map<Point, nat>, counter: nat)
  {
    && start in st.cost && start !in st.back
    && (forall e :: e in st.q ==> e.p !in st.visited && e.p in st.cost && e.cost == Sum(st.cost[e.p]))
    && (forall p :: p in st.cost ==> p in st.visited || Entry(Sum(st.cost[p]), p) in st.q)
    && (forall p :: p in st.cost ==> !collides(p) && (p == start || p in st.back))
    && (forall p :: p in st.back ==> p in st.cost && st.back[p] in st.visited && Adjacent(st.back[p], p))
    && st.visited <= st.cost.Keys && rank.Keys == st.visited
    && (forall v :: v in rank ==> rank[v] < counter)
    && (forall p :: p in st.back && p in st.visited ==> rank[st.back[p]] < rank[p])
  }

  /** Every visited point outside `open` has each neighbour recorded, or colliding. */
  ghost predicate ClosedExcept(st: State, collides: Point -> bool, open: set<Point>)
  {
    forall v, k :: v in st.visited && v !in open && 0 <= k < 4 ==>
      collides(Neighbour(v, k)) || Neighbour(v, k) in st.cost
  }

  /**
   * The inner loop of one round: try the four neighbours of the point `p`
   * just visited at priority `c`; a neighbour that collides or is visited is
   * skipped, one not yet recorded or now cheaper is (re)entered on the
   * frontier at `h + c + 1` with a back-pointer to `p`.
   */
  method Expand(st: State, p: Point, c: int, start: Point, goal: Point, collides: Point -> bool,
                ghost rank: map<Point, nat>, ghost counter: nat)
    returns (st': State)
    requires Inv(st, start, collides, rank, counter) && p in st.visited && start in st.visited
    requires ClosedExcept(st, collides, {p})
    ensures Inv(st', start, collides, rank, counter) && st'.visited == st.visited
    ensures ClosedExcept(st', collides, {})
  {
    st' := st;
    for k := 0 to 4
      invariant Inv(st', start, collides, rank, counter) && st'.visited == st.visited
      invariant st.cost.Keys <= st'.cost.Keys
      invariant forall j :: 0 <= j < k ==> collides(Neighbour(p, j)) || Neighbour(p, j) in st'.cost
    {
      var next := TryNeighbour(st', p, k, c, start, goal, collides, rank, counter);
      StillRecorded(st', next, p, k, collides);
      st' := next;
    }
    Closes(st, st', p, collides);
  }

  /** Recorded points stay recorded, so the neighbours handled so far stay handled. */
  lemma StillRecorded(st: State, st': State, p: Point, k: int, collides: Point -> bool)
    requires forall j :: 0 <= j < k ==> collides(Neighbour(p, j)) || Neighbour(p, j) in st.cost
    requires st.cost.Keys <= st'.cost.Keys && (collides(Neighbour(p, k)) || Neighbour(p, k) in st'.cost)
    ensures forall j :: 0 <= j < k + 1 ==> collides(Neighbour(p, j)) || Neighbour(p, j) in st'.cost
  {
  }

  /** Once every neighbour of `p` is recorded or colliding, `p` is closed too. */
  lemma Closes(st: State, st': State, p: Point, collides: Point -> bool)
    requires ClosedExcept(st, collides, {p}) && st.cost.Keys <= st'.cost.Keys && st'.visited == st.visited
    requires forall j :: 0 <= j < 4 ==> collides(Neighbour(p, j)) || Neighbour(p, j) in st'.cost
    ensures ClosedExcept(st', collides, {})
  {
  }

  /** One turn of the inner loop, on the neighbour `k` of `p`. */
  method TryNeighbour(st: State, p: Point, k: int, c: int, start: Point, goal: Point, collides: Point -> bool,
                      ghost rank: map<Point, nat>, ghost counter: nat)
    returns (st': State)
    requires Inv(st, start, collides, rank, counter) && p in st.visited && start in st.visited
    ensures Inv(st', start, collides, rank, counter) && st'.visited == st.visited
    ensures st.cost.Keys <= st'.cost.Keys
    ensures collides(Neighbour(p, k)) || Neighbour(p, k) in st'.cost
  {
    var n := Neighbour(p, k);
    NeighbourAdjacent(p, k);
    if collides(n) || n in st.visited {
      return st;
    }
    var h := Heuristic(n, goal);
    var ncost := h + c + 1;
    if n !in st.cost || ncost < Sum(st.cost[n]) {
      RecordKeepsInv(st, p, n, c, h, start, collides, rank, counter);
      st' := Record(st, p, n, c, h);
    } else {
      st' := st;
    }
  }

  /** Enter `n` on the frontier at `h + c + 1`, reached from `p`, replacing its old entry. */
  function Record(st: State, p: Point, n: Point, c: int, h: int): (r: State)
    ensures r.visited == st.visited && r.cost.Keys == st.cost.Keys + {n}
    ensures n in r.back && r.cost[n] == (c + 1, h) && r.back[n] == p && Entry(h + c + 1, n) in r.q
  {
    var q := if n in st.cost then st.q - {Entry(Sum(st.cost[n]), n)} else st.q;
    State(q + {Entry(h + c + 1, n)}, st.visited, st.cost[n := (c + 1, h)], st.back[n := p])
  }

  lemma RecordKeepsInv(st: State, p: Point, n: Point, c: int, h: int, start: Point, collides: Point -> bool,
                       rank: map<Point, nat>, counter: nat)
    requires Inv(st, start, collides, rank, counter) && p in st.visited && start in st.visited
    requires n !in st.visited && !collides(n) && Adjacent(p, n)
    ensures Inv(Record(st, p, n, c, h), start, collides, rank, counter)
  {
    var st' := Record(st, p, n, c, h);
    forall e | e in st'.q ensures e.p !in st'.visited && e.p in st'.cost && e.cost == Sum(st'.cost[e.p]) {
      if e.p == n {
        assert e == Entry(h + c + 1, n);
      }
    }
  }

  /**
   * One round: take the least frontier entry and mark its point visited.
   * Returns the entry taken.
   */
  method Pop(st: State, start: Point, goal: Point, collides: Point -> bool,
             ghost rank: map<Point, nat>, ghost counter: nat)
    returns (st': State, e: Entry, ghost rank': map<Point, nat>)
    requires Inv(st, start, collides, rank, counter) && ClosedExcept(st, collides, {}) && st.q != {}
    ensures e in st.q && forall e' :: e' in st.q ==> Le(e, e')
    ensures st' == State(st.q - {e}, st.visited + {e.p}, st.cost, st.back)
    ensures Inv(st', start, collides, rank', counter + 1) && ClosedExcept(st', collides, {e.p})
  {
    MinExists(st.q);
    e :| e in st.q && forall e' :: e' in st.q ==> Le(e, e');
    st' := State(st.q - {e}, st.visited + {e.p}, st.cost, st.back);
    rank' := rank[e.p := counter];
  }

  /**
   * `pathfind(start, goal, collide_check_func)`, the search allowed `rounds`
   * rounds. A path found runs from `start` to `goal` by unit steps over
   * points that do not collide; `None` comes back when an end collides or
   * when the frontier empties, and the latter only when no such path exists.
   */
  method Search(start: Point, goal: Point, collides: Point -> bool, rounds: nat) returns (r: Outcome)
    ensures collides(start) || collides(goal) ==> r == NotFound
    ensures r.Found? ==> ClearPath(collides, r.path) && r.path[0] == start && r.path[|r.path| - 1] == goal
    ensures r.NotFound? ==> collides(start) || collides(goal) || !Connected(collides, start, goal)
    ensures start == goal && !collides(start) && rounds >= 1 ==> r == Found([start])
  {
    if collides(goal) || collides(start) {
      return NotFound;
    }
    var maxh := Heuristic(start, goal);
    var st := State({Entry(maxh, start)}, {}, map[start := (0, maxh)], map[]);
    ghost var rank: map<Point, nat> := map[];
    ghost var counter: nat := 0;
    var found := false;
    var done := 0;
    while st.q != {} && done < rounds
      invariant Inv(st, start, collides, rank, counter) && ClosedExcept(st, collides, {})
      invariant goal !in st.visited
      invariant done == 0 ==> st.q == {Entry(maxh, start)}
      invariant done >= 1 ==> start in st.visited
      decreases rounds - done
    {
      var e;
      st, e, rank := Pop(st, start, goal, collides, rank, counter);
      counter := counter + 1;
      done := done + 1;
      if e.p == goal {
        found := true;
        break;
      }
      st := Expand(st, e.p, e.cost, start, goal, collides, rank, counter);
    }
    if !found {
      if st.q == {} {
        NotConnected(st, start, goal, collides, rank, counter);
        return NotFound;
      }
      return OutOfRounds;
    }
    var trail := Backtrace(st, start, goal, collides, rank, counter);
    r := Found(Reverse(trail));
  }

  /** The back-pointer walk from `goal` to `start`, in that order. */
  method Backtrace(st: State, start: Point, goal: Point, collides: Point -> bool,
                   ghost rank: map<Point, nat>, ghost counter: nat)
    returns (trail: seq<Point>)
    requires Inv(st, start, collides, rank, counter) && goal in st.visited
    ensures |trail| >= 1 && trail[0] == goal && trail[|trail| - 1] == start
    ensures forall k :: 0 <= k < |trail| ==> !collides(trail[k])
    ensures forall k :: 0 <= k < |trail| - 1 ==> Adjacent(trail[k + 1], trail[k])
    ensures goal == start ==> trail == [start]
  {
    trail := [goal];
    while trail[|trail| - 1] != start
      invariant |trail| >= 1 && trail[0] == goal && trail[|trail| - 1] in st.visited
      invariant forall k :: 0 <= k < |trail| ==> !collides(trail[k])
      invariant forall k :: 0 <= k < |trail| - 1 ==> Adjacent(trail[k + 1], trail[k])
      invariant goal == start ==> trail == [start]
      decreases rank[trail[|trail| - 1]]
    {
      BackStep(st, start, goal, collides, rank, counter, trail);
      trail := trail + [st.back[trail[|trail| - 1]]];
    }
  }

  /** One step back from a visited point other than the start reaches an earlier visited neighbour. */
  lemma BackStep(st: State, start: Point, goal: Point, collides: Point -> bool,
                 rank: map<Point, nat>, counter: nat, trail: seq<Point>)
    requires Inv(st, start, collides, rank, counter)
    requires |trail| >= 1 && trail[0] == goal && trail[|trail| - 1] in st.visited && trail[|trail| - 1] != start
    requires forall k :: 0 <= k < |trail| ==> !collides(trail[k])
    requires forall k :: 0 <= k < |trail| - 1 ==> Adjacent(trail[k + 1], trail[k])
    requires goal == start ==> trail == [start]
    ensures goal != start && trail[|trail| - 1] in st.back
    ensures var cur := trail[|trail| - 1];
            var t := trail + [st.back[cur]];
            && t[0] == goal && t[|t| - 1] in st.visited
            && (forall k :: 0 <= k < |t| ==> !collides(t[k]))
            && (forall k :: 0 <= k < |t| - 1 ==> Adjacent(t[k + 1], t[k]))
            && st.back[cur] in rank && rank[st.back[cur]] < rank[cur]
  {
    var cur := trail[|trail| - 1];
    assert cur in st.cost;
    var t := trail + [st.back[cur]];
    assert st.back[cur] in st.cost;
    forall k | 0 <= k < |t| - 1 ensures Adjacent(t[k + 1], t[k]) {
      if k < |trail| - 1 {
        assert t[k + 1] == trail[k + 1] && t[k] == trail[k];
      }
    }
  }

  /** With the frontier empty, the visited points are closed under clear steps, so the goal is cut off. */
  lemma NotConnected(st: State, start: Point, goal: Point, collides: Point -> bool,
                     rank: map<Point, nat>, counter: nat)
    requires Inv(st, start, collides, rank, counter) && ClosedExcept(st, collides, {})
    requires st.q == {} && goal !in st.visited
    ensures !Connected(collides, start, goal)
  {
    assert start in st.visited;
    forall path | ClearPath(collides, path) && path[0] == start
      ensures path[|path| - 1] != goal
    {
      StaysInside(st, collides, path, |path| - 1);
    }
  }

  lemma {:induction false} StaysInside(st: State, collides: Point -> bool, path: seq<Point>, i: nat)
    requires ClosedExcept(st, collides, {}) && st.cost.Keys <= st.visited
    requires ClearPath(collides, path) && path[0] in st.visited && i < |path|
    ensures path[i] in st.visited
  {
    if i > 0 {
      StaysInside(st, collides, path, i - 1);
      var k := AdjacentIsNeighbour(path[i - 1], path[i]);
    }
  }
}
