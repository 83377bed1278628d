/**
 * The schematic editor's geometry (diagram.py): facings and rotation, the
 * pin layout of each placeable element, the wire grid and how segments are
 * drawn onto it, and the extraction of connections by searching the wires
 * from every output pin.
 */
module Diagram {
  import opened Common
  import Netlist

  // ---------------------------------------------------------------- facings

  const EAST: int := 0
  const NORTH: int := 1
  const WEST: int := 2
  const SOUTH: int := 3

  datatype Point = Point(x: int, y: int)

  function Abs(a: int): nat
  {
    if a < 0 then -a else a
  }

  /** `rotate(x, y, dir)`; every facing other than the first three acts as SOUTH. */
  function Rotate(x: int, y: int, dir: int): (r: Point)
    ensures Abs(r.x) + Abs(r.y) == Abs(x) + Abs(y)
  {
    if dir == EAST then Point(x, y)
    else if dir == NORTH then Point(y, -x)
    else if dir == WEST then Point(-x, y)
    else Point(-y, x)
  }

  /** The unit step of each facing, and SOUTH's for any other value. */
  lemma RotateUnit(dir: int)
    ensures Rotate(1, 0, EAST) == Point(1, 0) && Rotate(1, 0, NORTH) == Point(0, -1)
    ensures Rotate(1, 0, WEST) == Point(-1, 0) && Rotate(1, 0, SOUTH) == Point(0, 1)
    ensures dir !in {EAST, NORTH, WEST} ==> Rotate(1, 0, dir) == Point(0, 1)
  {
  }

  /** NORTH then SOUTH is the identity; WEST undoes itself. */
  lemma RotateInverses(x: int, y: int)
    ensures var p := Rotate(x, y, NORTH); Rotate(p.x, p.y, SOUTH) == Point(x, y)
    ensures var p := Rotate(x, y, WEST); Rotate(p.x, p.y, WEST) == Point(x, y)
  {
  }

  /** WEST is a mirror in the vertical axis, not a half turn: it keeps `y`. */
  lemma WestIsMirror()
    ensures Rotate(0, 1, WEST) == Point(0, 1)
    ensures var p := Rotate(0, 1, NORTH); Rotate(p.x, p.y, NORTH) == Point(0, -1)
  {
  }

  /** The neighbour of `p` in direction `dir`. */
  function Move(p: Point, dir: int): Point
  {
    var r := Rotate(1, 0, dir);
    Point(p.x + r.x, p.y + r.y)
  }

  // ---------------------------------------------------------------- elements

  /** The placeable descriptors, by what the layout needs of them. */
  datatype Part =
    | NotPart(width: int)
    | GatePart(numInputs: nat)
    | PinPart(direction: Netlist.Direction, width: int)

  datatype Rect = Rect(x: int, y: int, w: int, h: int)

  datatype PinAt = PinAt(pos: Point, name: string)

  /** `bounding_rect` relative to the element's position. */
  function BoundingRect(p: Part): (r: Rect)
    ensures p.PinPart? && p.direction == Netlist.Out ==> r.x == 0 && r.x + r.w == p.width
    ensures p.PinPart? && p.direction == Netlist.In ==> r.x == -p.width && r.x + r.w == 0
    ensures p.GatePart? ==> r.y <= -(p.numInputs / 2) && (p.numInputs / 2) < r.y + r.h
  {
    match p
    case NotPart(_) => Rect(-4, -1, 4, 2)
    case GatePart(n) =>
      var h := n / 2;
      Rect(-4, -h - 1, 4, h * 2 + 2)
    case PinPart(dir, w) =>
      if dir == Netlist.Out then Rect(0, -1, w, 2) else Rect(-w, -1, w, 2)
  }

  /** `all_inputs` in unrotated element coordinates. */
  function AllInputs(p: Part): seq<PinAt>
  {
    match p
    case NotPart(_) => [PinAt(Point(-4, 0), "in")]
    case GatePart(n) => GateLoop(n, n / 2, Rest(n), 0, 0)
    case PinPart(dir, _) => if dir == Netlist.Out then [PinAt(Point(0, 0), "pin")] else []
  }

  /** `all_outputs` in unrotated element coordinates. */
  function AllOutputs(p: Part): seq<PinAt>
  {
    match p
    case NotPart(_) => [PinAt(Point(0, 0), "out")]
    case GatePart(_) => [PinAt(Point(0, 0), "out")]
    case PinPart(dir, _) => if dir == Netlist.In then [PinAt(Point(0, 0), "pin")] else []
  }

  /** 1 when the input count is even: the loop runs once more and skips the middle row. */
  function Rest(n: nat): nat
  {
    if n % 2 == 0 then 1 else 0
  }

  /**
   * The gate's input loop from row `i` on, the next pin being `in{index}`;
   * `h` is `n / 2` and `rest` is `Rest(n)`, as the source computes them once.
   */
  function GateLoop(n: nat, h: int, rest: nat, i: nat, index: nat): seq<PinAt>
    decreases n + rest - i
  {
    if i >= n + rest then []
    else if rest == 1 && i == h then GateLoop(n, h, rest, i + 1, index)
    else [PinAt(Point(-4, -h + i), "in" + Netlist.DecimalString(index))] + GateLoop(n, h, rest, i + 1, index + 1)
  }

  /** The row of input `k`: counted from `-h`, stepping over row 0 when `rest` is 1. */
  function GateInputRow(h: int, rest: nat, k: nat): int
  {
    if rest == 1 && k >= h then -h + k + 1 else -h + k
  }

  /** The input pins in closed form: `in{k}` at x = -4 on row `GateInputRow(h, rest, k)`. */
  function GateLayout(n: nat, h: int, rest: nat): (r: seq<PinAt>)
    ensures |r| == n
    ensures forall k :: 0 <= k < n ==> r[k] == PinAt(Point(-4, GateInputRow(h, rest, k)), Netlist.GateInputName(k))
  {
    seq(n, k requires 0 <= k < n => PinAt(Point(-4, GateInputRow(h, rest, k)), Netlist.GateInputName(k)))
  }

  /** The loop emits, from row `i` on, the closed-form inputs from `index` on. */
  lemma {:induction false} GateLoopRows(n: nat, h: int, rest: nat, i: nat, index: nat)
    requires rest <= 1 && n == 2 * h + 1 - rest
    requires i <= n + rest
    requires index == if rest == 1 && i > h then i - 1 else i
    ensures index <= n && GateLoop(n, h, rest, i, index) == GateLayout(n, h, rest)[index..]
    decreases n + rest - i
  {
    var layout := GateLayout(n, h, rest);
    if i >= n + rest {
    } else if rest == 1 && i == h {
      GateLoopRows(n, h, rest, i + 1, index);
    } else {
      GateLoopRows(n, h, rest, i + 1, index + 1);
      GateLoopHead(n, h, rest, i, index);
      LayoutCons(layout, index);
    }
  }

  lemma LayoutCons(layout: seq<PinAt>, index: nat)
    requires index < |layout|
    ensures layout[index..] == [layout[index]] + layout[index + 1..]
  {
  }

  /** A row the loop does not skip holds the next input, at its closed-form row. */
  lemma GateLoopHead(n: nat, h: int, rest: nat, i: nat, index: nat)
    requires rest <= 1 && n == 2 * h + 1 - rest
    requires i < n + rest && !(rest == 1 && i == h)
    requires index == if rest == 1 && i > h then i - 1 else i
    ensures index < n
    ensures GateLoop(n, h, rest, i, index)
            == [PinAt(Point(-4, GateInputRow(h, rest, index)), Netlist.GateInputName(index))] + GateLoop(n, h, rest, i + 1, index + 1)
  {
  }

  /**
   * A gate with `n` inputs has exactly `n` input pins `in0 .. in{n-1}` in
   * order, all at x = -4, on strictly increasing rows within `[-n/2, n/2]`,
   * row 0 left free when `n` is even.
   */
  lemma GateInputLayout(n: nat)
    ensures |AllInputs(GatePart(n))| == n
    ensures forall k :: 0 <= k < n ==> AllInputs(GatePart(n))[k].name == Netlist.GateInputName(k)
    ensures forall k :: 0 <= k < n ==> AllInputs(GatePart(n))[k].pos.x == -4
    ensures forall k :: 0 <= k < n ==> -(n / 2) <= AllInputs(GatePart(n))[k].pos.y <= n / 2
    ensures forall k, l :: 0 <= k < l < n ==> AllInputs(GatePart(n))[k].pos.y < AllInputs(GatePart(n))[l].pos.y
    ensures n % 2 == 0 ==> forall k :: 0 <= k < n ==> AllInputs(GatePart(n))[k].pos.y != 0
  {
    GateLoopRows(n, n / 2, Rest(n), 0, 0);
    assert AllInputs(GatePart(n)) == GateLayout(n, n / 2, Rest(n));
  }

  /** Not and Gate put `out` at the origin; an exposed pin has only the one pin its direction allows. */
  lemma PinPlacement(p: Part)
    ensures !p.PinPart? ==> AllOutputs(p) == [PinAt(Point(0, 0), "out")]
    ensures p.PinPart? && p.direction == Netlist.In ==> AllInputs(p) == [] && AllOutputs(p) == [PinAt(Point(0, 0), "pin")]
    ensures p.PinPart? && p.direction == Netlist.Out ==> AllOutputs(p) == [] && AllInputs(p) == [PinAt(Point(0, 0), "pin")]
  {
  }

  // ---------------------------------------------------------------- wires

  /** A grid position: which of its four sides carry wire, and whether crossing wires pass without joining. */
  datatype WireNode = WireNode(east: bool, north: bool, west: bool, south: bool, overlap: bool)

  const EMPTY: WireNode := WireNode(false, false, false, false, false)

  /** `wires`, a defaultdict: an absent position is an empty node. */
  type Grid = map<Point, WireNode>

  function Node(g: Grid, p: Point): WireNode
  {
    if p in g then g[p] else EMPTY
  }

  /** `connections[dir]`. */
  function Side(n: WireNode, dir: int): bool
  {
    if dir == EAST then n.east
    else if dir == NORTH then n.north
    else if dir == WEST then n.west
    else if dir == SOUTH then n.south
    else false
  }

  predicate AllConnected(n: WireNode)
  {
    n.east && n.north && n.west && n.south
  }

  function Flag(g: Grid, p: Point, dir: int): bool
  {
    Side(Node(g, p), dir)
  }

  /** `connections[dir] ^= True`. */
  function Flip(n: WireNode, dir: int): (r: WireNode)
    requires 0 <= dir < 4
    ensures forall d :: Side(r, d) == (Side(n, d) != (d == dir))
    ensures r.overlap == n.overlap
  {
    if dir == EAST then n.(east := !n.east)
    else if dir == NORTH then n.(north := !n.north)
    else if dir == WEST then n.(west := !n.west)
    else n.(south := !n.south)
  }

  function Toggle(g: Grid, p: Point, dir: int): (r: Grid)
    requires 0 <= dir < 4
    ensures forall q, d :: Flag(r, q, d) == (Flag(g, q, d) != (q == p && d == dir))
    ensures forall q :: Node(r, q).overlap == Node(g, q).overlap
  {
    g[p := Flip(Node(g, p), dir)]
  }

  /** The vertical loop: rows `y .. hi - 1` of column `x`, each joined to the row below. */
  function ToggleColumn(g: Grid, x: int, y: int, hi: int): (r: Grid)
    ensures forall q, d :: Flag(r, q, d) == (Flag(g, q, d) != OnColumn(x, y, hi, q, d))
    ensures forall q :: Node(r, q).overlap == Node(g, q).overlap
    decreases hi - y
  {
    if y >= hi then g
    else
      var g1 := Toggle(Toggle(g, Point(x, y), SOUTH), Point(x, y + 1), NORTH);
      ToggleColumn(g1, x, y + 1, hi)
  }

  /** The horizontal loop: columns `x .. hi - 1` of row `y`, each joined to the one on its right. */
  function ToggleRow(g: Grid, x: int, hi: int, y: int): (r: Grid)
    ensures forall q, d :: Flag(r, q, d) == (Flag(g, q, d) != OnRow(x, hi, y, q, d))
    ensures forall q :: Node(r, q).overlap == Node(g, q).overlap
    decreases hi - x
  {
    if x >= hi then g
    else
      var g1 := Toggle(Toggle(g, Point(x, y), EAST), Point(x + 1, y), WEST);
      ToggleRow(g1, x + 1, hi, y)
  }

  /** The sides a vertical run from row `lo` to row `hi` of column `x` crosses. */
  predicate OnColumn(x: int, lo: int, hi: int, q: Point, d: int)
  {
    q.x == x && ((d == SOUTH && lo <= q.y < hi) || (d == NORTH && lo < q.y <= hi))
  }

  predicate OnRow(lo: int, hi: int, y: int, q: Point, d: int)
  {
    q.y == y && ((d == EAST && lo <= q.x < hi) || (d == WEST && lo < q.x <= hi))
  }

  /** A wire segment to place, from `(x1, y1)` to `(x2, y2)`. */
  datatype Segment = Segment(x1: int, y1: int, x2: int, y2: int)

  predicate Diagonal(s: Segment)
  {
    s.x1 != s.x2 && s.y1 != s.y2
  }

  function Min(a: int, b: int): int { if a <= b then a else b }
  function Max(a: int, b: int): int { if a <= b then b else a }

  /** The sides segment `s` crosses: none for a point, one run for a straight segment. */
  predicate Covers(s: Segment, q: Point, d: int)
  {
    if s.x1 == s.x2 && s.y1 == s.y2 then false
    else if s.x1 == s.x2 then OnColumn(s.x1, Min(s.y1, s.y2), Max(s.y1, s.y2), q, d)
    else if s.y1 == s.y2 then OnRow(Min(s.x1, s.x2), Max(s.x1, s.x2), s.y1, q, d)
    else false
  }

  /** One turn of `construct_wires`' loop. */
  function Place(g: Grid, s: Segment): (r: Result<Grid, string>)
    ensures r.Err? <==> Diagonal(s)
    ensures r.Ok? ==> forall q, d :: Flag(r.value, q, d) == (Flag(g, q, d) != Covers(s, q, d))
    ensures r.Ok? ==> forall q :: Node(r.value, q).overlap == Node(g, q).overlap
  {
    var dx, dy := s.x2 - s.x1, s.y2 - s.y1;
    if dx == 0 && dy == 0 then Ok(g)
    else if dx == 0 then Ok(ToggleColumn(g, s.x1, Min(s.y1, s.y2), Max(s.y1, s.y2)))
    else if dy == 0 then Ok(ToggleRow(g, Min(s.x1, s.x2), Max(s.x1, s.x2), s.y1))
    else Err("wire must be either horizontal or vertical")
  }

  /** `construct_wires`: every segment placed on a copy; the first diagonal one raises. */
  function ConstructWires(g: Grid, segs: seq<Segment>): (r: Result<Grid, string>)
    ensures r.Err? <==> exists i :: 0 <= i < |segs| && Diagonal(segs[i])
    ensures r.Ok? ==> forall q, d :: Flag(r.value, q, d) == (Flag(g, q, d) != (CoverCount(segs, q, d) % 2 == 1))
    decreases |segs|
  {
    if segs == [] then Ok(g)
    else
      match Place(g, segs[0])
      case Err(e) => Err(e)
      case Ok(g1) =>
        var r := ConstructWires(g1, segs[1..]);
        if r.Err? then
          var i :| 0 <= i < |segs[1..]| && Diagonal(segs[1..][i]);
          assert Diagonal(segs[i + 1]);
          r
        else
          assert forall i :: 0 <= i < |segs| && Diagonal(segs[i]) ==> i == 0 || Diagonal(segs[1..][i - 1]);
          CoverStep(g, g1, segs, r.value);
          r
  }

  /** Toggling the first segment's sides, then the rest's, toggles each side once per covering segment. */
  lemma CoverStep(g: Grid, g1: Grid, segs: seq<Segment>, h: Grid)
    requires segs != [] && forall q, d :: Flag(g1, q, d) == (Flag(g, q, d) != Covers(segs[0], q, d))
    requires forall q, d :: Flag(h, q, d) == (Flag(g1, q, d) != (CoverCount(segs[1..], q, d) % 2 == 1))
    ensures forall q, d :: Flag(h, q, d) == (Flag(g, q, d) != (CoverCount(segs, q, d) % 2 == 1))
  {
    forall q, d ensures Flag(h, q, d) == (Flag(g, q, d) != (CoverCount(segs, q, d) % 2 == 1)) {
      assert CoverCount(segs, q, d) == (if Covers(segs[0], q, d) then 1 else 0) + CoverCount(segs[1..], q, d);
    }
  }

  /** How many of the segments cross side `d` of `q`. */
  function CoverCount(segs: seq<Segment>, q: Point, d: int): nat
  {
    if segs == [] then 0 else (if Covers(segs[0], q, d) then 1 else 0) + CoverCount(segs[1..], q, d)
  }

  /** Placing the same segment twice restores every side of every position. */
  lemma PlaceTwiceRestores(g: Grid, s: Segment, q: Point, d: int)
    requires !Diagonal(s)
    ensures Flag(Place(Place(g, s).value, s).value, q, d) == Flag(g, q, d)
  {
  }

  /** The direction a segment is drawn in does not matter. */
  lemma PlaceReversed(g: Grid, s: Segment)
    ensures Place(g, s) == Place(g, Segment(s.x2, s.y2, s.x1, s.y1))
  {
  }

  /** Wires are symmetric: each side of a joint matches the facing side of its neighbour. */
  ghost predicate Symmetric(g: Grid)
  {
    && (forall q :: Flag(g, q, EAST) == Flag(g, Move(q, EAST), WEST))
    && (forall q :: Flag(g, q, SOUTH) == Flag(g, Move(q, SOUTH), NORTH))
  }

  /** Drawing straight segments keeps the wires symmetric. */
  lemma PlaceKeepsSymmetry(g: Grid, s: Segment)
    requires Symmetric(g) && !Diagonal(s)
    ensures Symmetric(Place(g, s).value)
  {
    var r := Place(g, s).value;
    forall q ensures Flag(r, q, EAST) == Flag(r, Move(q, EAST), WEST) {
      assert Covers(s, q, EAST) == Covers(s, Move(q, EAST), WEST);
    }
    forall q ensures Flag(r, q, SOUTH) == Flag(r, Move(q, SOUTH), NORTH) {
      assert Covers(s, q, SOUTH) == Covers(s, Move(q, SOUTH), NORTH);
    }
  }

  lemma {:induction false} ConstructKeepsSymmetry(g: Grid, segs: seq<Segment>)
    requires Symmetric(g) && ConstructWires(g, segs).Ok?
    ensures Symmetric(ConstructWires(g, segs).value)
    decreases |segs|
  {
    if segs != [] {
      PlaceKeepsSymmetry(g, segs[0]);
      ConstructKeepsSymmetry(Place(g, segs[0]).value, segs[1..]);
    }
  }

  // ---------------------------------------------------------------- schematic

  /** A placed element: its name, what it is, where it stands and which way it faces. */
  datatype Placed = Placed(name: string, part: Part, position: Point, facing: int)

  datatype Sheet = Sheet(name: string, elements: seq<Placed>, wires: Grid)

  /**
   * `change_wires`: the new wires replace the old only when every segment
   * could be placed; on a diagonal segment the sheet is left as it was.
   */
  function ChangeWires(sh: Sheet, segs: seq<Segment>): (r: Result<Sheet, string>)
    ensures r.Err? <==> exists i :: 0 <= i < |segs| && Diagonal(segs[i])
    ensures r.Ok? ==> r.value.elements == sh.elements && r.value.name == sh.name
    ensures r.Ok? ==> forall q, d :: Flag(r.value.wires, q, d) == (Flag(sh.wires, q, d) != (CoverCount(segs, q, d) % 2 == 1))
  {
    var w :- ConstructWires(sh.wires, segs);
    Ok(sh.(wires := w))
  }

  /** A pin of a placed element at its absolute grid position. */
  datatype Terminal = Terminal(element: string, pin: string, pos: Point)

  function Place1(e: Placed, p: PinAt): Terminal
  {
    var r := Rotate(p.pos.x, p.pos.y, e.facing);
    Terminal(e.name, p.name, Point(e.position.x + r.x, e.position.y + r.y))
  }

  function PlaceAll(e: Placed, ps: seq<PinAt>): (r: seq<Terminal>)
    ensures |r| == |ps| && forall k :: 0 <= k < |ps| ==> r[k] == Place1(e, ps[k])
  {
    if ps == [] then [] else [Place1(e, ps[0])] + PlaceAll(e, ps[1..])
  }

  /** Every output pin of every element, in element order. */
  function Sources(es: seq<Placed>): seq<Terminal>
  {
    if es == [] then [] else PlaceAll(es[0], AllOutputs(es[0].part)) + Sources(es[1..])
  }

  /** Every input pin of every element, in element order. */
  function Dests(es: seq<Placed>): seq<Terminal>
  {
    if es == [] then [] else PlaceAll(es[0], AllInputs(es[0].part)) + Dests(es[1..])
  }

  /** The first-listed input standing at `pos`, the one the search connects there. */
  function FirstAt(dests: seq<Terminal>, pos: Point): (r: Option<nat>)
    ensures r.Some? ==> r.value < |dests| && dests[r.value].pos == pos
                        && forall k :: 0 <= k < r.value ==> dests[k].pos != pos
    ensures r.None? ==> forall k :: 0 <= k < |dests| ==> dests[k].pos != pos
  {
    if dests == [] then None
    else if dests[0].pos == pos then Some(0)
    else match FirstAt(dests[1..], pos)
      case None => None
      case Some(k) => Some(k + 1)
  }

  // ---------------------------------------------------------------- search

  /** `q` lies next to `p` along a side of `p` that carries wire. */
  predicate Joined(g: Grid, p: Point, q: Point)
  {
    exists d :: 0 <= d < 4 && Flag(g, p, d) && q == Move(p, d)
  }

  /** A walk along wire from `path[0]` to its last position. */
  predicate IsWalk(g: Grid, path: seq<Point>)
  {
    if |path| <= 1 then |path| == 1
    else IsWalk(g, path[..|path| - 1]) && Joined(g, path[|path| - 2], path[|path| - 1])
  }

  ghost predicate Reachable(g: Grid, s: Point, t: Point)
  {
    exists path :: IsWalk(g, path) && path[0] == s && path[|path| - 1] == t
  }

  lemma ReachStart(g: Grid, s: Point)
    ensures Reachable(g, s, s)
  {
    assert IsWalk(g, [s]);
  }

  lemma ReachStep(g: Grid, s: Point, p: Point, d: int)
    requires Reachable(g, s, p) && 0 <= d < 4 && Flag(g, p, d)
    ensures Reachable(g, s, Move(p, d))
  {
    var path :| IsWalk(g, path) && path[0] == s && path[|path| - 1] == p;
    var path' := path + [Move(p, d)];
    assert Joined(g, p, Move(p, d));
    assert path'[..|path'| - 1] == path;
    assert IsWalk(g, path');
  }

  /** A side the search may leave a position by: at an overlap crossing only straight on. */
  predicate MayLeave(n: WireNode, dx: int, dir: int)
  {
    0 <= dir < 4 && Side(n, dir) &&
    (AllConnected(n) && n.overlap ==> if dx == 0 then dir == NORTH || dir == SOUTH else dir == WEST || dir == EAST)
  }

  /** The pushes at a freshly visited position, in the order the source makes them. */
  /** Every position waiting on the stack is reachable from `s`. */
  ghost predicate Pending(g: Grid, s: Point, stack: seq<(Point, Point)>)
  {
    stack == [] || (Pending(g, s, stack[..|stack| - 1]) && Reachable(g, s, stack[|stack| - 1].1))
  }

  lemma {:induction false} PendingSplit(g: Grid, s: Point, a: seq<(Point, Point)>, b: seq<(Point, Point)>)
    ensures Pending(g, s, a + b) <==> Pending(g, s, a) && Pending(g, s, b)
    decreases |b|
  {
    if b == [] {
      assert a + b == a;
    } else {
      var b' := b[..|b| - 1];
      assert (a + b)[..|a + b| - 1] == a + b';
      PendingSplit(g, s, a, b');
    }
  }

  lemma PendingAppend(g: Grid, s: Point, a: seq<(Point, Point)>, b: seq<(Point, Point)>)
    requires Pending(g, s, a) && Pending(g, s, b)
    ensures Pending(g, s, a + b)
  {
    PendingSplit(g, s, a, b);
  }

  /** `link`, made at `p`, joins `src` to the first input there, and `p` is reachable from `src`. */
  ghost predicate Reaches(g: Grid, dests: seq<Terminal>, src: Terminal, p: Point, link: Netlist.Conn)
  {
    Reachable(g, src.pos, p) && LinkAt(dests, src, p, link)
  }

  /**
   * The connections made so far by the search from `src`: one per position,
   * each at a visited position that is reachable and holds an input, no
   * position twice.
   */
  ghost predicate Made(g: Grid, dests: seq<Terminal>, src: Terminal, links: seq<Netlist.Conn>, at: seq<Point>,
                       visited: set<Point>)
  {
    if at == [] then links == []
    else
      var n := |at| - 1;
      |links| == |at| && Made(g, dests, src, links[..n], at[..n], visited)
      && at[n] !in at[..n] && at[n] in visited && Reaches(g, dests, src, at[n], links[n])
  }

  lemma {:induction false} MadeGrows(g: Grid, dests: seq<Terminal>, src: Terminal, links: seq<Netlist.Conn>,
                                     at: seq<Point>, visited: set<Point>, pos: Point)
    requires Made(g, dests, src, links, at, visited)
    ensures Made(g, dests, src, links, at, visited + {pos})
    ensures pos !in visited ==> pos !in at
    decreases |at|
  {
    if at != [] {
      MadeGrows(g, dests, src, links[..|at| - 1], at[..|at| - 1], visited, pos);
      assert at == at[..|at| - 1] + [at[|at| - 1]];
    }
  }

  lemma MadeSnoc(g: Grid, dests: seq<Terminal>, src: Terminal, links: seq<Netlist.Conn>, at: seq<Point>,
                 visited: set<Point>, pos: Point, link: Netlist.Conn)
    requires Made(g, dests, src, links, at, visited) && pos !in visited
    requires Reaches(g, dests, src, pos, link)
    ensures Made(g, dests, src, links + [link], at + [pos], visited + {pos})
  {
    MadeGrows(g, dests, src, links, at, visited, pos);
    assert (links + [link])[..|at|] == links && (at + [pos])[..|at|] == at;
  }

  /** What `Made` says, position by position. */
  lemma {:induction false} MadeMeans(g: Grid, dests: seq<Terminal>, src: Terminal, links: seq<Netlist.Conn>,
                                     at: seq<Point>, visited: set<Point>)
    requires Made(g, dests, src, links, at, visited)
    ensures |links| == |at| && Distinct(at)
    ensures forall k :: 0 <= k < |at| ==> Reaches(g, dests, src, at[k], links[k])
    decreases |at|
  {
    if at != [] {
      var n := |at| - 1;
      var front, fronts := at[..n], links[..n];
      MadeMeans(g, dests, src, fronts, front, visited);
      forall i, j | 0 <= i < j < |at| ensures at[i] != at[j] {
        assert at[i] == front[i];
        if j < n {
          assert at[j] == front[j];
        }
      }
      forall k | 0 <= k < |at| ensures Reaches(g, dests, src, at[k], links[k]) {
        if k < n {
          assert at[k] == front[k] && links[k] == fronts[k];
        }
      }
    }
  }

  /** `link` joins `src` to the first-listed input standing at `pos`. */
  predicate LinkAt(dests: seq<Terminal>, src: Terminal, pos: Point, link: Netlist.Conn)
  {
    match FirstAt(dests, pos)
    case None => false
    case Some(k) => link == Netlist.Conn(src.element, src.pin, dests[k].element, dests[k].pin)
  }

  /** One visit of the search: connect the first input standing at `pos`, if any. */
  method Visit(g: Grid, dests: seq<Terminal>, src: Terminal, visited: set<Point>,
               links: seq<Netlist.Conn>, at: seq<Point>, pos: Point)
    returns (links': seq<Netlist.Conn>, at': seq<Point>)
    requires pos !in visited && Reachable(g, src.pos, pos)
    requires Made(g, dests, src, links, at, visited)
    ensures Made(g, dests, src, links', at', visited + {pos})
    ensures FirstAt(dests, pos).Some? <==> at' == at + [pos]
    ensures FirstAt(dests, pos).None? <==> at' == at
  {
    links', at' := links, at;
    var found := FirstAt(dests, pos);
    if found.Some? {
      var d := dests[found.value];
      var link := Netlist.Conn(src.element, src.pin, d.element, d.pin);
      MadeSnoc(g, dests, src, links, at, visited, pos, link);
      links', at' := links + [link], at + [pos];
    } else {
      MadeGrows(g, dests, src, links, at, visited, pos);
    }
  }

  /**
   * The sides the search leaves a freshly visited position by, in the order
   * it pushes them: every wired side EAST, NORTH, WEST, SOUTH, except that
   * an overlap crossing is passed straight through.
   */
  function LeaveDirs(n: WireNode, dx: int): (r: seq<int>)
    ensures forall k :: 0 <= k < |r| ==> MayLeave(n, dx, r[k])
    ensures forall d :: MayLeave(n, dx, d) ==> d in r
    ensures n == EMPTY ==> r == []
  {
    if AllConnected(n) && n.overlap then (if dx == 0 then [NORTH, SOUTH] else [WEST, EAST])
    else (if n.east then [EAST] else []) + (if n.north then [NORTH] else [])
         + (if n.west then [WEST] else []) + (if n.south then [SOUTH] else [])
  }

  /** The stack entries `(pos, neighbour)` for the given sides. */
  function PushAll(pos: Point, dirs: seq<int>): (r: seq<(Point, Point)>)
    ensures |r| == |dirs| && forall k :: 0 <= k < |dirs| ==> r[k] == (pos, Move(pos, dirs[k]))
  {
    if dirs == [] then [] else [(pos, Move(pos, dirs[0]))] + PushAll(pos, dirs[1..])
  }

  lemma {:induction false} PushAllPending(g: Grid, s: Point, pos: Point, dirs: seq<int>)
    requires Reachable(g, s, pos)
    requires forall k :: 0 <= k < |dirs| ==> 0 <= dirs[k] < 4 && Flag(g, pos, dirs[k])
    ensures Pending(g, s, PushAll(pos, dirs))
    decreases |dirs|
  {
    if dirs != [] {
      var x := (pos, Move(pos, dirs[0]));
      ReachStep(g, s, pos, dirs[0]);
      PushAllPending(g, s, pos, dirs[1..]);
      assert [x][..0] == [];
      PendingAppend(g, s, [x], PushAll(pos, dirs[1..]));
    }
  }

  /** The entries pushed after visiting `pos`, entered from `prev`; all reachable. */
  method Explore(g: Grid, s: Point, prev: Point, pos: Point) returns (more: seq<(Point, Point)>)
    requires Reachable(g, s, pos)
    ensures more == PushAll(pos, LeaveDirs(Node(g, pos), pos.x - prev.x))
    ensures Pending(g, s, more)
    ensures pos !in g ==> more == []
  {
    var dirs := LeaveDirs(Node(g, pos), pos.x - prev.x);
    PushAllPending(g, s, pos, dirs);
    more := PushAll(pos, dirs);
  }

  /** Visiting a new position on the wires leaves fewer of them unvisited; one off the wires, as many. */
  lemma Unvisited(keys: set<Point>, visited: set<Point>, pos: Point)
    requires pos !in visited
    ensures pos in keys ==> |keys - (visited + {pos})| < |keys - visited|
    ensures pos !in keys ==> keys - (visited + {pos}) == keys - visited
  {
    if pos in keys {
      assert keys - (visited + {pos}) == (keys - visited) - {pos};
    }
  }

  /**
   * `_bfs` from one output pin: a depth-first walk along the wires (the
   * source pops from the end of its list), each position handled once; the
   * first input pin found at a position is connected to the source pin.
   * Returns the connections made and the position each was made at.
   */
  method Search(g: Grid, dests: seq<Terminal>, src: Terminal) returns (links: seq<Netlist.Conn>, at: seq<Point>)
    ensures |links| == |at| && Distinct(at)
    ensures forall k :: 0 <= k < |at| ==> Reachable(g, src.pos, at[k]) && LinkAt(dests, src, at[k], links[k])
  {
    links, at := [], [];
    var visited: set<Point> := {};
    var stack: seq<(Point, Point)> := [(src.pos, src.pos)];
    ReachStart(g, src.pos);
    assert stack[..0] == [];
    while stack != []
      invariant Pending(g, src.pos, stack)
      invariant Made(g, dests, src, links, at, visited)
      decreases |g.Keys - visited|, |stack|
    {
      var top := stack[|stack| - 1];
      stack := stack[..|stack| - 1];
      var prev, pos := top.0, top.1;
      if pos in visited {
        continue;
      }
      links, at := Visit(g, dests, src, visited, links, at, pos);
      var more := Explore(g, src.pos, prev, pos);
      Unvisited(g.Keys, visited, pos);
      visited := visited + {pos};
      PendingAppend(g, src.pos, stack, more);
      stack := stack + more;
    }
    MadeMeans(g, dests, src, links, at, visited);
  }

  /** Connection `k` joins output `from[k]` to the first input at `at[k]`, reachable from it. */
  ghost predicate Gathered(g: Grid, srcs: seq<Terminal>, dests: seq<Terminal>,
                           links: seq<Netlist.Conn>, from: seq<nat>, at: seq<Point>)
  {
    |links| == |from| == |at| &&
    forall k :: 0 <= k < |links| ==> LinkFrom(g, srcs, dests, from[k], at[k], links[k])
  }

  ghost predicate LinkFrom(g: Grid, srcs: seq<Terminal>, dests: seq<Terminal>, f: nat, p: Point, link: Netlist.Conn)
  {
    f < |srcs| && Reaches(g, dests, srcs[f], p, link)
  }

  lemma GatheredAppend(g: Grid, srcs: seq<Terminal>, dests: seq<Terminal>,
                       links: seq<Netlist.Conn>, from: seq<nat>, at: seq<Point>,
                       i: nat, ls: seq<Netlist.Conn>, ps: seq<Point>)
    requires Gathered(g, srcs, dests, links, from, at)
    requires i < |srcs| && |ls| == |ps|
    requires forall k :: 0 <= k < |ps| ==> Reachable(g, srcs[i].pos, ps[k]) && LinkAt(dests, srcs[i], ps[k], ls[k])
    ensures Gathered(g, srcs, dests, links + ls, from + seq(|ls|, _ => i), at + ps)
  {
    var n, fs := |links|, seq(|ls|, _ => i);
    forall k | 0 <= k < n + |ls|
      ensures LinkFrom(g, srcs, dests, (from + fs)[k], (at + ps)[k], (links + ls)[k])
    {
      if k < n {
        assert (from + fs)[k] == from[k] && (at + ps)[k] == at[k] && (links + ls)[k] == links[k];
      } else {
        assert (from + fs)[k] == i && (at + ps)[k] == ps[k - n] && (links + ls)[k] == ls[k - n];
      }
    }
  }


  // ---------------------------------------------------------------- children

  /** A composite's children as `add_child(name, desc)` leaves them: a dictionary kept in insertion order. */
  type Children = seq<(string, Part)>

  function ChildKeys(cs: Children): (ks: seq<string>)
    ensures |ks| == |cs| && forall i :: 0 <= i < |cs| ==> ks[i] == cs[i].0
  {
    if cs == [] then [] else [cs[0].0] + ChildKeys(cs[1..])
  }

  /** `children[name]`: the part stored under the name, if any. */
  function ChildAt(cs: Children, name: string): Option<Part>
  {
    if cs == [] then None else if cs[0].0 == name then Some(cs[0].1) else ChildAt(cs[1..], name)
  }

  /**
   * `children[name] = part`: a present name keeps its place and takes the
   * new part, a new name is appended.
   */
  function AddChild(cs: Children, name: string, part: Part): (r: Children)
    ensures ChildAt(r, name) == Some(part)
    ensures forall n :: n != name ==> ChildAt(r, n) == ChildAt(cs, n)
    ensures ChildKeys(r) == if name in ChildKeys(cs) then ChildKeys(cs) else ChildKeys(cs) + [name]
  {
    if cs == [] then [(name, part)]
    else if cs[0].0 == name then [(name, part)] + cs[1..]
    else
      var r := [cs[0]] + AddChild(cs[1..], name, part);
      assert r[1..] == AddChild(cs[1..], name, part);
      r
  }

  /** The element names in the order they first occur. */
  function FirstNames(es: seq<Placed>): (ns: seq<string>)
    ensures Distinct(ns)
    ensures forall n :: n in ns <==> exists j :: 0 <= j < |es| && es[j].name == n
  {
    if es == [] then []
    else
      var init := es[..|es| - 1];
      var ns := FirstNames(init);
      var n := es[|es| - 1].name;
      assert forall j :: 0 <= j < |init| ==> init[j] == es[j];
      if n in ns then ns else ns + [n]
  }

  /** The part of the last element carrying the name: the one a dictionary store keeps. */
  function LastPart(es: seq<Placed>, name: string): Option<Part>
  {
    if es == [] then None
    else if es[|es| - 1].name == name then Some(es[|es| - 1].part)
    else LastPart(es[..|es| - 1], name)
  }

  /** There is no part for a name no element carries; otherwise it is the part of the last element carrying it. */
  lemma LastPartIsLast(es: seq<Placed>, name: string)
    ensures LastPart(es, name).None? <==> forall j :: 0 <= j < |es| ==> es[j].name != name
    ensures LastPart(es, name).Some? ==> exists j :: LastNamed(es, name, j) && es[j].part == LastPart(es, name).value
  {
    LastPartNone(es, name);
    LastPartSome(es, name);
  }

  lemma {:induction false} LastPartNone(es: seq<Placed>, name: string)
    ensures LastPart(es, name).None? <==> forall j :: 0 <= j < |es| ==> es[j].name != name
  {
    if es != [] && es[|es| - 1].name != name {
      var init := es[..|es| - 1];
      LastPartNone(init, name);
      assert forall j :: 0 <= j < |init| ==> init[j] == es[j];
    }
  }

  lemma {:induction false} LastPartSome(es: seq<Placed>, name: string)
    ensures LastPart(es, name).Some? ==> exists j :: LastNamed(es, name, j) && es[j].part == LastPart(es, name).value
  {
    if es == [] {
    } else if es[|es| - 1].name == name {
      assert LastNamed(es, name, |es| - 1);
    } else if LastPart(es, name).Some? {
      var init := es[..|es| - 1];
      LastPartSome(init, name);
      var j :| LastNamed(init, name, j) && init[j].part == LastPart(init, name).value;
      assert forall i :: 0 <= i < |init| ==> init[i] == es[i];
      assert LastNamed(es, name, j);
    }
  }

  /** Element `j` carries the name and no later element does. */
  predicate LastNamed(es: seq<Placed>, name: string, j: int)
  {
    0 <= j < |es| && es[j].name == name && forall i :: j < i < |es| ==> es[i].name != name
  }

  /**
   * `reconstruct`: every element is added as a child under its name, and the
   * search runs from every output pin in turn. The children are keyed by the
   * names in first-occurrence order, and each name holds the part of the last
   * element carrying it. Connection `k` joins output `from[k]` to the first
   * input standing at `at[k]`, a position reachable from that output along
   * the wires.
   */
  method Reconstruct(sh: Sheet) returns (children: Children, links: seq<Netlist.Conn>,
                                         from: seq<nat>, at: seq<Point>)
    ensures ChildKeys(children) == FirstNames(sh.elements)
    ensures forall n :: ChildAt(children, n) == LastPart(sh.elements, n)
    ensures |links| == |from| == |at|
    ensures forall k :: 0 <= k < |links| ==> from[k] < |Sources(sh.elements)|
    ensures forall k :: 0 <= k < |links| ==> Reachable(sh.wires, Sources(sh.elements)[from[k]].pos, at[k])
    ensures forall k :: 0 <= k < |links| ==> LinkAt(Dests(sh.elements), Sources(sh.elements)[from[k]], at[k], links[k])
  {
    var es := sh.elements;
    children := StoreChildren(es);
    var srcs, dests := Sources(es), Dests(es);
    links, from, at := [], [], [];
    for i := 0 to |srcs|
      invariant Gathered(sh.wires, srcs, dests, links, from, at)
    {
      var ls, ps := Search(sh.wires, dests, srcs[i]);
      GatheredAppend(sh.wires, srcs, dests, links, from, at, i, ls, ps);
      links, from, at := links + ls, from + seq(|ls|, _ => i), at + ps;
    }
  }

  /** The first loop of `reconstruct`: every element stored as a child under its name, in order. */
  method StoreChildren(es: seq<Placed>) returns (children: Children)
    ensures ChildKeys(children) == FirstNames(es)
    ensures forall n :: ChildAt(children, n) == LastPart(es, n)
  {
    children := [];
    for k := 0 to |es|
      invariant ChildKeys(children) == FirstNames(es[..k])
      invariant forall n :: ChildAt(children, n) == LastPart(es[..k], n)
    {
      assert es[..k + 1][..k] == es[..k];
      children := AddChild(children, es[k].name, es[k].part);
    }
    assert es[..|es|] == es;
  }

  /**
   * `change_wires`: place the new wires, then `reconstruct` from the sheet
   * that carries them. A diagonal segment raises before anything is rebuilt.
   */
  method ChangeWiresRebuild(sh: Sheet, segs: seq<Segment>)
    returns (r: Result<Sheet, string>, children: Children, links: seq<Netlist.Conn>, from: seq<nat>, at: seq<Point>)
    ensures r == ChangeWires(sh, segs)
    ensures r.Err? ==> children == [] && links == []
    ensures r.Ok? ==> ChildKeys(children) == FirstNames(sh.elements)
    ensures r.Ok? ==> forall n :: ChildAt(children, n) == LastPart(sh.elements, n)
    ensures |links| == |from| == |at|
    ensures r.Ok? ==> forall k :: 0 <= k < |links| ==>
              from[k] < |Sources(sh.elements)| && Reachable(r.value.wires, Sources(sh.elements)[from[k]].pos, at[k])
  {
    r := ChangeWires(sh, segs);
    if r.Err? {
      return r, [], [], [], [];
    }
    children, links, from, at := Reconstruct(r.value);
  }
}
