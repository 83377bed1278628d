/**
 * The example driver `examples/counter.py` as a concrete netlist: a clock
 * `clk` driving the clock input of a 16-bit counter `r`, built with pins
 * mapped to their sources, then stepped. As compiled, the counter only ever
 * flips bit 0 of `/r/out`; as intended it counts the clock's rising edges.
 */
module CounterExample {
  import opened Common
  import opened Bits
  import opened Netlist
  import opened Schedule
  import opened Trace
  import opened Engine
  import opened Primitives
  import Dfs
  import Scenarios

  /** The counter example: a clock whose output drives the clock input of a 16-bit counter. */
  function ClockedCounter(): (d: Desc)
    ensures d.Schematic? && WellFormed(d)
  {
    var d := Schematic([Child("clk", Clock), Child("r", Counter(16))], [Conn("clk", "out", "r", "clock")]);
    assert Names(d.children) == ["clk", "r"];
    assert FirstSegment("clk") == "clk" && FirstSegment("r") == "r";
    d
  }

  /** The dependency graph: the counter depends on the clock, the clock on nothing. */
  function CounterGraph(): Dfs.Adjacency<string>
  {
    map["clk" := [], "r" := ["clk"]]
  }

  lemma ClockedCounterGraph()
    ensures DepGraph(ClockedCounter()) == CounterGraph()
  {
    var d := ClockedCounter();
    assert FirstSegment("clk") == "clk" && FirstSegment("r") == "r";
    assert d.connections[1..] == [];
    assert Producers(d.connections, "clk") == [];
    assert Producers(d.connections, "r") == ["clk"];
    assert Names(d.children) == ["clk", "r"];
  }

  /** The clock has no producer and feeds the counter, so it is scheduled first. */
  lemma ClockedCounterOrder()
    ensures Order(ClockedCounter()) == ["clk", "r"]
  {
    ClockedCounterGraph();
    assert Names(ClockedCounter().children) == ["clk", "r"];
    var roots := ["clk", "r"];
    var g := CounterGraph();
    Dfs.UniverseClosed(g, roots);
    var U := Dfs.Universe(g, roots);
    var w0 := Dfs.Walk({}, []);
    var wA := Dfs.Walk({"clk"}, ["clk"]);
    var wB := Dfs.Walk({"clk", "r"}, ["clk", "r"]);
    VisitClock(U);
    VisitCounter(U);
    assert roots[1..] == ["r"];
    assert Dfs.VisitAll(g, U, [], wB) == wB;
    assert Dfs.VisitAll(g, U, ["r"], wA) == wB;
    assert Dfs.VisitAll(g, U, roots, w0) == wB;
  }

  lemma VisitClock(U: set<string>)
    requires Dfs.Closed(CounterGraph(), U) && "clk" in U
    ensures Dfs.Visit(CounterGraph(), U, "clk", Dfs.Walk({}, [])) == Dfs.Walk({"clk"}, ["clk"])
  {
    var g := CounterGraph();
    var w1 := Dfs.Walk({"clk"}, []);
    assert Dfs.Succ(g, "clk") == [];
    assert Dfs.VisitAll(g, U, [], w1) == w1;
  }

  lemma VisitCounter(U: set<string>)
    requires Dfs.Closed(CounterGraph(), U) && "clk" in U && "r" in U
    ensures Dfs.Visit(CounterGraph(), U, "r", Dfs.Walk({"clk"}, ["clk"])) == Dfs.Walk({"clk", "r"}, ["clk", "r"])
  {
    var g := CounterGraph();
    var w2 := Dfs.Walk({"clk", "r"}, ["clk"]);
    assert {"clk"} + {"r"} == w2.visited;
    assert Dfs.Succ(g, "r") == ["clk"];
    assert Dfs.Visit(g, U, "clk", w2) == w2;
    assert Dfs.VisitAll(g, U, [], w2) == w2;
    assert Dfs.VisitAll(g, U, ["clk"], w2) == w2;
  }

  /** The paths of the two children and their pins below the root. */
  lemma CounterPaths()
    ensures "/" + "clk" + "/" == "/clk/" && "/" + "r" + "/" == "/r/"
    ensures "/" + "clk" + "/" + "out" == "/clk/out" && "/" + "r" + "/" + "clock" == "/r/clock"
    ensures "/clk/" + "out" == "/clk/out" && "/r/" + "clock" == "/r/clock"
    ensures "/r/" + "out" == "/r/out" && "/r/" + "prevclock" == "/r/prevclock"
  {
  }

  lemma ClockedCounterTopology()
    ensures Topology(ClockedCounter(), "/")
            == [Emit(Clock, "/clk/"), Propagate("/clk/out", "/r/clock"), Emit(Counter(16), "/r/")]
  {
    var d := ClockedCounter();
    CounterBlocks();
    TopologyInOrder();
    Assemble(Topology(d, "/"), TopoBlock(d, "/", "clk"), TopoBlock(d, "/", "r"),
             Emit(Clock, "/clk/"), Propagate("/clk/out", "/r/clock"), Emit(Counter(16), "/r/"));
  }

  lemma Assemble<T>(t: seq<T>, a: seq<T>, b: seq<T>, x: T, y: T, z: T)
    requires t == a + b && a == [x, y] && b == [z]
    ensures t == [x, y, z]
  {
  }

  /** The schedule is the clock's block followed by the counter's. */
  lemma TopologyInOrder()
    ensures var d := ClockedCounter();
            "clk" in Names(d.children) && "r" in Names(d.children)
            && Topology(d, "/") == TopoBlock(d, "/", "clk") + TopoBlock(d, "/", "r")
  {
    var d := ClockedCounter();
    ClockedCounterOrder();
    assert Names(d.children) == ["clk", "r"];
    TopologyOfTwo(d, "/", "clk", "r");
  }

  /** A schematic scheduled as `[a, b]` runs `a`'s block, then `b`'s. */
  lemma TopologyOfTwo(node: Desc, path: string, a: string, b: string)
    requires node.Schematic? && WellFormed(node) && Order(node) == [a, b]
    requires a in Names(node.children) && b in Names(node.children)
    ensures Topology(node, path) == TopoBlock(node, path, a) + TopoBlock(node, path, b)
  {
    var order := [a, b];
    assert order[1..] == [b] && order[1..][1..] == [];
    var x, y := TopoBlock(node, path, a), TopoBlock(node, path, b);
    assert TopoBlocks(node, path, [b]) == y + [];
    assert TopoBlocks(node, path, order) == x + TopoBlocks(node, path, [b]);
    assert Topology(node, path) == TopoBlocks(node, path, order);
    assert y + [] == y;
  }

  lemma ClockedCounterConnections()
    ensures Connections(ClockedCounter(), "/") == [Wire("/clk/out", "/r/clock")]
  {
    var d := ClockedCounter();
    ClockedCounterOrder();
    CounterBlocks();
    ConnectionsOfTwo(d, "/", "clk", "r");
    AssembleOne(Connections(d, "/"), ConnBlock(d, "/", "clk"), ConnBlock(d, "/", "r"), Wire("/clk/out", "/r/clock"));
  }

  /** A schematic scheduled as `[a, b]` wires `a`'s connections, then `b`'s. */
  lemma ConnectionsOfTwo(node: Desc, path: string, a: string, b: string)
    requires node.Schematic? && WellFormed(node) && Order(node) == [a, b]
    requires a in Names(node.children) && b in Names(node.children)
    ensures Connections(node, path) == ConnBlock(node, path, a) + ConnBlock(node, path, b)
  {
    var order := [a, b];
    assert order[1..] == [b] && order[1..][1..] == [];
    var x, y := ConnBlock(node, path, a), ConnBlock(node, path, b);
    assert ConnBlocks(node, path, [b]) == y + [];
    assert ConnBlocks(node, path, order) == x + ConnBlocks(node, path, [b]);
    assert Connections(node, path) == ConnBlocks(node, path, order);
    assert y + [] == y;
  }

  lemma AssembleOne<T>(t: seq<T>, a: seq<T>, b: seq<T>, x: T)
    requires t == a + b && a == [x] && b == []
    ensures t == [x]
  {
  }

  /** Each child's block: the clock emits and propagates into the counter; the counter only emits. */
  lemma CounterBlocks()
    ensures var d := ClockedCounter();
            "clk" in Names(d.children) && "r" in Names(d.children)
            && TopoBlock(d, "/", "clk") == [Emit(Clock, "/clk/"), Propagate("/clk/out", "/r/clock")]
            && TopoBlock(d, "/", "r") == [Emit(Counter(16), "/r/")]
            && ConnBlock(d, "/", "clk") == [Wire("/clk/out", "/r/clock")]
            && ConnBlock(d, "/", "r") == []
  {
    var d := ClockedCounter();
    assert Names(d.children) == ["clk", "r"];
    assert IndexOf(d.children, "clk") == 0;
    assert IndexOf(d.children, "r") == 1;
    CounterPaths();
    CounterProps();
  }

  lemma CounterProps()
    ensures var conns := ClockedCounter().connections;
            Props(conns, "/", "clk") == [Propagate("/clk/out", "/r/clock")]
            && Props(conns, "/", "r") == []
            && ConnsFrom(conns, "/", "clk") == [Wire("/clk/out", "/r/clock")]
            && ConnsFrom(conns, "/", "r") == []
  {
    var conns := ClockedCounter().connections;
    assert FirstSegment("clk") == "clk";
    CounterPaths();
    assert conns[1..] == [];
  }

  /** The enumerated pins: the clock's output, then the counter's input, output and hidden previous clock. */
  function CounterPins(): seq<PinEntry>
  {
    PinsOver("/clk/out", "/r/clock", "/r/out", "/r/prevclock")
  }

  lemma ClockedCounterPins()
    ensures SimulationPins(ClockedCounter(), "/") == CounterPins()
  {
    var d := ClockedCounter();
    CounterPaths();
    assert Tag(Inputs(Clock), "/clk/", InPin) == [];
    assert Tag(Outputs(Clock), "/clk/", OutPin) == [PinEntry("/clk/out", 1, OutPin)];
    assert Tag(Internals(Clock), "/clk/", InternalPin) == [];
    assert LocalPins(Clock, "/clk/") == [PinEntry("/clk/out", 1, OutPin)];
    assert Tag(Inputs(Counter(16)), "/r/", InPin) == [PinEntry("/r/clock", 1, InPin)];
    assert Tag(Outputs(Counter(16)), "/r/", OutPin) == [PinEntry("/r/out", 16, OutPin)];
    assert Tag(Internals(Counter(16)), "/r/", InternalPin) == [PinEntry("/r/prevclock", 1, InternalPin)];
    assert LocalPins(Counter(16), "/r/") == CounterPins()[1..];
    assert PinsFrom(d, "/", 2) == [];
    assert PinsFrom(d, "/", 1) == LocalPins(Counter(16), "/r/") + PinsFrom(d, "/", 2);
    assert SimulationPins(d, "/") == LocalPins(Clock, "/clk/") + PinsFrom(d, "/", 1);
  }

  // ---------------------------------------------------------------- the machine, over any four distinct paths

  /**
   * Four pin paths, pairwise different: the clock's output, the counter's
   * clock input, the counter's output and its previous clock.
   */
  predicate Apart(clk: string, rclk: string, out: string, prev: string)
  {
    clk != rclk && clk != out && clk != prev && rclk != out && rclk != prev && out != prev
  }

  function PinsOver(clk: string, rclk: string, out: string, prev: string): seq<PinEntry>
  {
    [PinEntry(clk, 1, OutPin), PinEntry(rclk, 1, InPin), PinEntry(out, 16, OutPin), PinEntry(prev, 1, InternalPin)]
  }

  /** The one wire: the counter's clock input is driven by the clock's output. */
  function ConnsOver(clk: string, rclk: string): ConnMap
  {
    map[rclk := clk]
  }

  /** The counter's clock input traces to the clock's output; every other pin owns its cell. */
  function PinMapOver(clk: string, rclk: string, out: string, prev: string): PinMap
  {
    Some(map[prev := None, out := None, rclk := Some(clk), clk := None])
  }

  /** One cell per pin but the counter's clock input, which shares the clock's; the counter is `w` bits wide. */
  function CellsOver(w: Width, clk: string, out: string, prev: string): map<string, Width>
  {
    map[prev := 1, out := w, clk := 1]
  }

  /** The compiled tick: toggle the clock, copy it onto itself, then run the `w`-bit counter. */
  function ProgramOver(w: Width, clk: string, out: string, prev: string): seq<Instr>
  {
    [ClockI(1, clk), Copy(1, clk, clk), CounterI(w, 1, prev, clk, out)]
  }

  lemma TracesOver(clk: string, rclk: string, out: string, prev: string)
    requires Apart(clk, rclk, out, prev)
    ensures TracePin(ConnsOver(clk, rclk), rclk) == Source(clk)
    ensures forall p :: p in {clk, out, prev} ==> TracePin(ConnsOver(clk, rclk), p) == Undriven
  {
    var conns := ConnsOver(clk, rclk);
    assert Chase(conns, clk, 0) == Some(clk);
    assert Chase(conns, rclk, 1) == Some(clk);
  }

  lemma SourcesOver(clk: string, rclk: string, out: string, prev: string)
    requires Apart(clk, rclk, out, prev)
    ensures MapToSources(ConnsOver(clk, rclk), Paths(PinsOver(clk, rclk, out, prev)))
            == Ok(PinMapOver(clk, rclk, out, prev).value)
  {
    var conns := ConnsOver(clk, rclk);
    assert Paths(PinsOver(clk, rclk, out, prev)) == [clk, rclk, out, prev];
    TracesOver(clk, rclk, out, prev);
    var m3 := map[prev := None];
    assert MapToSources(conns, [prev]) == Ok(m3) by {
      assert [prev][1..] == [];
    }
    var m2 := m3[out := None];
    assert MapToSources(conns, [out, prev]) == Ok(m2) by {
      assert [out, prev][1..] == [prev];
    }
    var m1 := m2[rclk := Some(clk)];
    assert MapToSources(conns, [rclk, out, prev]) == Ok(m1) by {
      assert [rclk, out, prev][1..] == [out, prev];
    }
    assert MapToSources(conns, [clk, rclk, out, prev]) == Ok(m1[clk := None]) by {
      assert [clk, rclk, out, prev][1..] == [rclk, out, prev];
    }
    assert m1[clk := None] == PinMapOver(clk, rclk, out, prev).value;
  }

  lemma AllocateOver(clk: string, rclk: string, out: string, prev: string)
    requires Apart(clk, rclk, out, prev)
    ensures Allocate(PinsOver(clk, rclk, out, prev), PinMapOver(clk, rclk, out, prev)) == CellsOver(16, clk, out, prev)
  {
    var pm := PinMapOver(clk, rclk, out, prev);
    var e0, e1, e2, e3 := PinEntry(clk, 1, OutPin), PinEntry(rclk, 1, InPin), PinEntry(out, 16, OutPin), PinEntry(prev, 1, InternalPin);
    assert OwnsCell(pm, clk) && !OwnsCell(pm, rclk) && OwnsCell(pm, out) && OwnsCell(pm, prev);
    AllocateOne(e3, pm);
    AllocateTwo(e2, e3, pm, map[prev := 1]);
    AllocateThree(e1, e2, e3, pm, map[prev := 1, out := 16]);
    AllocateFour(e0, e1, e2, e3, pm, map[prev := 1, out := 16]);
  }

  lemma AllocateOne(a: PinEntry, pm: PinMap)
    ensures Allocate([a], pm) == if OwnsCell(pm, a.path) then map[a.path := a.width] else map[]
  {
    assert [a][1..] == [];
  }

  lemma AllocateTwo(a: PinEntry, b: PinEntry, pm: PinMap, m: map<string, Width>)
    requires Allocate([b], pm) == m
    ensures Allocate([a, b], pm) == if OwnsCell(pm, a.path) then m[a.path := a.width] else m
  {
    assert [a, b][1..] == [b];
  }

  lemma AllocateThree(a: PinEntry, b: PinEntry, c: PinEntry, pm: PinMap, m: map<string, Width>)
    requires Allocate([b, c], pm) == m
    ensures Allocate([a, b, c], pm) == if OwnsCell(pm, a.path) then m[a.path := a.width] else m
  {
    assert [a, b, c][1..] == [b, c];
  }

  lemma AllocateFour(a: PinEntry, b: PinEntry, c: PinEntry, d: PinEntry, pm: PinMap, m: map<string, Width>)
    requires Allocate([b, c, d], pm) == m
    ensures Allocate([a, b, c, d], pm) == if OwnsCell(pm, a.path) then m[a.path := a.width] else m
  {
    assert [a, b, c, d][1..] == [b, c, d];
  }

  lemma CompileOver(clk: string, rclk: string, out: string, prev: string, cp: string, rp: string)
    requires Apart(clk, rclk, out, prev)
    requires cp + "out" == clk && rp + "clock" == rclk && rp + "out" == out && rp + "prevclock" == prev
    ensures CompileOps(CellsOver(16, clk, out, prev), PinMapOver(clk, rclk, out, prev),
                       [Emit(Clock, cp), Propagate(clk, rclk), Emit(Counter(16), rp)])
            == Ok(Piece(ProgramOver(16, clk, out, prev), [], []))
  {
    var cells, pm := CellsOver(16, clk, out, prev), PinMapOver(clk, rclk, out, prev);
    var ops := [Emit(Clock, cp), Propagate(clk, rclk), Emit(Counter(16), rp)];
    var p0 := Piece([ClockI(1, clk)], [], []);
    var p1 := Piece([Copy(1, clk, clk)], [], []);
    var p2 := Piece([CounterI(16, 1, prev, clk, out)], [], []);
    assert GlobalAt(cells, pm, clk) == Ok(Cell(clk, 1));
    assert GlobalAt(cells, pm, rclk) == Ok(Cell(clk, 1));
    assert GlobalAt(cells, pm, out) == Ok(Cell(out, 16));
    assert GlobalAt(cells, pm, prev) == Ok(Cell(prev, 1));
    assert CompileOp(cells, pm, ops[0]) == Ok(p0);
    assert CompileOp(cells, pm, ops[1]) == Ok(p1);
    assert CompileOp(cells, pm, ops[2]) == Ok(p2);
    Scenarios.CompileTwo(cells, pm, ops[1], ops[2], p1, p2);
    assert ops[1..] == [ops[1], ops[2]];
    assert CompileOps(cells, pm, ops[1..]) == Ok(Piece(p1.code + p2.code, [], []));
    assert CompileOps(cells, pm, ops) == Ok(Piece(p0.code + (p1.code + p2.code), [] + [], [] + []));
    assert p0.code + (p1.code + p2.code) == ProgramOver(16, clk, out, prev);
  }

  // ---------------------------------------------------------------- the concrete build

  /** The four pin paths are different strings. */
  lemma CounterPathsApart()
    ensures Apart("/clk/out", "/r/clock", "/r/out", "/r/prevclock")
  {
    assert "/clk/out"[1] != "/r/clock"[1];
    assert |"/r/out"| != |"/clk/out"| && |"/r/out"| != |"/r/prevclock"| && |"/r/out"| != |"/r/clock"|;
    assert |"/r/prevclock"| != |"/clk/out"| && |"/r/prevclock"| != |"/r/clock"|;
  }

  function CounterPinMap(): PinMap
  {
    PinMapOver("/clk/out", "/r/clock", "/r/out", "/r/prevclock")
  }

  function CounterCells(): map<string, Width>
  {
    CellsOver(16, "/clk/out", "/r/out", "/r/prevclock")
  }

  function CounterProgram(): seq<Instr>
  {
    ProgramOver(16, "/clk/out", "/r/out", "/r/prevclock")
  }

  lemma ClockedCounterPinMap()
    ensures PinMapOf(ClockedCounter(), true) == Ok(CounterPinMap())
  {
    ClockedCounterPins();
    ClockedCounterConnections();
    OneWire("/clk/out", "/r/clock");
    CounterPathsApart();
    SourcesOver("/clk/out", "/r/clock", "/r/out", "/r/prevclock");
  }

  lemma OneWire(src: string, dst: string)
    ensures ConnMapOf([Wire(src, dst)]) == ConnsOver(src, dst)
  {
    assert [Wire(src, dst)][..0] == [];
  }

  /** The built machine over any four paths, with a `w`-bit counter and every cell at zero. */
  function JitOver(w: Width, clk: string, rclk: string, out: string, prev: string, burstSize: int): Jit
  {
    Jit(Machine(CellsOver(w, clk, out, prev), PinMapOver(clk, rclk, out, prev), ProgramOver(w, clk, out, prev), burstSize),
        Zeroed(CellsOver(w, clk, out, prev)))
  }

  /** The machine `examples/counter.py` builds, with every cell at zero. */
  function CounterJit(burstSize: int): Jit
  {
    JitOver(16, "/clk/out", "/r/clock", "/r/out", "/r/prevclock", burstSize)
  }

  lemma ClockedCounterBuild(burstSize: int)
    ensures Build(ClockedCounter(), burstSize, true) == Ok(CounterJit(burstSize))
  {
    ClockedCounterPinMap();
    ClockedCounterPins();
    CounterPathsApart();
    AllocateOver("/clk/out", "/r/clock", "/r/out", "/r/prevclock");
    ClockedCounterTopology();
    CounterPaths();
    CompileOver("/clk/out", "/r/clock", "/r/out", "/r/prevclock", "/clk/", "/r/");
    BuildWithoutConstants(ClockedCounter(), burstSize, true, CounterPinMap(), CounterProgram());
  }
}

/**
 * Running `examples/counter.py`'s machine. Each tick the clock toggles and
 * the counter sees a rising edge on every tick that sets the clock; the tick
 * is proved over any three distinct cell names, then read through the pin
 * paths of the concrete build.
 */
module CounterRun {
  import opened Common
  import opened Bits
  import opened Engine
  import opened Primitives
  import opened CounterExample


  /**
   * The value of `/r/out` after `edges` rising clock edges from zero: as
   * compiled each edge flips bit 0 only; as intended it counts modulo 2^w.
   */
  function CountAfter(v: Variant, w: Width, edges: nat): (o: nat)
    ensures Fits(w, o)
  {
    Pow2Half(w);
    if v == AsWritten then edges % 2 else edges % Pow2(w)
  }

  /**
   * The cells after `t` ticks from zero: the clock and its copy in
   * `prevclock` read `t` modulo 2, and the counter has seen `(t + 1) / 2`
   * rising edges, one on every odd tick.
   */
  function StoreAt(v: Variant, w: Width, clk: string, out: string, prev: string, t: nat): Store
  {
    map[prev := t % 2, out := CountAfter(v, w, (t + 1) / 2), clk := t % 2]
  }

  /** A one-bit clock toggles. */
  lemma ClockToggles(c: nat)
    requires c <= 1
    ensures Fits(1, c) && ClockStep(1, c) == 1 - c
  {
    Widths();
    assert Fits(1, c);
  }

  lemma Widths()
    ensures Pow2(1) == 2 && Mask(1) == 1
  {
  }

  /** A one-bit clock that was `c` and now reads `1 - c` rises exactly when `c` was 0. */
  lemma EdgeOfToggle(c: nat)
    requires c <= 1
    ensures Edge(1, c, 1 - c) == 1 - c
  {
    if c == 0 {
      Rises();
    } else {
      assert Edge(1, 1, 0) == 0;
    }
  }

  lemma Rises()
    ensures Edge(1, 0, 1) == 1
  {
    NotZero();
    AndOne(1);
  }

  lemma NotZero()
    ensures BitNot(1, 0) == 1
  {
    Widths();
  }

  /** Adding one then reducing is adding one to the reduced value. */
  lemma ModSucc(k: nat, p: nat)
    requires p >= 1
    ensures (k % p + 1) % p == (k + 1) % p
  {
    var q, r := k / p, k % p;
    if r + 1 < p {
      ModUnique(k + 1, p, q, r + 1);
    } else {
      assert (q + 1) * p == q * p + p;
      ModUnique(k + 1, p, q + 1, 0);
    }
  }

  /** The counter's output after a tick whose clock rose iff `t` was even. */
  lemma CounterUpdate(v: Variant, w: Width, t: nat)
    ensures var o := CountAfter(v, w, (t + 1) / 2);
            var e := Edge(1, t % 2, 1 - t % 2);
            (if v == AsWritten then CounterAsWritten(w, Trunc(w, e), o) else CounterIntended(w, e % 2, o))
            == CountAfter(v, w, (t + 2) / 2)
  {
    Pow2Half(w);
    EdgeOfToggle(t % 2);
    if t % 2 == 0 {
      assert (t + 1) / 2 == t / 2 && (t + 2) / 2 == t / 2 + 1;
      RisingEdge(v, w, t / 2);
    } else {
      assert (t + 2) / 2 == (t + 1) / 2;
      NoEdge(v, w, (t + 1) / 2);
    }
  }

  lemma RisingEdge(v: Variant, w: Width, k: nat)
    ensures Fits(w, 1) && Trunc(w, 1) == 1
    ensures var o := CountAfter(v, w, k);
            (if v == AsWritten then CounterAsWritten(w, 1, o) else CounterIntended(w, 1, o)) == CountAfter(v, w, k + 1)
  {
    Pow2Half(w);
    var o := CountAfter(v, w, k);
    if v == AsWritten {
      CounterAsWrittenFlipsBitZero(w, 1, o);
    } else {
      ModSucc(k, Pow2(w));
    }
  }

  lemma NoEdge(v: Variant, w: Width, k: nat)
    ensures Trunc(w, 0) == 0
    ensures var o := CountAfter(v, w, k);
            (if v == AsWritten then CounterAsWritten(w, 0, o) else CounterIntended(w, 0, o)) == o
  {
    if v == AsWritten {
      CounterAsWrittenFlipsBitZero(w, 0, CountAfter(v, w, k));
    }
  }

  /** One tick, as compiled or as intended, advances the cells from `t` ticks to `t + 1`. */
  lemma TickOver(v: Variant, w: Width, clk: string, out: string, prev: string, t: nat)
    requires clk != out && clk != prev && out != prev
    ensures Run(v, ProgramOver(w, clk, out, prev), StoreAt(v, w, clk, out, prev, t)) == StoreAt(v, w, clk, out, prev, t + 1)
  {
    var c := t % 2;
    var nc: nat := 1 - c;
    var o := CountAfter(v, w, (t + 1) / 2);
    var o' := CountAfter(v, w, (t + 2) / 2);
    var s0 := StoreAt(v, w, clk, out, prev, t);
    var s1: Store := s0[clk := nc];
    ReadBit(s0, clk, c);
    ClockToggles(c);
    ExecClock(v, clk, s0, c, nc);
    ReadBit(s1, clk, nc);
    ExecCopy(v, clk, s1, nc);
    ReadBit(s1, prev, c);
    ReadWord(s1, out, w, o);
    CounterUpdate(v, w, t);
    ExecCounterAt(v, w, 1, clk, out, prev, s1, c, nc, o, o');
    RunThree(v, ClockI(1, clk), Copy(1, clk, clk), CounterI(w, 1, prev, clk, out), s0);
    assert Run(v, ProgramOver(w, clk, out, prev), s0) == s1[out := o'][prev := nc];
    Shuffle(clk, out, prev, c, o, nc, o');
    NextStore(v, w, clk, out, prev, t);
  }

  /** The cells after `t + 1` ticks, written with the clock value after `t`. */
  lemma NextStore(v: Variant, w: Width, clk: string, out: string, prev: string, t: nat)
    ensures var nc: nat := 1 - t % 2;
            StoreAt(v, w, clk, out, prev, t + 1) == map[prev := nc, out := CountAfter(v, w, (t + 2) / 2), clk := nc]
  {
    Parity(t);
    assert (t + 1 + 1) / 2 == (t + 2) / 2;
  }

  lemma Parity(t: nat)
    ensures (t + 1) % 2 == 1 - t % 2
  {
  }

  /** Overwriting all three cells gives the three new values, in whatever order. */
  lemma Shuffle(clk: string, out: string, prev: string, c: nat, o: nat, c': nat, o': nat)
    requires clk != out && clk != prev && out != prev
    ensures (map[prev := c, out := o, clk := c])[clk := c'][out := o'][prev := c'] == map[prev := c', out := o', clk := c']
  {
  }

  lemma RunThree(v: Variant, a: Instr, b: Instr, c: Instr, s: Store)
    ensures Run(v, [a, b, c], s) == Exec(v, c, Exec(v, b, Exec(v, a, s)))
  {
    assert [a, b, c][1..] == [b, c] && [b, c][1..] == [c] && [c][1..] == [];
    var s1 := Exec(v, a, s);
    var s2 := Exec(v, b, s1);
    assert Run(v, [c], s2) == Run(v, [], Exec(v, c, s2));
    assert Run(v, [b, c], s1) == Run(v, [c], s2);
  }

  lemma ExecClock(v: Variant, clk: string, s: Store, r: nat, n: nat)
    requires Read(s, clk, 1) == r && ClockStep(1, r) == n
    ensures Exec(v, ClockI(1, clk), s) == s[clk := n]
  {
  }

  lemma ExecCopy(v: Variant, clk: string, s: Store, r: nat)
    requires clk in s && s[clk] == r && Read(s, clk, 1) == r
    ensures Exec(v, Copy(1, clk, clk), s) == s
  {
  }

  /** The counter stores its new output, then the clock it saw into `prevclock`. */
  lemma ExecCounterAt(v: Variant, w: Width, cw: Width, clk: string, out: string, prev: string, s: Store,
                      p: nat, c: nat, o: nat, o': nat)
    requires clk != out
    requires Read(s, prev, cw) == p && Read(s, clk, cw) == c && Read(s, out, w) == o
    requires (if v == AsWritten then CounterAsWritten(w, Trunc(w, Edge(cw, p, c)), o)
              else CounterIntended(w, Edge(cw, p, c) % 2, o)) == o'
    ensures Exec(v, CounterI(w, cw, prev, clk, out), s) == s[out := o'][prev := c]
  {
    ReadOther(s, out, o', clk, cw);
  }

  /** Storing into one cell leaves every other cell's reading alone. */
  lemma ReadOther(s: Store, q: string, x: nat, p: string, w: Width)
    requires p != q
    ensures Read(s[q := x], p, w) == Read(s, p, w)
  {
    assert Get(s[q := x], p) == Get(s, p);
  }

  /** A one-bit cell holding 0 or 1 reads back its value. */
  lemma ReadBit(s: Store, p: string, c: nat)
    requires p in s && s[p] == c && c <= 1
    ensures Read(s, p, 1) == c
  {
    if c == 0 {
      BitZero();
    } else {
      BitOne();
    }
  }

  lemma BitZero()
    ensures Trunc(1, 0) == 0
  {
  }

  lemma BitOne()
    ensures Trunc(1, 1) == 1
  {
  }

  /** A `w`-bit cell holding a `w`-bit value reads back its value. */
  lemma ReadWord(s: Store, p: string, w: Width, o: nat)
    requires p in s && s[p] == o && Fits(w, o)
    ensures Read(s, p, w) == o
  {
  }

  // ---------------------------------------------------------------- from the build

  /** The build's zeroed cells are the cells after no ticks. */
  lemma ZeroStart(v: Variant, w: Width, clk: string, out: string, prev: string)
    requires clk != out && clk != prev && out != prev
    ensures Zeroed(CellsOver(w, clk, out, prev)) == StoreAt(v, w, clk, out, prev, 0)
  {
    assert CountAfter(v, w, 0) == 0;
  }

  /** A machine whose tick advances the cells one step at a time reaches the cells after `t` ticks. */
  lemma {:induction false} TicksFromZero(v: Variant, w: Width, clk: string, out: string, prev: string, m: Machine, t: nat)
    requires forall u: nat :: Step(v, Jit(m, StoreAt(v, w, clk, out, prev, u))) == Jit(m, StoreAt(v, w, clk, out, prev, u + 1))
    ensures Iterate(v, Jit(m, StoreAt(v, w, clk, out, prev, 0)), t) == Jit(m, StoreAt(v, w, clk, out, prev, t))
  {
    if t > 0 {
      TicksFromZero(v, w, clk, out, prev, m, t - 1);
    }
  }

  lemma StepOver(v: Variant, w: Width, clk: string, out: string, prev: string, m: Machine, t: nat)
    requires clk != out && clk != prev && out != prev
    requires m.program == ProgramOver(w, clk, out, prev)
    ensures Step(v, Jit(m, StoreAt(v, w, clk, out, prev, t))) == Jit(m, StoreAt(v, w, clk, out, prev, t + 1))
  {
    TickOver(v, w, clk, out, prev, t);
  }

  /** What `get_pin_state` reads after `t` ticks, the counter's clock input through the clock's cell. */
  lemma ReadingsOver(v: Variant, w: Width, clk: string, rclk: string, out: string, prev: string, burstSize: int, t: nat)
    requires Apart(clk, rclk, out, prev)
    ensures var j := Jit(Machine(CellsOver(w, clk, out, prev), PinMapOver(clk, rclk, out, prev), ProgramOver(w, clk, out, prev), burstSize),
                         StoreAt(v, w, clk, out, prev, t));
            GetPin(j, clk) == Ok(t % 2) && GetPin(j, rclk) == Ok(t % 2)
            && GetPin(j, out) == Ok(CountAfter(v, w, (t + 1) / 2)) && GetPin(j, prev) == Ok(t % 2)
  {
    var pm := PinMapOver(clk, rclk, out, prev);
    assert Resolve(pm, clk) == Ok(clk) && Resolve(pm, rclk) == Ok(clk);
    assert Resolve(pm, out) == Ok(out) && Resolve(pm, prev) == Ok(prev);
  }

  /** After `t` ticks the clock pins read `t` modulo 2 and the counter has seen `(t + 1) / 2` edges. */
  lemma CountsOver(v: Variant, w: Width, clk: string, rclk: string, out: string, prev: string, burstSize: int, t: nat)
    requires Apart(clk, rclk, out, prev)
    ensures var j := Iterate(v, JitOver(w, clk, rclk, out, prev, burstSize), t);
            GetPin(j, clk) == Ok(t % 2) && GetPin(j, rclk) == Ok(t % 2)
            && GetPin(j, out) == Ok(CountAfter(v, w, (t + 1) / 2))
  {
    var m := JitOver(w, clk, rclk, out, prev, burstSize).machine;
    ZeroStart(v, w, clk, out, prev);
    forall u: nat ensures Step(v, Jit(m, StoreAt(v, w, clk, out, prev, u))) == Jit(m, StoreAt(v, w, clk, out, prev, u + 1)) {
      StepOver(v, w, clk, out, prev, m, u);
    }
    TicksFromZero(v, w, clk, out, prev, m, t);
    ReadingsOver(v, w, clk, rclk, out, prev, burstSize, t);
  }

  /**
   * `examples/counter.py`: after `t` ticks from the build (`CounterJit`, by
   * `ClockedCounterBuild`), `/clk/out` and `/r/clock` (which shares its
   * cell) read `t` modulo 2, and `/r/out` has seen `(t + 1) / 2` rising
   * edges: as compiled it reads that count modulo 2, as intended modulo 2^16.
   */
  lemma ClockedCounterCounts(v: Variant, burstSize: int, t: nat)
    ensures var j := Iterate(v, CounterJit(burstSize), t);
            GetPin(j, "/clk/out") == Ok(t % 2) && GetPin(j, "/r/clock") == Ok(t % 2)
            && GetPin(j, "/r/out") == Ok(CountAfter(v, 16, (t + 1) / 2))
  {
    CounterPathsApart();
    CountsOver(v, 16, "/clk/out", "/r/clock", "/r/out", "/r/prevclock", burstSize, t);
  }

  /** After `k` clock periods the counter reads `k` modulo 2 as compiled and modulo 2^w as intended. */
  lemma PeriodsOver(w: Width, clk: string, rclk: string, out: string, prev: string, burstSize: int, k: nat)
    requires Apart(clk, rclk, out, prev)
    ensures var j := JitOver(w, clk, rclk, out, prev, burstSize);
            GetPin(Iterate(AsWritten, j, 2 * k), out) == Ok(k % 2)
            && GetPin(Iterate(Intended, j, 2 * k), out) == Ok(k % Pow2(w))
  {
    PeriodOver(AsWritten, w, clk, rclk, out, prev, burstSize, k);
    PeriodOver(Intended, w, clk, rclk, out, prev, burstSize, k);
  }

  lemma PeriodOver(v: Variant, w: Width, clk: string, rclk: string, out: string, prev: string, burstSize: int, k: nat)
    requires Apart(clk, rclk, out, prev)
    ensures GetPin(Iterate(v, JitOver(w, clk, rclk, out, prev, burstSize), 2 * k), out) == Ok(CountAfter(v, w, k))
  {
    CountsOver(v, w, clk, rclk, out, prev, burstSize, 2 * k);
    assert (2 * k + 1) / 2 == k;
  }

  /**
   * As compiled, `/r/out` only ever holds 0 or 1 after any even number of
   * ticks; as intended it reads the number of clock periods, modulo 2^16.
   */
  lemma ClockedCounterPeriods(burstSize: int, k: nat)
    ensures var j := CounterJit(burstSize);
            GetPin(Iterate(AsWritten, j, 2 * k), "/r/out") == Ok(k % 2)
            && GetPin(Iterate(Intended, j, 2 * k), "/r/out") == Ok(k % Pow2(16))
  {
    CounterPathsApart();
    PeriodsOver(16, "/clk/out", "/r/clock", "/r/out", "/r/prevclock", burstSize, k);
  }

  /** A compiled burst of size `n` runs `n + 1` ticks; the intended one runs `n`. */
  lemma BurstOver(w: Width, clk: string, rclk: string, out: string, prev: string, n: nat)
    requires Apart(clk, rclk, out, prev) && n < WORD
    ensures var j := JitOver(w, clk, rclk, out, prev, n);
            GetPin(Iterate(AsWritten, j, BurstCount(j.machine) + 1), out) == Ok((n + 2) / 2 % 2)
            && GetPin(IntendedBurst(Intended, j), out) == Ok((n + 1) / 2 % Pow2(w))
  {
    ModBelow(n, WORD);
    CountsOver(AsWritten, w, clk, rclk, out, prev, n, n + 1);
    CountsOver(Intended, w, clk, rclk, out, prev, n, n);
  }

  /**
   * One burst with a burst size `n` that fits the 64-bit counter: as
   * compiled it runs `n + 1` ticks, so `/r/out` is left at the parity of
   * `(n + 2) / 2` rising edges; the intended burst of `n` ticks counts
   * `(n + 1) / 2` edges. With the example's 501 that is 1 against 251.
   */
  lemma ClockedCounterBurst(n: nat)
    requires n < WORD
    ensures var j := CounterJit(n);
            GetPin(Iterate(AsWritten, j, BurstCount(j.machine) + 1), "/r/out") == Ok((n + 2) / 2 % 2)
            && GetPin(IntendedBurst(Intended, j), "/r/out") == Ok((n + 1) / 2 % Pow2(16))
  {
    CounterPathsApart();
    BurstOver(16, "/clk/out", "/r/clock", "/r/out", "/r/prevclock", n);
  }
}
