/**
 * The example driver `examples/clock.py` as a concrete netlist: an inverter
 * fed back on itself, built with pins mapped to their sources, then stepped
 * and burst.
 */
module Scenarios {
  import opened Common
  import opened Bits
  import opened Netlist
  import opened Schedule
  import opened Trace
  import opened Engine
  import Dfs

  /** `examples/clock.py`: child `not`, its `out` wired to its own `in`. */
  function InverterLoop(w: Width): (d: Desc)
    ensures d.Schematic? && WellFormed(d)
  {
    var d := Schematic([Child("not", Not(w))], [Conn("not", "out", "not", "in")]);
    assert Names(d.children) == ["not"];
    d
  }

  lemma InverterLoopOrder(w: Width)
    ensures Order(InverterLoop(w)) == ["not"]
  {
    var d := InverterLoop(w);
    assert Producers(d.connections, "not") == ["not"];
    assert DepGraph(d) == map["not" := ["not"]];
    assert Names(d.children) == ["not"];
    SelfLoopPostorder("not");
  }

  /** A single node whose only edge leads back to itself is visited once. */
  lemma SelfLoopPostorder<N>(n: N)
    ensures Dfs.Postorder(map[n := [n]], [n]) == [n]
  {
    var g := map[n := [n]];
    var U := Dfs.Universe(g, [n]);
    Dfs.UniverseClosed(g, [n]);
    var w0 := Dfs.Walk({}, []);
    var w1 := Dfs.Walk({n}, []);
    var w2 := Dfs.Walk({n}, [n]);
    assert Dfs.Succ(g, n) == [n];
    assert Dfs.VisitAll(g, U, [], w1) == w1;
    assert Dfs.Visit(g, U, n, w1) == w1;
    assert Dfs.VisitAll(g, U, [n], w1) == w1;
    assert n in U && n !in w0.visited;
    assert Dfs.Walk(w0.visited + {n}, w0.post) == w1;
    assert Dfs.Visit(g, U, n, w0) == w2;
    assert Dfs.VisitAll(g, U, [], w2) == w2;
    assert Dfs.VisitAll(g, U, [n], w0) == w2;
  }

  /** The paths of the inverter's cell and pins below the root. */
  lemma NotPaths()
    ensures "/" + "not" + "/" == "/not/"
    ensures "/" + "not" + "/" + "out" == "/not/out" && "/" + "not" + "/" + "in" == "/not/in"
    ensures "/not/" + "in" == "/not/in" && "/not/" + "out" == "/not/out"
  {
  }

  lemma InverterLoopTopology(w: Width)
    ensures Topology(InverterLoop(w), "/") == [Emit(Not(w), "/not/"), Propagate("/not/out", "/not/in")]
    ensures Connections(InverterLoop(w), "/") == [Wire("/not/out", "/not/in")]
  {
    var d := InverterLoop(w);
    InverterLoopOrder(w);
    assert IndexOf(d.children, "not") == 0;
    assert FirstSegment("not") == "not";
    NotPaths();
    assert d.connections[1..] == [];
    assert Props(d.connections, "/", "not") == [Propagate("/not/out", "/not/in")] + Props([], "/", "not");
    assert ConnsFrom(d.connections, "/", "not") == [Wire("/not/out", "/not/in")] + ConnsFrom([], "/", "not");
    assert TopoBlock(d, "/", "not") == [Emit(Not(w), "/not/"), Propagate("/not/out", "/not/in")];
    assert TopoBlocks(d, "/", ["not"]) == TopoBlock(d, "/", "not") + TopoBlocks(d, "/", []);
    assert ConnBlock(d, "/", "not") == [Wire("/not/out", "/not/in")];
    assert ConnBlocks(d, "/", ["not"]) == ConnBlock(d, "/", "not") + ConnBlocks(d, "/", []);
  }

  lemma InverterLoopPins(w: Width)
    ensures SimulationPins(InverterLoop(w), "/") == [PinEntry("/not/in", w, InPin), PinEntry("/not/out", w, OutPin)]
    ensures Paths(SimulationPins(InverterLoop(w), "/")) == ["/not/in", "/not/out"]
  {
    var d := InverterLoop(w);
    NotPaths();
    assert Tag(Inputs(Not(w)), "/not/", InPin) == [PinEntry("/not/in", w, InPin)];
    assert Tag(Outputs(Not(w)), "/not/", OutPin) == [PinEntry("/not/out", w, OutPin)];
    assert Tag(Internals(Not(w)), "/not/", InternalPin) == [];
    assert LocalPins(Not(w), "/not/") == [PinEntry("/not/in", w, InPin), PinEntry("/not/out", w, OutPin)];
    assert PinsFrom(d, "/", 1) == [];
    assert SimulationPins(d, "/") == LocalPins(Not(w), "/not/") + PinsFrom(d, "/", 1);
  }

  /** The machine `examples/clock.py` builds: one cell, `/not/in` aliased to `/not/out`. */
  function InverterLoopMachine(w: Width, burstSize: int): Machine
  {
    Machine(map["/not/out" := w],
            Some(map["/not/in" := Some("/not/out"), "/not/out" := None]),
            [NotI(w, "/not/out", "/not/out"), Copy(w, "/not/out", "/not/out")],
            burstSize)
  }

  /** The pin map of the inverter loop: `/not/in` traces to `/not/out`, which no wire drives. */
  lemma InverterLoopPinMap(w: Width)
    ensures PinMapOf(InverterLoop(w), true) == Ok(Some(map["/not/in" := Some("/not/out"), "/not/out" := None]))
  {
    var d := InverterLoop(w);
    InverterLoopPins(w);
    var conns := map["/not/in" := "/not/out"];
    InverterLoopConnMap(w);
    InverterLoopSources();
  }

  lemma InverterLoopSources()
    ensures MapToSources(map["/not/in" := "/not/out"], ["/not/in", "/not/out"])
            == Ok(map["/not/in" := Some("/not/out"), "/not/out" := None])
  {
    var conns := map["/not/in" := "/not/out"];
    InverterLoopTraces();
    assert MapToSources(conns, ["/not/out"]) == Ok(map["/not/out" := None]) by {
      assert ["/not/out"][1..] == [];
    }
    assert ["/not/in", "/not/out"][1..] == ["/not/out"];
    assert MapToSources(conns, ["/not/in", "/not/out"]) == Ok(map["/not/out" := None]["/not/in" := Some("/not/out")]);
    assert map["/not/out" := None]["/not/in" := Some("/not/out")] == map["/not/in" := Some("/not/out"), "/not/out" := None];
  }

  lemma InverterLoopConnMap(w: Width)
    ensures ConnMapOf(Connections(InverterLoop(w), "/")) == map["/not/in" := "/not/out"]
  {
    InverterLoopTopology(w);
    var ws := [Wire("/not/out", "/not/in")];
    assert ws[..0] == [];
    assert ConnMapOf(ws) == ConnMapOf([])["/not/in" := "/not/out"];
  }

  lemma InverterLoopTraces()
    ensures TracePin(map["/not/in" := "/not/out"], "/not/in") == Source("/not/out")
    ensures TracePin(map["/not/in" := "/not/out"], "/not/out") == Undriven
  {
    var conns := map["/not/in" := "/not/out"];
    assert Chase(conns, "/not/out", 0) == Some("/not/out");
    assert Chase(conns, "/not/in", 1) == Some("/not/out");
  }

  lemma InverterLoopCompile(w: Width)
    ensures var pm := Some(map["/not/in" := Some("/not/out"), "/not/out" := None]);
            CompileOps(map["/not/out" := w], pm, Topology(InverterLoop(w), "/"))
            == Ok(Piece([NotI(w, "/not/out", "/not/out"), Copy(w, "/not/out", "/not/out")], [], []))
  {
    var pm := Some(map["/not/in" := Some("/not/out"), "/not/out" := None]);
    var cells: map<string, Width> := map["/not/out" := w];
    InverterLoopTopology(w);
    InverterLoopOps(w);
    CompileTwoCode(cells, pm, Topology(InverterLoop(w), "/"), Emit(Not(w), "/not/"), Propagate("/not/out", "/not/in"),
                   NotI(w, "/not/out", "/not/out"), Copy(w, "/not/out", "/not/out"));
  }

  /** A two-operation schedule whose operations each compile to one instruction compiles to both, in order. */
  lemma CompileTwoCode(cells: map<string, Width>, pm: PinMap, ops: seq<Op>, a: Op, b: Op, x: Instr, y: Instr)
    requires ops == [a, b]
    requires CompileOp(cells, pm, a) == Ok(Piece([x], [], [])) && CompileOp(cells, pm, b) == Ok(Piece([y], [], []))
    ensures CompileOps(cells, pm, ops) == Ok(Piece([x, y], [], []))
  {
    CompileTwo(cells, pm, a, b, Piece([x], [], []), Piece([y], [], []));
    assert [x] + [y] == [x, y];
  }

  /** Each of the loop's two operations compiles on its own. */
  lemma InverterLoopOps(w: Width)
    ensures var pm := Some(map["/not/in" := Some("/not/out"), "/not/out" := None]);
            var cells: map<string, Width> := map["/not/out" := w];
            CompileOp(cells, pm, Emit(Not(w), "/not/")) == Ok(Piece([NotI(w, "/not/out", "/not/out")], [], []))
            && CompileOp(cells, pm, Propagate("/not/out", "/not/in")) == Ok(Piece([Copy(w, "/not/out", "/not/out")], [], []))
  {
    InverterLoopGlobals(w);
    NotPaths();
  }

  /** Both of the inverter's pins resolve to its output cell. */
  lemma InverterLoopGlobals(w: Width)
    ensures var pm := Some(map["/not/in" := Some("/not/out"), "/not/out" := None]);
            var cells: map<string, Width> := map["/not/out" := w];
            GlobalAt(cells, pm, "/not/in") == Ok(Cell("/not/out", w))
            && GlobalAt(cells, pm, "/not/out") == Ok(Cell("/not/out", w))
  {
  }

  /** A two-operation schedule whose operations need no constants and no casts compiles to their code in order. */
  lemma CompileTwo(cells: map<string, Width>, pm: PinMap, a: Op, b: Op, pa: Piece, pb: Piece)
    requires CompileOp(cells, pm, a) == Ok(pa) && CompileOp(cells, pm, b) == Ok(pb)
    requires pa.constants == [] && pa.badCasts == [] && pb.constants == [] && pb.badCasts == []
    ensures CompileOps(cells, pm, [a, b]) == Ok(Piece(pa.code + pb.code, [], []))
  {
    var none: seq<ConstInit>, noCasts: seq<string> := [], [];
    assert [a, b][1..] == [b] && [b][1..] == [];
    assert CompileOps(cells, pm, []) == Ok(Piece([], [], []));
    assert pb.code + [] == pb.code && none + none == none && noCasts + noCasts == noCasts;
    assert CompileOps(cells, pm, [b]) == Ok(pb);
  }

  lemma InverterLoopCells(w: Width)
    ensures Allocate(SimulationPins(InverterLoop(w), "/"), Some(map["/not/in" := Some("/not/out"), "/not/out" := None]))
            == map["/not/out" := w]
  {
    InverterLoopPins(w);
    var pm := Some(map["/not/in" := Some("/not/out"), "/not/out" := None]);
    assert !OwnsCell(pm, "/not/in") && OwnsCell(pm, "/not/out");
    AllocateTwo(PinEntry("/not/in", w, InPin), PinEntry("/not/out", w, OutPin), pm);
  }

  /** Of two pins only the second owning a cell, the cells are that one pin's. */
  lemma AllocateTwo(a: PinEntry, b: PinEntry, pm: PinMap)
    requires !OwnsCell(pm, a.path) && OwnsCell(pm, b.path)
    ensures Allocate([a, b], pm) == map[b.path := b.width]
  {
    assert [a, b][1..] == [b] && [b][1..] == [];
    assert Allocate([b], pm) == Allocate([], pm)[b.path := b.width];
  }

  lemma InverterLoopBuild(w: Width, burstSize: int)
    ensures Build(InverterLoop(w), burstSize, true) == Ok(Jit(InverterLoopMachine(w, burstSize), Zeroed(map["/not/out" := w])))
  {
    InverterLoopPinMap(w);
    InverterLoopCells(w);
    InverterLoopCompile(w);
    BuildWithoutConstants(InverterLoop(w), burstSize, true, InverterLoopMachine(w, burstSize).pinMap,
                          InverterLoopMachine(w, burstSize).program);
  }

  /** One tick of the inverter loop complements its only cell. */
  lemma InverterLoopTick(v: Variant, w: Width, burstSize: int, x: nat)
    requires Fits(w, x)
    ensures Run(v, InverterLoopMachine(w, burstSize).program, map["/not/out" := x]) == map["/not/out" := Mask(w) - x]
  {
    var code := InverterLoopMachine(w, burstSize).program;
    var s0 := map["/not/out" := x];
    var s1 := Exec(v, code[0], s0);
    assert Read(s0, "/not/out", w) == x;
    assert s1 == map["/not/out" := Mask(w) - x];
    var s2 := Exec(v, code[1], s1);
    assert Read(s1, "/not/out", w) == Mask(w) - x;
    assert s2 == map["/not/out" := Mask(w) - x];
    assert code[1..][1..] == [];
    assert Run(v, code[1..][1..], s2) == s2;
    assert Run(v, code[1..], s1) == s2;
  }

  /** The value the inverter loop holds after `k` ticks from zero. */
  function Blink(w: Width, k: nat): nat
  {
    if k % 2 == 1 then Mask(w) else 0
  }

  lemma {:induction false} InverterLoopTicks(v: Variant, w: Width, burstSize: int, k: nat)
    ensures Iterate(v, Jit(InverterLoopMachine(w, burstSize), map["/not/out" := 0]), k)
            == Jit(InverterLoopMachine(w, burstSize), map["/not/out" := Blink(w, k)])
  {
    if k > 0 {
      InverterLoopTicks(v, w, burstSize, k - 1);
      BlinkStep(w, k);
      InverterLoopTick(v, w, burstSize, Blink(w, k - 1));
    }
  }

  /** Complementing the value after `k - 1` ticks gives the value after `k`. */
  lemma BlinkStep(w: Width, k: nat)
    requires k > 0
    ensures Fits(w, Blink(w, k - 1)) && Mask(w) - Blink(w, k - 1) == Blink(w, k)
  {
    Pow2Half(w);
  }

  lemma InverterLoopReads(v: Variant, w: Width, burstSize: int, k: nat)
    ensures var j := Iterate(v, Jit(InverterLoopMachine(w, burstSize), map["/not/out" := 0]), k);
            GetPin(j, "/not/out") == Ok(Blink(w, k)) && GetPin(j, "/not/in") == Ok(Blink(w, k))
  {
    InverterLoopTicks(v, w, burstSize, k);
  }

  /** The inverter loop starts with its cell at zero. */
  lemma InverterLoopStart(w: Width, burstSize: int)
    ensures Build(InverterLoop(w), burstSize, true) == Ok(Jit(InverterLoopMachine(w, burstSize), map["/not/out" := 0]))
  {
    InverterLoopBuild(w, burstSize);
    ZeroedOne("/not/out", w);
  }

  lemma ZeroedOne(p: string, w: Width)
    ensures Zeroed(map[p := w]) == map[p := 0]
  {
  }

  /**
   * `examples/clock.py`: after `k` ticks both `/not/out` and `/not/in`
   * (which aliases it) read all ones for odd `k` and zero for even `k`.
   */
  lemma InverterLoopBlinks(v: Variant, w: Width, burstSize: int, k: nat)
    ensures Build(InverterLoop(w), burstSize, true).Ok?
    ensures var j := Iterate(v, Build(InverterLoop(w), burstSize, true).value, k);
            GetPin(j, "/not/out") == Ok(Blink(w, k)) && GetPin(j, "/not/in") == Ok(Blink(w, k))
  {
    InverterLoopStart(w, burstSize);
    InverterLoopReads(v, w, burstSize, k);
  }

  /**
   * With the example's burst size of 501, one burst as compiled runs 502
   * ticks and leaves the inverter where it started, while 501 ticks leave it
   * complemented.
   */
  lemma InverterLoopBurstOffByOne(v: Variant, w: Width)
    ensures Build(InverterLoop(w), 501, true).Ok?
    ensures var j := Build(InverterLoop(w), 501, true).value;
            GetPin(Iterate(v, j, BurstCount(j.machine) + 1), "/not/out") == Ok(0)
            && GetPin(IntendedBurst(v, j), "/not/out") == Ok(Mask(w))
  {
    InverterLoopStart(w, 501);
    var j := Jit(InverterLoopMachine(w, 501), map["/not/out" := 0]);
    InverterLoopBurstCount(w);
    InverterLoopReads(v, w, 501, 501);
    InverterLoopReads(v, w, 501, 502);
    BlinkParity(w);
  }

  lemma InverterLoopBurstCount(w: Width)
    ensures BurstCount(InverterLoopMachine(w, 501)) == 501
  {
    ModBelow(501, WORD);
  }

  lemma BlinkParity(w: Width)
    ensures Blink(w, 501) == Mask(w) && Blink(w, 502) == 0
  {
  }

  /**
   * A connection may leave a pin inside a composite child: the endpoint
   * `sub/not` names child `not` of child `sub`, so the inverter `x` depends
   * on `sub`.
   */
  function NestedFeed(w: Width): (d: Desc)
    ensures d.Schematic? && WellFormed(d)
    ensures DepGraph(d) == map["sub" := [], "x" := ["sub"]]
  {
    NestedFeedShape(w);
    Schematic([Child("sub", NotInside(w)), Child("x", Not(w))], [Conn("sub/not", "out", "x", "in")])
  }

  /** The composite child: one inverter `not`, no connections. */
  function NotInside(w: Width): Desc
  {
    Schematic([Child("not", Not(w))], [])
  }

  lemma NestedFeedShape(w: Width)
    ensures var d := Schematic([Child("sub", NotInside(w)), Child("x", Not(w))], [Conn("sub/not", "out", "x", "in")]);
            WellFormed(d) && DepGraph(d) == map["sub" := [], "x" := ["sub"]]
  {
    InsideWellFormed(w);
    SubPath();
    LeafPath();
    FeedWellFormed("sub", "x", "sub/not", "out", "in", NotInside(w), Not(w));
  }

  lemma InsideWellFormed(w: Width)
    ensures WellFormed(NotInside(w))
  {
    assert Names(NotInside(w).children) == ["not"];
  }

  lemma LeafPath()
    ensures "sub" != "x" && FirstSegment("x") == "x"
  {
    assert |"sub"| != |"x"|;
  }

  lemma SubPath()
    ensures FirstSegment("sub/not") == "sub"
  {
    FirstSegmentSplit("sub", "not");
    assert "sub" + [SEP] + "not" == "sub/not";
  }

  /** Child `a` feeding child `b` through an endpoint inside `a`. */
  lemma FeedWellFormed(a: string, b: string, src: string, p: string, q: string, inner: Desc, leaf: Desc)
    requires a != b && FirstSegment(src) == a && FirstSegment(b) == b && WellFormed(inner) && !leaf.Schematic?
    ensures WellFormed(Schematic([Child(a, inner), Child(b, leaf)], [Conn(src, p, b, q)]))
    ensures DepGraph(Schematic([Child(a, inner), Child(b, leaf)], [Conn(src, p, b, q)])) == map[a := [], b := [a]]
  {
    var cs := [Child(a, inner), Child(b, leaf)];
    var conns := [Conn(src, p, b, q)];
    assert Names(cs) == [a, b];
    FeedProducers(a, b, conns[0]);
    FeedGraph(cs, conns, a, b);
    TwoWellFormed(cs, conns, a, b);
  }

  /** Two distinct well-formed children joined by connections between them form a well-formed composite. */
  lemma TwoWellFormed(cs: seq<Child>, conns: seq<Conn>, a: string, b: string)
    requires Names(cs) == [a, b] && a != b && WellFormed(cs[0].desc) && WellFormed(cs[1].desc)
    requires forall c :: c in conns ==> FirstSegment(c.srcChild) in [a, b] && FirstSegment(c.dstChild) in [a, b]
    ensures WellFormed(Schematic(cs, conns))
  {
    assert Distinct(Names(cs));
    assert forall i :: 0 <= i < |cs| ==> WellFormed(cs[i].desc);
  }

  /** The one connection makes `a` the producer of `b` and of nothing else. */
  lemma FeedProducers(a: string, b: string, c: Conn)
    requires a != b && FirstSegment(c.srcChild) == a && FirstSegment(c.dstChild) == b
    ensures Producers([c], a) == [] && Producers([c], b) == [a]
  {
    assert [c][1..] == [];
  }

  /** A map comprehension over two names is the two-entry map. */
  lemma FeedGraph(cs: seq<Child>, conns: seq<Conn>, a: string, b: string)
    requires Names(cs) == [a, b] && Producers(conns, a) == [] && Producers(conns, b) == [a]
    ensures DepGraph(Schematic(cs, conns)) == map[a := [], b := [a]]
  {
  }
}
