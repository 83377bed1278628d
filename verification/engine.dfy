/**
 * The compiled simulator (`JIT` in simulator.py): storage cells for pins,
 * resolution of pin paths to cells, translation of the tick schedule into
 * instructions over cells, and `step` / `burst` as transformers of the
 * cells' values.
 */
module Engine {
  import opened Common
  import opened Bits
  import opened Netlist
  import opened Schedule
  import opened Trace
  import opened Primitives

  /** Why building the simulator fails. */
  datatype BuildError =
    | UnknownPin(path: string)      // a path that is not an enumerated pin, looked up in the pin map
    | MissingCell(path: string)     // a resolved path with no storage cell behind it
    | TypeMismatch(at: string)      // operands or store target of different widths
    | NoInputs(at: string)          // a gate with zero inputs has no value to store
    | InvalidCast(at: string)       // a zero-extension that does not widen: the module is rejected
    | TraceDiverges(pin: string)    // the tracing loop never ends on this pin

  /** A storage cell: a global of `width` bits named by a pin path. */
  datatype Cell = Cell(path: string, width: Width)

  /** The instructions one tick executes, over cell names. */
  datatype Instr =
    | Copy(w: Width, src: string, dst: string)
    | NotI(w: Width, input: string, out: string)
    | GateI(op: GateOp, w: Width, ins: seq<string>, negated: bool, out: string)
    | CounterI(w: Width, cw: Width, prev: string, clock: string, out: string)
    | ClockI(w: Width, out: string)
    | AdderI(w: Width, cw: Width, a: string, b: string, cin: string, sum: string, cout: string)

  /** How the counter and adder translators behave: as the source computes, or as intended. */
  datatype Variant = AsWritten | Intended

  /** The value of every storage cell. */
  type Store = map<string, nat>

  /** Pin path to its trace (`_pin_map`), present only when pins are mapped to their sources. */
  type PinMap = Option<map<string, Option<string>>>

  datatype Machine = Machine(cells: map<string, Width>, pinMap: PinMap, program: seq<Instr>, burstSize: int)

  /** A built simulator: its compiled machine and the current contents of its cells. */
  datatype Jit = Jit(machine: Machine, store: Store)

  // ---------------------------------------------------------------- storage

  function Paths(pins: seq<PinEntry>): (r: seq<string>)
    ensures |r| == |pins| && forall i :: 0 <= i < |pins| ==> r[i] == pins[i].path
  {
    seq(|pins|, i requires 0 <= i < |pins| => pins[i].path)
  }

  /** A pin gets its own cell unless pins are mapped and its trace leads elsewhere. */
  predicate OwnsCell(pm: PinMap, p: string)
  {
    pm.None? || (p in pm.value && pm.value[p].None?)
  }

  /** The globals allocated for the enumerated pins. */
  function Allocate(pins: seq<PinEntry>, pm: PinMap): (cells: map<string, Width>)
    ensures forall p :: p in cells <==> exists e :: e in pins && e.path == p && OwnsCell(pm, p)
    ensures forall p :: p in cells ==> exists e :: e in pins && e.path == p && e.width == cells[p]
  {
    if pins == [] then map[]
    else
      var e := pins[0];
      var rest := Allocate(pins[1..], pm);
      assert forall x :: x in pins <==> x == e || x in pins[1..];
      if OwnsCell(pm, e.path) then rest[e.path := e.width] else rest
  }

  /** `_get_source_path`: identity unless pins are mapped and the pin's trace leads to a source. */
  function Resolve(pm: PinMap, path: string): (r: Result<string, BuildError>)
    ensures pm.None? ==> r == Ok(path)
    ensures pm.Some? && path !in pm.value ==> r == Err(UnknownPin(path))
    ensures pm.Some? && path in pm.value && pm.value[path].None? ==> r == Ok(path)
    ensures pm.Some? && path in pm.value && pm.value[path].Some? ==> r == Ok(pm.value[path].value)
  {
    match pm
    case None => Ok(path)
    case Some(m) =>
      if path !in m then Err(UnknownPin(path))
      else if m[path].None? then Ok(path)
      else Ok(m[path].value)
  }

  /** `get_global_at`: the cell a path resolves to. */
  function GlobalAt(cells: map<string, Width>, pm: PinMap, path: string): (r: Result<Cell, BuildError>)
    ensures r.Ok? ==> r.value.path in cells && cells[r.value.path] == r.value.width
    ensures r.Ok? ==> Resolve(pm, path) == Ok(r.value.path)
  {
    var q :- Resolve(pm, path);
    if q !in cells then Err(MissingCell(q)) else Ok(Cell(q, cells[q]))
  }

  // ---------------------------------------------------------------- translation

  /** The code for one scheduled operation, the constants it defers, and any non-widening casts. */
  datatype Piece = Piece(code: seq<Instr>, constants: seq<ConstInit>, badCasts: seq<string>)

  /** A constant's `out` path and the value written there after the build. */
  datatype ConstInit = ConstInit(path: string, value: nat)

  /** Every cell an instruction names exists with the width the instruction works at. */
  predicate WellTyped(cells: map<string, Width>, ins: Instr)
  {
    match ins
    case Copy(w, src, dst) => src in cells && dst in cells && cells[src] == w && cells[dst] == w
    case NotI(w, i, o) => i in cells && o in cells && cells[i] == w && cells[o] == w
    case GateI(_, w, ins, _, o) =>
      |ins| >= 1 && (forall k :: 0 <= k < |ins| ==> ins[k] in cells && cells[ins[k]] == w)
      && o in cells && cells[o] == w
    case CounterI(w, cw, prev, clk, out) =>
      prev in cells && clk in cells && out in cells
      && cells[prev] == cw && cells[clk] == cw && cells[out] == w && cw < w
    case ClockI(w, o) => o in cells && cells[o] == w
    case AdderI(w, cw, a, b, cin, sum, cout) =>
      a in cells && b in cells && cin in cells && sum in cells && cout in cells
      && cells[a] == w && cells[b] == w && cells[sum] == w && cells[cin] == cw && cw < w && cells[cout] == 1
  }

  predicate AllWellTyped(cells: map<string, Width>, prog: seq<Instr>)
  {
    forall k :: 0 <= k < |prog| ==> WellTyped(cells, prog[k])
  }

  /** The inputs `in0 .. in{n-1}` of a gate, loaded in order; each must match the first one's width. */
  function GateLoads(cells: map<string, Width>, pm: PinMap, prefix: string, n: nat, acc: seq<Cell>): (r: Result<seq<Cell>, BuildError>)
    requires |acc| <= n
    requires forall k :: 0 <= k < |acc| ==> acc[k].path in cells && cells[acc[k].path] == acc[k].width == acc[0].width
    requires forall k :: 0 <= k < |acc| ==> Resolve(pm, prefix + GateInputName(k)) == Ok(acc[k].path)
    ensures r.Ok? ==> |r.value| == n
    ensures r.Ok? ==> forall k :: 0 <= k < n ==> r.value[k].path in cells && cells[r.value[k].path] == r.value[k].width == r.value[0].width
    ensures r.Ok? ==> forall k :: 0 <= k < n ==> Resolve(pm, prefix + GateInputName(k)) == Ok(r.value[k].path)
    ensures r.Ok? ==> forall k :: 0 <= k < |acc| ==> r.value[k] == acc[k]
    decreases n - |acc|
  {
    if |acc| == n then Ok(acc)
    else
      var c :- GlobalAt(cells, pm, prefix + GateInputName(|acc|));
      if |acc| > 0 && c.width != acc[0].width then Err(TypeMismatch(prefix))
      else
        var r := GateLoads(cells, pm, prefix, n, acc + [c]);
        if r.Ok? then
          assert r.value[|acc|] == c;
          r
        else r
  }

  function Cells(cs: seq<Cell>): (r: seq<string>)
    ensures |r| == |cs| && forall i :: 0 <= i < |cs| ==> r[i] == cs[i].path
  {
    seq(|cs|, i requires 0 <= i < |cs| => cs[i].path)
  }

  /** The translator of one element placed at `prefix`. */
  function CompileEmit(cells: map<string, Width>, pm: PinMap, d: Desc, prefix: string): (r: Result<Piece, BuildError>)
    ensures r.Ok? ==> AllWellTyped(cells, r.value.code)
    ensures r.Ok? && d.Constant? ==> r.value == Piece([], [ConstInit(prefix + "out", d.value)], [])
    ensures d.Register? ==> r.Err?
    ensures d.Gate? && d.numInputs == 0 ==> r.Err?
  {
    match d
    case Not(_) =>
      var i :- GlobalAt(cells, pm, prefix + "in");
      var o :- GlobalAt(cells, pm, prefix + "out");
      if i.width != o.width then Err(TypeMismatch(prefix))
      else Ok(Piece([NotI(i.width, i.path, o.path)], [], []))
    case Gate(op, _, n, negated) =>
      var ins :- GateLoads(cells, pm, prefix, n, []);
      if n == 0 then
        if negated then Err(NoInputs(prefix))
        else
          var o :- GlobalAt(cells, pm, prefix + "out");
          Err(NoInputs(prefix))
      else
        var o :- GlobalAt(cells, pm, prefix + "out");
        if o.width != ins[0].width then Err(TypeMismatch(prefix))
        else Ok(Piece([GateI(op, o.width, Cells(ins), negated, o.path)], [], []))
    case Counter(w) =>
      var prev :- GlobalAt(cells, pm, prefix + "prevclock");
      var out :- GlobalAt(cells, pm, prefix + "out");
      var clk :- GlobalAt(cells, pm, prefix + "clock");
      if prev.width != clk.width || out.width != w then Err(TypeMismatch(prefix))
      else if clk.width >= w then
        Ok(Piece([], [], [prefix]))
      else
        Ok(Piece([CounterI(w, clk.width, prev.path, clk.path, out.path)], [], []))
    case Register(_) =>
      var prev :- GlobalAt(cells, pm, prefix + "prevclock");
      var data :- GlobalAt(cells, pm, prefix + "data");
      var out :- GlobalAt(cells, pm, prefix + "out");
      var clk :- GlobalAt(cells, pm, prefix + "clock");
      Err(TypeMismatch(prefix))
    case Clock =>
      var o :- GlobalAt(cells, pm, prefix + "out");
      Ok(Piece([ClockI(o.width, o.path)], [], []))
    case Adder(w) =>
      var a :- GlobalAt(cells, pm, prefix + "a");
      var b :- GlobalAt(cells, pm, prefix + "b");
      var cin :- GlobalAt(cells, pm, prefix + "cin");
      var sum :- GlobalAt(cells, pm, prefix + "sum");
      var cout :- GlobalAt(cells, pm, prefix + "cout");
      if a.width != b.width || a.width != w || sum.width != w || cout.width != 1 then Err(TypeMismatch(prefix))
      else if cin.width >= w then
        Ok(Piece([], [], [prefix]))
      else
        Ok(Piece([AdderI(w, cin.width, a.path, b.path, cin.path, sum.path, cout.path)], [], []))
    case Constant(_, value) =>
      Ok(Piece([], [ConstInit(prefix + "out", value)], []))
    case ExposedPin(_, _) => Ok(Piece([], [], []))
    case Schematic(_, _) => Ok(Piece([], [], []))
  }

  /** One scheduled operation: a `propagate` loads its source and stores into its destination. */
  function CompileOp(cells: map<string, Width>, pm: PinMap, op: Op): (r: Result<Piece, BuildError>)
    ensures r.Ok? ==> AllWellTyped(cells, r.value.code)
  {
    match op
    case Propagate(p1, p2) =>
      var c1 :- GlobalAt(cells, pm, p1);
      var c2 :- GlobalAt(cells, pm, p2);
      if c1.width != c2.width then Err(TypeMismatch(p2))
      else Ok(Piece([Copy(c1.width, c1.path, c2.path)], [], []))
    case Emit(d, prefix) => CompileEmit(cells, pm, d, prefix)
  }

  /** The schedule translated in order; the first failing operation's error is the build's. */
  function CompileOps(cells: map<string, Width>, pm: PinMap, ops: seq<Op>): (r: Result<Piece, BuildError>)
    ensures r.Ok? ==> AllWellTyped(cells, r.value.code)
    ensures r.Ok? ==> forall k :: 0 <= k < |ops| ==> CompileOp(cells, pm, ops[k]).Ok?
    ensures r.Err? ==> exists k :: 0 <= k < |ops| && CompileOp(cells, pm, ops[k]) == Err(r.error)
  {
    if ops == [] then Ok(Piece([], [], []))
    else
      var p :- CompileOp(cells, pm, ops[0]);
      var rest := CompileOps(cells, pm, ops[1..]);
      if rest.Err? then
        var k :| 0 <= k < |ops[1..]| && CompileOp(cells, pm, ops[1..][k]) == Err(rest.error);
        assert ops[k + 1] == ops[1..][k];
        Err(rest.error)
      else
        var q := rest.value;
        forall k | 0 <= k < |ops| ensures CompileOp(cells, pm, ops[k]).Ok? {
          if k > 0 { assert ops[k] == ops[1..][k - 1]; }
        }
        Ok(Piece(p.code + q.code, p.constants + q.constants, p.badCasts + q.badCasts))
  }

  // ---------------------------------------------------------------- one tick

  function Get(s: Store, p: string): nat
  {
    if p in s then s[p] else 0
  }

  /** Loading an `iw` global: the low `w` bits of the cell. */
  function Read(s: Store, p: string, w: Width): (r: nat)
    ensures Fits(w, r)
  {
    Trunc(w, Get(s, p))
  }

  function ReadAll(s: Store, ps: seq<string>, w: Width): (r: seq<nat>)
    ensures |r| == |ps| && forall i :: 0 <= i < |ps| ==> r[i] == Read(s, ps[i], w) && Fits(w, r[i])
  {
    seq(|ps|, i requires 0 <= i < |ps| => Read(s, ps[i], w))
  }

  /** One instruction's effect on the cells. */
  function Exec(v: Variant, ins: Instr, s: Store): Store
  {
    match ins
    case Copy(w, src, dst) => s[dst := Read(s, src, w)]
    case NotI(w, i, o) => s[o := NotStep(w, Read(s, i, w))]
    case GateI(op, w, ins, negated, o) =>
      if |ins| == 0 then s
      else s[o := GateStep(op, w, ReadAll(s, ins, w), negated)]
    case CounterI(w, cw, prev, clk, out) => ExecCounter(v, w, cw, prev, clk, out, s)
    case ClockI(w, o) => s[o := ClockStep(w, Read(s, o, w))]
    case AdderI(w, cw, a, b, cin, sum, cout) => ExecAdder(v, w, cw, a, b, cin, sum, cout, s)
  }

  /** The counter stores `out` first, then copies the clock into `prevclock`. */
  function ExecCounter(v: Variant, w: Width, cw: Width, prev: string, clk: string, out: string, s: Store): Store
  {
    var e := Edge(cw, Read(s, prev, cw), Read(s, clk, cw));
    var cur := Read(s, out, w);
    var out' := if v == AsWritten then CounterAsWritten(w, Trunc(w, e), cur) else CounterIntended(w, e % 2, cur);
    var s1 := s[out := out'];
    s1[prev := Read(s1, clk, cw)]
  }

  /** The adder stores `sum`, then `cout`. */
  function ExecAdder(v: Variant, w: Width, cw: Width, a: string, b: string, cin: string, sum: string, cout: string, s: Store): Store
  {
    var x, y := Read(s, a, w), Read(s, b, w);
    var c := Trunc(w, Read(s, cin, cw));
    var r := if v == AsWritten then AdderAsWritten(w, x, y, c) else AdderIntended(w, x, y, c);
    s[sum := r.sum][cout := r.cout]
  }

  /** The cells an instruction stores into. */
  function Writes(ins: Instr): set<string>
  {
    match ins
    case Copy(_, _, dst) => {dst}
    case NotI(_, _, o) => {o}
    case GateI(_, _, ins, _, o) => if |ins| == 0 then {} else {o}
    case CounterI(_, _, prev, _, out) => {out, prev}
    case ClockI(_, o) => {o}
    case AdderI(_, _, _, _, _, sum, cout) => {sum, cout}
  }

  /** Every cell holds a value of its width. */
  predicate StoreFits(cells: map<string, Width>, s: Store)
  {
    s.Keys == cells.Keys && forall p :: p in s ==> Fits(cells[p], s[p])
  }

  /** A well-typed instruction stores only into its named cells, each a value of the cell's width. */
  lemma ExecFrame(v: Variant, cells: map<string, Width>, ins: Instr, s: Store)
    requires WellTyped(cells, ins) && StoreFits(cells, s)
    ensures StoreFits(cells, Exec(v, ins, s))
    ensures forall p :: p in s && p !in Writes(ins) ==> Exec(v, ins, s)[p] == s[p]
  {
    match ins
    case CounterI(w, cw, prev, clk, out) =>
      Pow2Monotone(cw, w);
      var s1 := s[out := Exec(v, ins, s)[out]];
      StoreUpdate(cells, s, out, s1[out]);
      StoreUpdate(cells, s1, prev, Read(s1, clk, cw));
    case AdderI(w, cw, a, b, cin, sum, cout) =>
      Pow2Monotone(cw, w);
      var s1 := s[sum := Exec(v, ins, s)[sum]];
      StoreUpdate(cells, s, sum, s1[sum]);
      StoreUpdate(cells, s1, cout, Exec(v, ins, s)[cout]);
    case _ =>
  }

  /** Storing a value of a cell's width into that cell keeps every cell within its width. */
  lemma StoreUpdate(cells: map<string, Width>, s: Store, p: string, x: nat)
    requires StoreFits(cells, s) && p in cells && Fits(cells[p], x)
    ensures StoreFits(cells, s[p := x])
  {
  }

  function Run(v: Variant, prog: seq<Instr>, s: Store): Store
    decreases |prog|
  {
    if prog == [] then s else Run(v, prog[1..], Exec(v, prog[0], s))
  }

  function WritesAll(prog: seq<Instr>): set<string>
  {
    if prog == [] then {} else Writes(prog[0]) + WritesAll(prog[1..])
  }

  /**
   * A tick keeps every cell at its width and changes no cell outside the
   * program's store targets: a constant's cell, which no instruction
   * targets, keeps the value written at build time.
   */
  lemma {:induction false} RunFrame(v: Variant, cells: map<string, Width>, prog: seq<Instr>, s: Store)
    requires AllWellTyped(cells, prog) && StoreFits(cells, s)
    ensures StoreFits(cells, Run(v, prog, s))
    ensures forall p :: p in s && p !in WritesAll(prog) ==> Run(v, prog, s)[p] == s[p]
    decreases |prog|
  {
    if prog != [] {
      ExecFrame(v, cells, prog[0], s);
      assert AllWellTyped(cells, prog[1..]) by {
        forall k | 0 <= k < |prog[1..]| ensures WellTyped(cells, prog[1..][k]) {
          assert prog[1..][k] == prog[k + 1];
        }
      }
      RunFrame(v, cells, prog[1..], Exec(v, prog[0], s));
    }
  }

  // ---------------------------------------------------------------- the simulator

  /** Every enumerated pin's trace, or the pin whose tracing loop never ends. */
  function PinMapOf(root: Desc, mapPins: bool): (r: Result<PinMap, BuildError>)
    requires root.Schematic? && WellFormed(root)
    ensures !mapPins ==> r == Ok(None)
    ensures mapPins && r.Ok? ==> r.value.Some? && forall p :: p in r.value.value <==> p in Paths(SimulationPins(root, "/"))
  {
    if !mapPins then Ok(None)
    else
      var conns := ConnMapOf(Connections(root, "/"));
      match MapToSources(conns, Paths(SimulationPins(root, "/")))
      case Ok(m) => Ok(Some(m))
      case Err(p) => Err(TraceDiverges(p))
  }

  /** Write each deferred constant through `set_pin_state`, in schedule order. */
  function SetConstants(m: Machine, s: Store, cs: seq<ConstInit>): (r: Result<Store, BuildError>)
    ensures StoreFits(m.cells, s) && r.Ok? ==> StoreFits(m.cells, r.value)
    ensures r.Ok? ==> forall k :: 0 <= k < |cs| ==> Resolve(m.pinMap, cs[k].path).Ok?
    decreases |cs|
  {
    if cs == [] then Ok(s)
    else
      var s1 :- SetPinIn(m, s, cs[0].path, cs[0].value);
      var r := SetConstants(m, s1, cs[1..]);
      if r.Ok? then
        assert forall k :: 1 <= k < |cs| ==> cs[k] == cs[1..][k - 1];
        r
      else r
  }

  /**
   * After the constants are written, the cell of a constant's `out` pin holds
   * its value cut to the cell's width, unless a later constant resolves to
   * the same cell: the last write wins.
   */
  lemma {:induction false} ConstantLastWins(m: Machine, s: Store, cs: seq<ConstInit>, k: nat, q: string)
    requires SetConstants(m, s, cs).Ok? && k < |cs|
    requires Resolve(m.pinMap, cs[k].path) == Ok(q)
    requires forall k' :: k < k' < |cs| ==> Resolve(m.pinMap, cs[k'].path) != Ok(q)
    ensures q in m.cells
    ensures Get(SetConstants(m, s, cs).value, q) == Trunc(m.cells[q], cs[k].value % WORD)
    decreases |cs|
  {
    var s1 := SetPinIn(m, s, cs[0].path, cs[0].value).value;
    if k == 0 {
      assert forall k' :: 0 <= k' < |cs[1..]| ==> Resolve(m.pinMap, cs[1..][k'].path) != Ok(q) by {
        forall k' | 0 <= k' < |cs[1..]| ensures Resolve(m.pinMap, cs[1..][k'].path) != Ok(q) {
          assert cs[1..][k'] == cs[k' + 1];
        }
      }
      ConstantsUntouched(m, s1, cs[1..], q);
    } else {
      assert cs[1..][k - 1] == cs[k];
      assert forall k' :: k - 1 < k' < |cs[1..]| ==> Resolve(m.pinMap, cs[1..][k'].path) != Ok(q) by {
        forall k' | k - 1 < k' < |cs[1..]| ensures Resolve(m.pinMap, cs[1..][k'].path) != Ok(q) {
          assert cs[1..][k'] == cs[k' + 1];
        }
      }
      ConstantLastWins(m, s1, cs[1..], k - 1, q);
    }
  }

  /** A cell no constant resolves to keeps its value while the constants are written. */
  lemma {:induction false} ConstantsUntouched(m: Machine, s: Store, cs: seq<ConstInit>, q: string)
    requires SetConstants(m, s, cs).Ok?
    requires forall k :: 0 <= k < |cs| ==> Resolve(m.pinMap, cs[k].path) != Ok(q)
    ensures Get(SetConstants(m, s, cs).value, q) == Get(s, q)
    decreases |cs|
  {
    if cs != [] {
      var s1 := SetPinIn(m, s, cs[0].path, cs[0].value).value;
      assert Resolve(m.pinMap, cs[0].path) != Ok(q);
      assert forall k :: 0 <= k < |cs[1..]| ==> Resolve(m.pinMap, cs[1..][k].path) != Ok(q) by {
        forall k | 0 <= k < |cs[1..]| ensures Resolve(m.pinMap, cs[1..][k].path) != Ok(q) {
          assert cs[1..][k] == cs[k + 1];
        }
      }
      ConstantsUntouched(m, s1, cs[1..], q);
    }
  }

  /** Every global starts at zero. */
  function Zeroed(cells: map<string, Width>): (s: Store)
    ensures StoreFits(cells, s)
    ensures forall p :: p in s ==> s[p] == 0
  {
    map p | p in cells :: 0
  }

  /**
   * `JIT.__init__`: trace the pins if asked, allocate a zeroed cell per
   * owning pin, translate the schedule, then write the constants.
   */
  function Build(root: Desc, burstSize: int, mapPins: bool): (r: Result<Jit, BuildError>)
    requires root.Schematic? && WellFormed(root)
    ensures r.Ok? ==> AllWellTyped(r.value.machine.cells, r.value.machine.program)
    ensures r.Ok? ==> StoreFits(r.value.machine.cells, r.value.store)
    ensures r.Ok? ==> forall p :: p in r.value.machine.cells <==>
                        (exists e :: e in SimulationPins(root, "/") && e.path == p && OwnsCell(r.value.machine.pinMap, p))
    ensures r.Ok? ==> r.value.machine.burstSize == burstSize
    ensures r.Ok? ==> (r.value.machine.pinMap.Some? <==> mapPins)
    ensures r.Ok? && mapPins ==> forall p :: p in r.value.machine.pinMap.value <==> p in Paths(SimulationPins(root, "/"))
  {
    var pins := SimulationPins(root, "/");
    var pm :- PinMapOf(root, mapPins);
    var cells := Allocate(pins, pm);
    var c :- CompileOps(cells, pm, Topology(root, "/"));
    if c.badCasts != [] then Err(InvalidCast(c.badCasts[0]))
    else
      var m := Machine(cells, pm, c.code, burstSize);
      var s :- SetConstants(m, Zeroed(cells), c.constants);
      Ok(Jit(m, s))
  }

  /**
   * `step()`: one tick of the compiled program. `Step(AsWritten, j)` is the
   * tick the source compiles; `Step(Intended, j)` is the same tick with the
   * counter and adder corrected.
   */
  function Step(v: Variant, j: Jit): (r: Jit)
    ensures r.machine == j.machine
  {
    Jit(j.machine, Run(v, j.machine.program, j.store))
  }

  /** `n` ticks in a row. */
  function Iterate(v: Variant, j: Jit, n: nat): Jit
  {
    if n == 0 then j else Step(v, Iterate(v, j, n - 1))
  }

  lemma {:induction false} IterateSplit(v: Variant, j: Jit, a: nat, b: nat)
    ensures Iterate(v, Iterate(v, j, a), b) == Iterate(v, j, a + b)
    decreases b
  {
    if b > 0 {
      IterateSplit(v, j, a, b - 1);
    }
  }

  /** The burst counter: `burst_size` as an unsigned 64-bit constant. */
  function BurstCount(m: Machine): (n: nat)
    ensures n < WORD
  {
    m.burstSize % WORD
  }

  /**
   * `burst()` as compiled: call step, then compare the counter from before
   * its decrement with zero; so the loop body runs once more than the count.
   */
  method Burst(v: Variant, j: Jit) returns (r: Jit)
    ensures r == Iterate(v, j, BurstCount(j.machine) + 1)
  {
    var n := BurstCount(j.machine);
    var cnt := n;
    var steps := 0;
    var going := true;
    r := j;
    while going
      invariant 0 <= cnt < WORD
      invariant r == Iterate(v, j, steps)
      invariant going ==> steps + cnt == n
      invariant !going ==> steps == n + 1
      decreases if going then cnt + 1 else 0
    {
      r := Step(v, r);
      steps := steps + 1;
      var before := cnt;
      cnt := if before == 0 then WORD - 1 else before - 1;
      going := before != 0;
    }
  }

  /**
   * `burst()` as intended: the counter is tested before each call of
   * `step`, so the loop runs exactly `burst_size` ticks.
   */
  method BurstIntended(v: Variant, j: Jit) returns (r: Jit)
    ensures r == Iterate(v, j, BurstCount(j.machine))
  {
    var cnt := BurstCount(j.machine);
    var steps := 0;
    r := j;
    while cnt != 0
      invariant r == Iterate(v, j, steps)
      invariant steps + cnt == BurstCount(j.machine)
      decreases cnt
    {
      r := Step(v, r);
      cnt := cnt - 1;
      steps := steps + 1;
    }
  }

  /** The tick count of one intended burst, as a function. */
  function IntendedBurst(v: Variant, j: Jit): (r: Jit)
    ensures r.machine == j.machine
  {
    IterateMachine(v, j, BurstCount(j.machine));
    Iterate(v, j, BurstCount(j.machine))
  }

  lemma {:induction false} IterateMachine(v: Variant, j: Jit, n: nat)
    ensures Iterate(v, j, n).machine == j.machine
  {
    if n > 0 {
      IterateMachine(v, j, n - 1);
    }
  }

  /**
   * Bursts of the intended size compose: `k` of them are `k * burst_size`
   * single steps.
   */
  lemma IntendedBurstsAreSteps(v: Variant, j: Jit, k: nat)
    ensures RepeatBurst(v, j, k) == Iterate(v, j, k * BurstCount(j.machine))
  {
    BurstsAreSteps(v, j, k);
    TimesIsProduct(k, BurstCount(j.machine));
  }

  /** `k` copies of `n` added up. */
  function Times(k: nat, n: nat): nat
  {
    if k == 0 then 0 else Times(k - 1, n) + n
  }

  lemma {:induction false} TimesIsProduct(k: nat, n: nat)
    ensures Times(k, n) == k * n
  {
    if k > 0 {
      TimesIsProduct(k - 1, n);
      MulSucc(k - 1, n);
    }
  }

  lemma {:induction false} BurstsAreSteps(v: Variant, j: Jit, k: nat)
    ensures RepeatBurst(v, j, k) == Iterate(v, j, Times(k, BurstCount(j.machine)))
  {
    if k > 0 {
      BurstsAreSteps(v, j, k - 1);
      BurstAfter(v, j, Times(k - 1, BurstCount(j.machine)));
    }
  }

  lemma MulSucc(a: nat, n: nat)
    ensures a * n + n == (a + 1) * n
  {
  }

  /** A burst after `before` single steps ends where `before` plus a burst's count of steps do. */
  lemma BurstAfter(v: Variant, j: Jit, before: nat)
    ensures IntendedBurst(v, Iterate(v, j, before)) == Iterate(v, j, before + BurstCount(j.machine))
  {
    IterateMachine(v, j, before);
    IterateSplit(v, j, before, BurstCount(j.machine));
  }

  function RepeatBurst(v: Variant, j: Jit, k: nat): Jit
  {
    if k == 0 then j else IntendedBurst(v, RepeatBurst(v, j, k - 1))
  }

  // ---------------------------------------------------------------- pin access

  /** `get_pin_state`: the value of the cell a path resolves to. */
  function GetPin(j: Jit, path: string): (r: Result<nat, BuildError>)
    ensures r.Ok? ==> exists q :: Resolve(j.machine.pinMap, path) == Ok(q) && q in j.machine.cells && r.value == Get(j.store, q)
    ensures forall q :: Resolve(j.machine.pinMap, path) == Ok(q) && q in j.machine.cells ==> r == Ok(Get(j.store, q))
    ensures Resolve(j.machine.pinMap, path).Err? ==> r.Err?
  {
    var c :- GlobalAt(j.machine.cells, j.machine.pinMap, path);
    Ok(Get(j.store, c.path))
  }

  /**
   * `set_pin_state`: write a value through the 64-bit view of the resolved
   * cell. The model keeps each cell at exactly its width, so the cell holds
   * the low bits of the value that fit; the bytes an 8-byte write puts past a
   * narrower global are not modelled.
   */
  function SetPinIn(m: Machine, s: Store, path: string, value: int): (r: Result<Store, BuildError>)
    ensures r.Ok? ==> Resolve(m.pinMap, path).Ok? && Resolve(m.pinMap, path).value in m.cells
    ensures StoreFits(m.cells, s) && r.Ok? ==> StoreFits(m.cells, r.value)
  {
    var c :- GlobalAt(m.cells, m.pinMap, path);
    Ok(s[c.path := Trunc(c.width, value % WORD)])
  }

  function SetPin(j: Jit, path: string, value: int): (r: Result<Jit, BuildError>)
    ensures r.Ok? ==> r.value.machine == j.machine
  {
    var s :- SetPinIn(j.machine, j.store, path, value);
    Ok(Jit(j.machine, s))
  }

  // ---------------------------------------------------------------- properties

  /**
   * With pins mapped, resolution lands on a cell-owning pin and is
   * idempotent: resolving the result again changes nothing.
   */
  lemma ResolveIdempotent(conns: ConnMap, pins: seq<string>, p: string, q: string)
    requires MapToSources(conns, pins).Ok?
    requires Resolve(Some(MapToSources(conns, pins).value), p) == Ok(q)
    ensures p in pins
    ensures q in pins ==> OwnsCell(Some(MapToSources(conns, pins).value), q)
    ensures q in pins ==> Resolve(Some(MapToSources(conns, pins).value), q) == Ok(q)
  {
    var m := MapToSources(conns, pins).value;
    if q != p && q in pins {
      assert TracePin(conns, p) == Source(q);
      assert TracePin(conns, q).Undriven?;
    }
  }

  /** Without mapping every enumerated pin owns a cell, and resolution is the identity. */
  lemma UnmappedPinsOwnCells(root: Desc, burstSize: int, p: string)
    requires root.Schematic? && WellFormed(root)
    requires Build(root, burstSize, false).Ok?
    ensures p in Build(root, burstSize, false).value.machine.cells <==> p in Paths(SimulationPins(root, "/"))
    ensures Resolve(Build(root, burstSize, false).value.machine.pinMap, p) == Ok(p)
  {
    var pins := SimulationPins(root, "/");
    if p in Paths(pins) {
      var i :| 0 <= i < |pins| && Paths(pins)[i] == p;
      assert pins[i] in pins;
    }
  }

  /** With mapping on, a path that is not an enumerated pin cannot be read. */
  lemma UnknownPathFails(root: Desc, burstSize: int, p: string)
    requires root.Schematic? && WellFormed(root)
    requires Build(root, burstSize, true).Ok?
    requires p !in Paths(SimulationPins(root, "/"))
    ensures GetPin(Build(root, burstSize, true).value, p) == Err(UnknownPin(p))
  {
    var j := Build(root, burstSize, true).value;
    assert p !in j.machine.pinMap.value;
  }

  /** A netlist containing a register cannot be built: its translator ANDs a pointer with a loaded value. */
  lemma RegisterRejected(root: Desc, burstSize: int, mapPins: bool, k: nat)
    requires root.Schematic? && WellFormed(root)
    requires k < |Topology(root, "/")| && Topology(root, "/")[k].Emit? && Topology(root, "/")[k].desc.Register?
    ensures Build(root, burstSize, mapPins).Err?
  {
    var ops := Topology(root, "/");
    var pm := PinMapOf(root, mapPins);
    if pm.Ok? {
      var cells := Allocate(SimulationPins(root, "/"), pm.value);
      assert CompileOp(cells, pm.value, ops[k]).Err?;
    }
  }

  /** Reading a pin after writing it gives the written value cut to the cell's width. */
  lemma SetThenGet(j: Jit, path: string, value: int, other: string)
    requires SetPin(j, path, value).Ok?
    ensures var q := Resolve(j.machine.pinMap, path).value;
            GetPin(SetPin(j, path, value).value, path) == Ok(Trunc(j.machine.cells[q], value % WORD))
    ensures Resolve(j.machine.pinMap, other) != Resolve(j.machine.pinMap, path) ==>
            GetPin(SetPin(j, path, value).value, other) == GetPin(j, other)
  {
  }

  /** A netlist without constants or rejected casts starts with every cell at zero. */
  lemma BuildWithoutConstants(root: Desc, burstSize: int, mapPins: bool, pm: PinMap, code: seq<Instr>)
    requires root.Schematic? && WellFormed(root)
    requires PinMapOf(root, mapPins) == Ok(pm)
    requires CompileOps(Allocate(SimulationPins(root, "/"), pm), pm, Topology(root, "/")) == Ok(Piece(code, [], []))
    ensures var cells := Allocate(SimulationPins(root, "/"), pm);
            Build(root, burstSize, mapPins) == Ok(Jit(Machine(cells, pm, code, burstSize), Zeroed(cells)))
  {
    var cells := Allocate(SimulationPins(root, "/"), pm);
    assert SetConstants(Machine(cells, pm, code, burstSize), Zeroed(cells), []) == Ok(Zeroed(cells));
  }

  /**
   * Stepping, as compiled or corrected, keeps every cell at its width and
   * leaves cells no instruction stores into alone.
   */
  lemma StepFrame(v: Variant, j: Jit, p: string)
    requires AllWellTyped(j.machine.cells, j.machine.program) && StoreFits(j.machine.cells, j.store)
    ensures StoreFits(j.machine.cells, Step(v, j).store)
    ensures p in j.store && p !in WritesAll(j.machine.program) ==> Step(v, j).store[p] == j.store[p]
  {
    RunFrame(v, j.machine.cells, j.machine.program, j.store);
  }

  /** A program with no counter and no adder steps the same, as compiled or corrected. */
  lemma {:induction false} VariantsAgree(prog: seq<Instr>, s: Store)
    requires forall k :: 0 <= k < |prog| ==> !prog[k].CounterI? && !prog[k].AdderI?
    ensures Run(AsWritten, prog, s) == Run(Intended, prog, s)
    decreases |prog|
  {
    if prog != [] {
      assert Exec(AsWritten, prog[0], s) == Exec(Intended, prog[0], s);
      assert forall k :: 0 <= k < |prog[1..]| ==> prog[1..][k] == prog[k + 1];
      VariantsAgree(prog[1..], Exec(AsWritten, prog[0], s));
    }
  }
}
