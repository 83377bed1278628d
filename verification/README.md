# mcircuit netlist simulator: a Dafny model

This project models the core of mcircuit, a digital-logic simulator written in
Python. It covers five source files:

- **simulator.py**, the JIT engine:
  - enumerating the pins of a hierarchical schematic;
  - scheduling element evaluation and wire propagation in depth-first
    postorder;
  - tracing wire chains so that pins alias the cell of their source;
  - translating every primitive (not, gate, counter, register, clock, adder)
    into instructions over storage cells;
  - `step`, `burst`, `get_pin_state` and `set_pin_state`.
- **descriptors.py**, the older descriptor layer:
  - `name_pin` globals;
  - composites with `add_child` and `connect`;
  - the reverse-postorder `_toposort`;
  - the code each element emits.
- **diagram.py**, the schematic editor's geometry:
  - rotation and the pin layout of each placeable element;
  - the wire grid and `construct_wires` / `change_wires`;
  - `reconstruct`, which turns a drawn sheet into a composite by searching the
    wires from every output pin.
- **util.py**, the `pathfind` grid search.
- **serial.py**, `_desc_to_dict` and `_dict_to_desc`, which save and load
  descriptors.

Machine words are `nat` values below `2^w`. `and`, `or`, `xor` and `not` are
defined bit by bit (module `Bits`). LLVM's `add`, `sadd.with.overflow`,
`uadd.with.overflow` and `zext` are written out explicitly (module
`Primitives`). A built simulator (`Engine.Jit`) is its compiled program plus a
map from cell names to values. `step` and `burst` are functions on that map.

The example circuits `examples/clock.py` (an inverter wired to itself) and
`examples/counter.py` (a clock driving a 16-bit counter) are built and stepped
inside the model (modules `Scenarios`, `CounterExample` and `CounterRun`).

Iteration order of Python sets and dictionaries is modelled as insertion order:
`seq`s and insertion-ordered field lists. Every property about the schedule and
the sort is proved for every order of the inputs.

The simulator-side descriptor classes (`Adder`, `Clock`, `Counter`, `Register`,
`Constant`, `Schematic` and its `graph`) are not part of this model's source.
`Netlist.Desc` gives them the pins the translators in simulator.py read.
`Schedule.DepGraph` takes the schematic graph to have one edge per connection,
from the consumer child to the producer child. Node order is child order, and
neighbour order is connection order.

Where the code and the design description of the system disagree, the model
follows the code:

- `connect` adds the dependency `desc1 -> desc2`, from producer to consumer
  (descriptors.py:122). Reversing the postorder therefore puts the producer
  first. `connect` checks no pin names.
- A `burst` runs `burst_size + 1` ticks, not `burst_size`.
- The counter, as written, only toggles bit 0. The adder, as written, reports
  signed overflow as its carry.
- A register cannot be built: its translator ANDs the pointer `out` rather than
  its loaded value (simulator.py:127), and llvmlite rejects that.
- There is no observer mechanism.

## Model

| member | source | states |
|---|---|---|
| Bits.NotBit | simulator.py:57-60 | LLVM `not` is bitwise: bit `k` of the complement is the flipped bit `k` of the operand below the width, and clear at and above it |
| Bits.NotInvolutive | simulator.py:131-133 | complementing twice gives back the input, truncated to `w` bits |
| Bits.AndBit | simulator.py:69-70 | `and` is bitwise: bit `k` of the result is the product of the operands' bits |
| Bits.OrBit | simulator.py:71-72 | `or` is bitwise: bit `k` of the result is set iff either operand's bit `k` is |
| Bits.XorBit | simulator.py:73-74 | `xor` is bitwise: bit `k` of the result is the parity of the operands' bits |
| Bits.NotNarrows | descriptors.py:56-58 | a 64-bit complement cut to `w` bits is the `w`-bit complement of a value that fits `w` bits |
| Netlist.GateInputsDistinct | simulator.py:65-66 | the input pins `in0 .. in{n-1}` of a gate have pairwise distinct names, so every input is a pin of its own |
| Netlist.DecimalInjective | simulator.py:65-66 | distinct input numbers give distinct decimal suffixes |
| Dfs.Visit | descriptors.py:132-141 | a visit extends the walk: it adds `n` and everything newly reached to `visited`, and appends each newly visited node to the postorder exactly once |
| Dfs.VisitAll | descriptors.py:143-144 | visiting each root in turn extends the walk and leaves every root visited |
| Dfs.Postorder | descriptors.py:128-145 | the postorder lists every root and repeats no node |
| Dfs.PostorderReachable | descriptors.py:128-145 | a node is in the postorder iff some path of successors leads to it from a root |
| Dfs.PostorderRespectsEdges | descriptors.py:132-141 | in an acyclic graph every node appears after all its successors |
| Dfs.NoBackEdge | descriptors.py:133-139 | in an acyclic graph, no successor of the node on top of the DFS stack is on the stack |
| Schedule.PinsAreLeafPins | simulator.py:17-26 | the enumerated pins are exactly the pins of the hierarchy's leaves, each under its full `/`-joined path; composites contribute no pins of their own |
| Netlist.FirstSegment | simulator.py:37 | `split('/')[0]` is the longest prefix without `/`: a name with no separator is itself, and otherwise the separator follows the prefix |
| Netlist.FirstSegmentSplit | simulator.py:37 | the first segment of `a/b` is `a`, whatever `b` is, so an endpoint `sub/x` belongs to child `sub` |
| Schedule.Producers | simulator.py:30-37 | the dependency successors of a child are exactly the children that the source endpoints of the connections into it begin with |
| Schedule.OrderIsPermutation | simulator.py:43 | the DFS postorder of a schematic with unique child names and endpoints inside its children lists every child exactly once |
| Schedule.ProducerBeforeConsumer | simulator.py:42-54 | without dependency cycles, the source child of every connection is scheduled before its destination child |
| Schedule.ConnectionsAreScheduledWires | simulator.py:29-54 | the wires the tracing pass reads are exactly the schedule's `propagate` operations, in the same order |
| Schedule.EveryLeafEmittedOnce | simulator.py:42-54 | the schedule emits every leaf of the hierarchy exactly once, under its full path, and emits nothing else |
| Schedule.BlocksPermutation | simulator.py:43-54 | scheduling the children in any permutation emits the same multiset of operations |
| Trace.ConnMapOf | simulator.py:81-83 | the connection map has a key for exactly the destination pins of the wires |
| Trace.ConnMapLastWins | simulator.py:82-83 | a destination maps to the source of the last wire listed into it |
| Trace.Chase | simulator.py:89-91 | the tracing loop with fuel either ends at a pin that is no destination, reached through destinations only, or stays inside the destinations for the whole fuel |
| Trace.TracePin | simulator.py:85-91 | a trace is undriven iff the pin is no destination; otherwise it is a source reached in one or more hops, and that source is no destination |
| Trace.ChaseDivergesIffLoopsForever | simulator.py:89-91 | with fuel equal to the number of destinations, tracing reports divergence iff the source's loop never terminates on that pin |
| Trace.MapToSources | simulator.py:93-98 | the pin map has a key for exactly the enumerated pins, maps each to its trace, and fails exactly when some pin's trace diverges |
| Primitives.NotStep | simulator.py:57-60 | the inverter stores the `w`-bit complement of its input |
| Primitives.ClockStep | simulator.py:131-133 | the clock stores a value of its width which the inverter maps back to the current output: the clock inverts its own output |
| Primitives.ClockPeriodTwo | simulator.py:131-133 | the clock changes on every tick and returns to its value every second tick |
| Primitives.GateBit | simulator.py:63-77 | bit `k` of the gate's output is the AND / OR / XOR of the inputs' bits `k`, flipped iff the gate is negated, and clear at and above the width |
| Primitives.FoldBit | simulator.py:63-74 | the fold is the truth table bit by bit: AND sets a bit iff every input has it, OR iff some input has it, XOR iff an odd number of inputs have it |
| Primitives.CounterAsWritten | simulator.py:101-113 | the counter as translated, with the edge flag zero-extended, still stores a `w`-bit value |
| Primitives.CounterAsWrittenFlipsBitZero | simulator.py:109-112 | as written, a rising edge only toggles bit 0 of the counter, and without an edge the counter is kept |
| Primitives.CounterIntended | simulator.py:109-112 | with the edge flag sign-extended, a rising edge increments the counter modulo `2^w`, and without an edge the counter is kept |
| Primitives.Add | simulator.py:143-146 | LLVM `add` is the sum modulo `2^w`, which loses exactly `2^w` when the unsigned sum overflows |
| Primitives.AdderAsWritten | simulator.py:136-148 | the adder as translated has the intended sum, and its carry is set iff either addition overflows as a signed addition |
| Primitives.AdderAsWrittenSigned | simulator.py:136-148 | when the as-written carry is clear, the sum read as two's complement is the exact signed sum of the inputs: it is a signed-overflow flag |
| Primitives.AdderIntended | simulator.py:136-148 | with unsigned-overflow flags, `sum + cout * 2^w == a + b + cin` |
| Primitives.AdderCarryLost | simulator.py:143-148 | 255 + 1 on 8 bits gives sum 0 with carry 0 as written, and carry 1 as intended |
| Engine.Allocate | simulator.py:186-192 | a cell exists for exactly the enumerated pins that own a cell, each at its pin's width |
| Engine.Resolve | simulator.py:277-282 | without mapping a path resolves to itself; with mapping an unknown path fails, an undriven pin resolves to itself, and a driven pin to its traced source |
| Engine.GlobalAt | simulator.py:204-208 | a path loads the cell it resolves to, with that cell's width |
| Engine.GateLoads | simulator.py:65-66 | a gate's inputs load the cells `in0 .. in{n-1}` resolve to, all of the first input's width |
| Engine.CompileEmit | simulator.py:210-222 | a translated element's instructions are well typed; a constant only defers its value; a register and a gate without inputs fail to build |
| Engine.CompileOps | simulator.py:210-224 | the schedule compiles iff every operation compiles, and a failure is the error of one of its operations |
| Engine.ExecFrame | simulator.py:57-148 | one well-typed instruction keeps every cell within its width and changes only the cells it stores into |
| Engine.RunFrame | simulator.py:292-293 | a tick keeps every cell within its width and leaves untouched every cell that no instruction stores into |
| Engine.PinMapOf | simulator.py:181-184 | without mapping there is no pin map; with mapping the map has a key for exactly the enumerated pins |
| Engine.SetConstants | simulator.py:274-275 | writing the constants keeps every cell within its width, and succeeds only if every constant's path resolves |
| Engine.ConstantLastWins | simulator.py:274-275 | after the constants are written, a constant's cell holds its value mod 2^64 cut to the cell's width, unless a later constant writes the same cell |
| Engine.ConstantsUntouched | simulator.py:274-275 | a cell that no constant resolves to keeps its value while the constants are written |
| Engine.Zeroed | simulator.py:189-191 | every cell starts at zero |
| Engine.Build | simulator.py:176-275 | a built simulator has a well-typed program, a cell per owning pin with every cell within its width, the given burst size, and a pin map iff mapping was asked for, keyed by the enumerated pins |
| Engine.Burst | simulator.py:226-246 | the compiled burst loop runs exactly `burst_size mod 2^64` + 1 ticks |
| Engine.BurstIntended | simulator.py:226-246 | a burst loop that tests the counter before each step runs exactly `burst_size mod 2^64` ticks |
| Engine.IntendedBurstsAreSteps | simulator.py:295-296 | `k` bursts of the intended size are `k * burst_size` single steps |
| Engine.GetPin | simulator.py:284-286 | reading a pin gives the value of the cell it resolves to whenever that cell exists, and fails when resolution fails |
| Engine.SetPinIn | simulator.py:288-290 | writing a pin needs a resolvable path with a cell behind it, and keeps every cell within its width |
| Engine.ResolveIdempotent | simulator.py:277-282 | with mapping, resolution lands on a pin that owns its cell, and resolving again changes nothing |
| Engine.UnmappedPinsOwnCells | simulator.py:181-192 | without mapping, every enumerated pin has its own cell, and resolution is the identity |
| Engine.UnknownPathFails | simulator.py:280-282 | with mapping, reading a path that is no enumerated pin fails with that path |
| Engine.RegisterRejected | simulator.py:116-128 | a netlist containing a register never builds |
| Engine.SetThenGet | simulator.py:284-290 | with each pin stored as one cell of exactly its width, reading after a write gives the written value mod 2^64 cut to that width, and paths resolving to other cells read as before |
| Engine.BuildWithoutConstants | simulator.py:186-191 | a netlist with no constants and no bad casts is built with every cell at zero |
| Engine.StepFrame | simulator.py:292-293 | a step, as compiled or as corrected, keeps every cell within its width, and leaves cells no instruction stores into unchanged |
| Engine.VariantsAgree | simulator.py:57-148 | a program with no counter and no adder steps the same as compiled and as corrected |
| Scenarios.InverterLoop | examples/clock.py:4-9 | the inverter wired to itself is a well-formed schematic |
| Scenarios.InverterLoopTopology | examples/clock.py:8-9 | its schedule is: emit the inverter, then propagate `/not/out` to `/not/in` |
| Scenarios.InverterLoopPinMap | examples/clock.py:13 | with mapping, `/not/in` traces to `/not/out`, which no wire drives |
| Scenarios.InverterLoopCompile | examples/clock.py:13 | the program is `not` on the single cell `/not/out`, then a copy of that cell onto itself |
| Scenarios.InverterLoopStart | examples/clock.py:12-13 | the build succeeds with the single cell `/not/out` at zero |
| Scenarios.InverterLoopBlinks | examples/clock.py:16-18 | after `k` steps both pins read all ones for odd `k` and zero for even `k` |
| Scenarios.InverterLoopBurstOffByOne | examples/clock.py:12-13 | with burst size 501, one compiled burst leaves the inverter at zero, while 501 steps leave it at all ones |
| Scenarios.NestedFeed | simulator.py:29-37 | a connection out of `sub/not`, inside the composite child `sub`, is well formed and makes `x` depend on `sub` |
| CounterExample.ClockedCounter | examples/counter.py:5-12 | the clock feeding a 16-bit counter is a well-formed schematic |
| CounterExample.ClockedCounterOrder | simulator.py:43 | the clock is scheduled before the counter it feeds |
| CounterExample.ClockedCounterTopology | simulator.py:42-54 | its schedule is: emit the clock, propagate `/clk/out` to `/r/clock`, emit the counter |
| CounterExample.ClockedCounterPinMap | simulator.py:81-98 | with mapping, `/r/clock` traces to `/clk/out`, and every other pin owns its cell |
| CounterExample.ClockedCounterBuild | examples/counter.py:15-16 | the build succeeds with the cells `/clk/out`, `/r/out` and `/r/prevclock`, all at zero, and the three-instruction program |
| CounterRun.TickOver | simulator.py:101-133 | one tick toggles the clock, copies it into `prevclock`, and counts one edge on every tick that sets the clock |
| CounterRun.ClockedCounterCounts | examples/counter.py:22-23 | after `t` steps the clock pins read `t mod 2` and `/r/out` has seen `(t + 1) / 2` rising edges |
| CounterRun.ClockedCounterPeriods | simulator.py:109-112 | after `k` clock periods the compiled counter reads `k mod 2`, while the corrected one reads `k mod 2^16` |
| CounterRun.ClockedCounterBurst | examples/counter.py:28-29 | one compiled burst of size `n` leaves `/r/out` at the parity of `(n + 2) / 2` edges; the intended burst counts `(n + 1) / 2` |
| Descriptors.GetPin | descriptors.py:27-28 | a pin's global is the descriptor's name, `_`, then the pin name |
| Descriptors.GetPinInjective | descriptors.py:27-28 | under one descriptor name, distinct pins name distinct globals |
| Descriptors.GetPinAmbiguous | descriptors.py:21-28 | across names the naming is ambiguous: pin `c` of `a_b` and pin `b_c` of `a` share one global |
| Descriptors.NewComposite | descriptors.py:105-110 | a new composite has no children, no connections and no dependencies |
| Descriptors.Lookup | descriptors.py:115-118 | `children[name]` finds a child stored under that name, and fails iff no child has the name |
| Descriptors.AddChild | descriptors.py:112-113 | after `add_child`, the name looks up the new descriptor, every other name looks up what it did before, and the names stay distinct |
| Descriptors.AddChildLastWins | descriptors.py:112-113 | adding two descriptors of one name is adding the second |
| Descriptors.AddEnd | descriptors.py:121 | recording an end adds it to the pin's set of ends and leaves other pins alone |
| Descriptors.AddDep | descriptors.py:122 | recording a dependency adds it to the set and keeps the set duplicate-free |
| Descriptors.Connect | descriptors.py:120-122 | `connect` adds the end to `desc1`'s pin and `desc2` to `desc1`'s dependencies, and changes nothing else |
| Descriptors.ConnectIdempotent | descriptors.py:120-122 | connecting the same two pins twice is connecting them once |
| Descriptors.Toposort | descriptors.py:128-148 | the sort lists every child and repeats no name |
| Descriptors.ToposortOrdersConnections | descriptors.py:128-148 | without dependency cycles, a child comes before every child it feeds |
| Descriptors.Compile | descriptors.py:49-102 | a leaf whose globals all exist compiles, and a failing leaf names a global that is missing |
| Descriptors.CompileGateComputes | descriptors.py:76-102 | a compiled gate stores into its `out` global the gate value of its loaded inputs, and cut to a width the inputs fit, that is the simulator's gate |
| Descriptors.PinOf | descriptors.py:115-118 | `.` names the composite's own pin; another name names its child's pin and fails iff there is no such child |
| Descriptors.CopiesOfPin | descriptors.py:154-161 | one load/store copy per recorded end, from the source pin's global to that end's global |
| Descriptors.ConnectionCopied | descriptors.py:150-161 | every recorded connection of a compiled child becomes a copy from its global to the far end's global |
| Descriptors.CompileChildrenAppend | descriptors.py:151-153 | the composite's code is the concatenation of the children's blocks, in sort order |
| Descriptors.NotIs64BitComplement | descriptors.py:49-58 | `NotGate` stores the 64-bit complement of its input; cut to a width the input fits, it is the simulator's `not` |
| Descriptors.NotIgnoresWidth | descriptors.py:49-58 | a 1-bit inverter fed zero stores 64 ones, a value no 1-bit pin holds |
| Descriptors.SeededFoldIsFold | descriptors.py:85-97 | seeded with the operator's identity, the gate's loop equals the left fold that starts from the first input |
| Descriptors.GateAgreesWithSimulator | descriptors.py:76-102 | for `and`, `or` and `xor`, the 64-bit value `Gate.compile` stores, cut to a width the inputs fit, is the simulator's gate |
| Descriptors.GateKeepsSeed | descriptors.py:85-100 | an unknown kind, or no inputs, stores the seed (complemented iff negated) |
| Diagram.Rotate | diagram.py:10-18 | rotation keeps the Manhattan length of the offset |
| Diagram.RotateUnit | diagram.py:10-18 | the unit step of EAST, NORTH, WEST and SOUTH, and SOUTH's step for every other facing |
| Diagram.RotateInverses | diagram.py:13-18 | NORTH then SOUTH is the identity, and WEST undoes itself |
| Diagram.WestIsMirror | diagram.py:15-16 | WEST mirrors in the vertical axis rather than turning by half, unlike NORTH twice |
| Diagram.BoundingRect | diagram.py:28-41 | an exposed pin's box spans its width on the side its direction faces; a gate's box covers every input row |
| Diagram.GateLayout | diagram.py:54-62 | input `k` of a gate sits at x = -4 on row `GateInputRow(h, rest, k)` and is named `in{k}` |
| Diagram.GateLoopRows | diagram.py:55-62 | the layout loop from row `i` on yields the closed-form inputs from `index` on |
| Diagram.GateInputLayout | diagram.py:54-62 | a gate with `n` inputs has exactly `in0 .. in{n-1}` in order, at x = -4, on strictly increasing rows within `[-n/2, n/2]`, with row 0 free when `n` is even |
| Diagram.PinPlacement | diagram.py:52-77 | `not` and gates put `out` at the origin; an exposed pin has only the one pin its direction allows |
| Diagram.Flip | diagram.py:189 | `^= True` toggles exactly the chosen side of a node |
| Diagram.ToggleColumn | diagram.py:188-190 | the vertical loop toggles exactly the SOUTH/NORTH sides joining rows `y .. hi` of the column |
| Diagram.ToggleRow | diagram.py:194-196 | the horizontal loop toggles exactly the EAST/WEST sides joining columns `x .. hi` of the row |
| Diagram.Place | diagram.py:180-199 | placing a segment fails iff it is diagonal, and otherwise toggles exactly the sides the segment covers |
| Diagram.ConstructWires | diagram.py:177-201 | the wires fail iff some segment is diagonal; otherwise each side is toggled once per covering segment |
| Diagram.PlaceTwiceRestores | diagram.py:180-197 | placing the same straight segment twice restores every side |
| Diagram.PlaceReversed | diagram.py:188-196 | a segment's direction does not matter |
| Diagram.ConstructKeepsSymmetry | diagram.py:177-201 | straight segments keep the wires symmetric: a node's side is set iff the neighbour's opposite side is |
| Diagram.ChangeWires | diagram.py:203-205 | the new wires replace the old only when every segment is straight; the elements are kept |
| Diagram.ChangeWiresRebuild | diagram.py:203-205 | changing the wires places them and then reconstructs from the new sheet; a diagonal segment fails before anything is rebuilt |
| Diagram.FirstAt | diagram.py:135-140 | the input connected at a position is the first listed input standing there |
| Diagram.LeaveDirs | diagram.py:142-162 | the search leaves a visited position by exactly its wired sides, except that an overlap crossing is passed straight through |
| Diagram.Explore | diagram.py:142-162 | the entries pushed after a visit are the position and its neighbour on each side it may leave by, all reachable along the wires |
| Diagram.Visit | diagram.py:131-140 | a visit connects the first input at the position, if there is one, and records where |
| Diagram.Search | diagram.py:120-162 | the search connects the source only at distinct positions reachable along the wires, each to the first input standing there |
| Diagram.AddChild | diagram.py:108 | storing a child under a name makes the name look up that part, leaves every other name alone, and appends the name only if it is new |
| Diagram.FirstNames | diagram.py:106-108 | the element names in first-occurrence order: distinct, and exactly the names of the elements |
| Diagram.LastPartIsLast | diagram.py:106-108 | the part of the last element carrying a name, and none iff no element carries it |
| Diagram.Reconstruct | diagram.py:100-167 | the children are keyed by the element names in first-occurrence order, each holding the part of the last element of that name; each connection joins an output to the first input at a position reachable from it along the wires |
| Pathfind.AdjacentIsNeighbour | util.py:38-39 | every point one unit step away is one of the four neighbours the search tries |
| Pathfind.MinExists | util.py:31 | a non-empty frontier has a least entry |
| Pathfind.Pop | util.py:30-32 | a round takes the least frontier entry and marks its point visited |
| Pathfind.Record | util.py:47-51 | recording a neighbour sets its cost and back-pointer and enters it on the frontier at `h + cost + 1` |
| Pathfind.TryNeighbour | util.py:39-51 | trying a neighbour keeps the search invariant, and afterwards the neighbour is recorded or collides |
| Pathfind.Expand | util.py:38-51 | after the four neighbours, the visited points are closed: every clear neighbour of a visited point is recorded |
| Pathfind.Backtrace | util.py:56-61 | the back-pointer walk goes from the goal to the start by unit steps over points that do not collide |
| Pathfind.NotConnected | util.py:30-54 | once the frontier is empty without reaching the goal, no clear path joins the start to the goal |
| Pathfind.Search | util.py:13-63 | a colliding end gives no path; a path found runs from start to goal over clear unit steps; no path is reported only when none exists |
| Serial.KindOfName | serial.py:10-15 | the inverse class table maps a name back to the one class carrying it, and fails iff no class does |
| Serial.KindOf | serial.py:10-15 | exactly `Not`, `Gate`, `Composite` and `ExposedPin` are registered |
| Serial.OpOfName | serial.py:17-21 | the inverse op table maps `and`, `or` and `xor` back to their operator, and fails on any other name |
| Serial.Encode | serial.py:24-44 | encoding succeeds iff every class in the tree is registered; the result starts with the `type` tag and has distinct keys |
| Serial.EncodeChildren | serial.py:37-38 | the children dictionary encodes iff every child is registered, and its keys are distinct |
| Serial.DecodeConn | serial.py:58-59 | a connection decodes from a value iff that value is the encoding of the connection |
| Serial.DecodeConns | serial.py:58-59 | the connection list decodes iff every item does, into the decoded items in list order |
| Serial.AddChild | serial.py:56-57 | adding a child under a present name replaces it in place; under a new name it is appended; names stay distinct |
| Serial.Decode | serial.py:47-62 | decoding needs a dictionary with a string `type` whose class is the decoded descriptor's, and fails on an unknown tag; whatever decodes can be encoded again: every class is registered and child names are distinct, at every depth |
| Serial.DecodeNot | serial.py:50-51 | a `not` decodes iff its width is an integer from 1 to 64 |
| Serial.DecodeGate | serial.py:52-53 | a decoded gate's op, width, input count and negation are the dictionary's values; an unknown op name fails |
| Serial.DecodeExposedPin | serial.py:61-62 | an exposed pin decodes iff it has a direction and a valid width, and it is an input iff the direction is `in` |
| Serial.DecodeComposite | serial.py:54-60 | a decoded composite's children are its decoded `children` dictionary, and its connections are the decoded `connections` list |
| Serial.DecodeChildren | serial.py:56-57 | the decoded children have distinct names |
| Serial.RoundTrip | serial.py:24-62 | decoding the encoding of any savable descriptor gives the descriptor back |

## Left out

- The LLVM toolchain itself: `parse_assembly`, the optimisation passes, MCJIT
  and reading globals through `ctypes`. The model gives the compiled program a
  meaning directly, instruction by instruction.
- JSON I/O, `load_project`, `save_project`, `_element_to_dict` and
  `_dict_to_element`. The last two do not run as written (`qAddPostRoutine`,
  `_desc_to_dict()`, `= pass`). `_desc_to_dict` and `_dict_to_desc` are
  modelled.
- Serial.Decode rejects a width outside 1..64, a negative `num_inputs` and a
  value of the wrong JSON type. Python would store such values unchecked in the descriptor, but the
  model's descriptors carry only valid widths.
- Serial.AddChild and the connection replay: the `Composite` of the package
  serial.py imports is not part of this model. `add_child(name, desc)` is
  modelled as a dictionary store, and `connect` as an append to the connection
  list.
- Netlist.WellFormed requires distinct child names and every connection
  endpoint to begin with an existing child's name (`sub/x` begins with
  `sub`). The source does not check this: a duplicate name cannot occur in
  its child dictionary, a connection whose source names no child is never
  scheduled, and one whose destination names no child leads to a pin path
  the build does not know.
- CounterRun.ClockedCounterBurst: stated for burst sizes below 2^64, the
  range of the 64-bit burst counter; `Engine.Burst` covers every size.
- Descriptors: the `path` of a descriptor with a parent uses `full_name`, which
  no class defines. Only parentless descriptors are modelled.
- Descriptors: `setup` creates globals with `dllexport` linkage. Globals are
  modelled as a set of names, and a duplicate name (which llvmlite rejects) is
  not modelled.
- Engine.Allocate: two enumerated pins with the same path (possible when a
  child name contains `/`) share one cell in the model, while the simulator's
  second global of that name fails to be created (simulator.py:186-192).
- Diagram.AddChild: diagram.py calls `add_child(name, desc)` like serial.py
  does, on a `Composite` that is not part of this model; it is modelled as
  the same dictionary store.
- Descriptors.Compile: the composite case only states what `CompileChildren`
  and `ConnectionCopied` state. A composite compiling itself through the `.`
  child is not separately modelled.
- Engine.SetThenGet, Engine.GetPin, Engine.SetPinIn, Engine.ConstantLastWins:
  the simulator's `get_pin_state` and `set_pin_state` read and write 8 bytes
  whatever the pin's width, so a read straight after writing v returns
  v mod 2^64, and a write to a narrow pin spills into the bytes after its
  global. The model keeps each cell exactly at its width, as the compiled
  code's loads see it: a write is kept modulo 2^64 and then cut to the cell's
  width, and it touches no other cell. Bursts beyond 2^64 ticks are not
  modelled apart from the 64-bit burst counter.
- Engine.Build: the model gives `Clock` only the `out` pin its translator
  uses; an internal `count` that the unseen `Clock` class might declare would
  be an extra cell that no instruction writes. The `Not` descriptor's default
  width lives in a class that is not part of this model. `Netlist.Not` always
  carries a width.
- Trace.TracePin: a wire-only cycle makes the source loop forever. The model
  runs the loop with `|conns|` turns of fuel and reports `Diverges`, and
  `Trace.ChaseDivergesIffLoopsForever` shows this happens exactly when the loop
  would not end.
- Diagram: composite elements (their float-sized box and pin rows), `print` in
  `_bfs`, the `defaultdict` that creates empty nodes on lookup (modelled as an
  absent node reading as `EMPTY`), and `add_element` / `remove_element`, which
  only append or remove and then call `reconstruct`.
- Pathfind.Search: the search is given a number of rounds and returns
  `OutOfRounds` when they run out, because the grid is unbounded. No claim is
  made that the path found is shortest: the priority adds the squared distance
  at every step, so it is not an A* cost.
- Pathfind: `SortedSet` ties are broken by the point's coordinates, as Python
  compares tuples. The model orders entries the same way (`Le`).
- Observers, `teardown`, and rebuilding an engine: no such code exists in the
  simulator.

## Findings

| source | as written | input that shows it | evidently intended | confidence | as-written member | corrected member |
|---|---|---|---|---|---|---|
| simulator.py:109-112 | the edge flag `v3` is zero-extended, so `v3 & (out + 1) \| ~v3 & out` only changes bit 0 | an 8-bit counter at 2 on a rising edge becomes 3, then at 3 becomes 2 | sign-extend the flag so that an edge increments the counter modulo 2^w | not executed | Primitives.CounterAsWrittenFlipsBitZero | Primitives.CounterIntended |
| simulator.py:143-148 | `cout` is the OR of the signed-overflow flags of the two additions | 8 bits, a = 255, b = 1, cin = 0 gives sum 0 and cout 0 | the unsigned carry out of `a + b + cin` | not executed | Primitives.AdderCarryLost | Primitives.AdderIntended |
| simulator.py:234-243 | the loop calls `step`, then compares the counter before its decrement with 0, so it runs `burst_size + 1` times | `examples/clock.py` with burst size 501: one burst leaves the inverter at 0, while 501 steps leave it at all ones | exactly `burst_size` ticks per burst | not executed | Scenarios.InverterLoopBurstOffByOne | Engine.BurstIntended |
