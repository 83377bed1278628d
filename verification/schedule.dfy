/**
 * Flattening a schematic for simulation (simulator.py): the enumeration of
 * leaf pins under `/`-joined paths, the connections between them, and the
 * ordered schedule of `emit` / `propagate` operations one tick performs.
 */
module Schedule {
  import opened Common
  import opened Bits
  import opened Netlist
  import Dfs

  datatype PinKind = InPin | OutPin | InternalPin

  /** One pin of the flattened netlist: its full path, width and role. */
  datatype PinEntry = PinEntry(path: string, width: Width, kind: PinKind)

  /** One operation of a tick: evaluate a primitive, or copy a connection's value. */
  datatype Op = Emit(desc: Desc, prefix: string) | Propagate(src: string, dst: string)

  /** A leaf of the hierarchy: its path relative to the root (`a/b/`) and its descriptor. */
  datatype Leaf = Leaf(rel: string, desc: Desc)

  /** A primitive's pins placed under `prefix`, each tagged with its role. */
  function Tag(pins: seq<Pin>, prefix: string, kind: PinKind): (r: seq<PinEntry>)
    ensures |r| == |pins|
    ensures forall i :: 0 <= i < |pins| ==> r[i] == PinEntry(prefix + pins[i].name, pins[i].width, kind)
  {
    seq(|pins|, i requires 0 <= i < |pins| => PinEntry(prefix + pins[i].name, pins[i].width, kind))
  }

  /** The pins of one primitive placed under `prefix`: inputs, outputs, then internals. */
  function LocalPins(d: Desc, prefix: string): seq<PinEntry>
  {
    Tag(Inputs(d), prefix, InPin) + Tag(Outputs(d), prefix, OutPin) + Tag(Internals(d), prefix, InternalPin)
  }

  // ---------------------------------------------------------------- pins

  /** `iter_simulation_pins`: the pins of every leaf, children in order, nested schematics recursively. */
  function SimulationPins(node: Desc, path: string): seq<PinEntry>
    requires node.Schematic?
    decreases node, 1
  {
    PinsFrom(node, path, 0)
  }

  function PinsFrom(node: Desc, path: string, i: nat): seq<PinEntry>
    requires node.Schematic? && i <= |node.children|
    decreases node, 0, |node.children| - i
  {
    if i == |node.children| then []
    else
      var c := node.children[i];
      (if c.desc.Schematic? then SimulationPins(c.desc, path + c.name + "/")
       else LocalPins(c.desc, path + c.name + "/"))
      + PinsFrom(node, path, i + 1)
  }

  /** The leaves of a schematic in child order, nested schematics replaced by their leaves. */
  function Leaves(node: Desc): (ls: seq<Leaf>)
    requires node.Schematic?
    ensures forall l :: l in ls ==> !l.desc.Schematic? && |l.rel| > 0 && l.rel[|l.rel| - 1] == SEP
    decreases node, 1
  {
    LeavesFrom(node, 0)
  }

  function LeavesFrom(node: Desc, i: nat): (ls: seq<Leaf>)
    requires node.Schematic? && i <= |node.children|
    ensures forall l :: l in ls ==> !l.desc.Schematic? && |l.rel| > 0 && l.rel[|l.rel| - 1] == SEP
    decreases node, 0, |node.children| - i
  {
    if i == |node.children| then []
    else
      var c := node.children[i];
      (if c.desc.Schematic? then Rebase(c.name + "/", Leaves(c.desc))
       else [Leaf(c.name + "/", c.desc)])
      + LeavesFrom(node, i + 1)
  }

  /** Place leaves one level deeper, under `dir`. */
  function Rebase(dir: string, ls: seq<Leaf>): (r: seq<Leaf>)
    ensures |r| == |ls|
    ensures forall i :: 0 <= i < |ls| ==> r[i] == Leaf(dir + ls[i].rel, ls[i].desc)
  {
    seq(|ls|, i requires 0 <= i < |ls| => Leaf(dir + ls[i].rel, ls[i].desc))
  }

  /** The pins of a list of leaves placed under `path`. */
  function LeafPins(ls: seq<Leaf>, path: string): seq<PinEntry>
  {
    if ls == [] then [] else LocalPins(ls[0].desc, path + ls[0].rel) + LeafPins(ls[1..], path)
  }

  lemma {:induction false} LeafPinsAppend(a: seq<Leaf>, b: seq<Leaf>, path: string)
    ensures LeafPins(a + b, path) == LeafPins(a, path) + LeafPins(b, path)
  {
    if a == [] {
      assert a + b == b;
    } else {
      assert (a + b)[1..] == a[1..] + b;
      LeafPinsAppend(a[1..], b, path);
    }
  }

  lemma {:induction false} LeafPinsRebase(dir: string, ls: seq<Leaf>, path: string)
    ensures LeafPins(Rebase(dir, ls), path) == LeafPins(ls, path + dir)
  {
    if ls != [] {
      assert Rebase(dir, ls)[1..] == Rebase(dir, ls[1..]);
      assert path + (dir + ls[0].rel) == (path + dir) + ls[0].rel;
      LeafPinsRebase(dir, ls[1..], path);
    }
  }

  /**
   * The enumerated pins are exactly the leaves' own pins, each under the
   * leaf's path: `path` followed by one `name/` per level. Schematics
   * contribute no pins of their own.
   */
  lemma {:induction false} PinsAreLeafPins(node: Desc, path: string)
    requires node.Schematic?
    ensures SimulationPins(node, path) == LeafPins(Leaves(node), path)
    decreases node, 1
  {
    PinsFromLeaves(node, path, 0);
  }

  lemma {:induction false} PinsFromLeaves(node: Desc, path: string, i: nat)
    requires node.Schematic? && i <= |node.children|
    ensures PinsFrom(node, path, i) == LeafPins(LeavesFrom(node, i), path)
    decreases node, 0, |node.children| - i, 1
  {
    if i < |node.children| {
      var c := node.children[i];
      var here := if c.desc.Schematic? then Rebase(c.name + "/", Leaves(c.desc)) else [Leaf(c.name + "/", c.desc)];
      assert LeavesFrom(node, i) == here + LeavesFrom(node, i + 1);
      PinsFromLeaves(node, path, i + 1);
      LeafPinsAppend(here, LeavesFrom(node, i + 1), path);
      ChildPinsLeaves(node, path, i);
    }
  }

  /** The pins of child `i` are the pins of its leaves. */
  lemma ChildPinsLeaves(node: Desc, path: string, i: nat)
    requires node.Schematic? && i < |node.children|
    ensures var c := node.children[i];
            (if c.desc.Schematic? then SimulationPins(c.desc, path + c.name + "/") else LocalPins(c.desc, path + c.name + "/"))
            == LeafPins(if c.desc.Schematic? then Rebase(c.name + "/", Leaves(c.desc)) else [Leaf(c.name + "/", c.desc)], path)
    decreases node, 0, |node.children| - i, 0
  {
    var c := node.children[i];
    assert path + (c.name + "/") == path + c.name + "/";
    if c.desc.Schematic? {
      PinsAreLeafPins(c.desc, path + c.name + "/");
      LeafPinsRebase(c.name + "/", Leaves(c.desc), path);
    } else {
      assert LeafPins([Leaf(c.name + "/", c.desc)], path) == LocalPins(c.desc, path + (c.name + "/"));
    }
  }

  // ---------------------------------------------------------------- dependency order

  /** The child feeding every connection into child `n`, in connection order. */
  function Producers(conns: seq<Conn>, n: string): (r: seq<string>)
    ensures forall c :: c in conns && FirstSegment(c.dstChild) == n ==> FirstSegment(c.srcChild) in r
    ensures forall m :: m in r ==> exists c :: c in conns && FirstSegment(c.dstChild) == n && FirstSegment(c.srcChild) == m
  {
    if conns == [] then []
    else (if FirstSegment(conns[0].dstChild) == n then [FirstSegment(conns[0].srcChild)] else []) + Producers(conns[1..], n)
  }

  /**
   * The schematic's dependency graph: every child has an edge to each child
   * feeding it, so a depth-first postorder lists producers before consumers.
   */
  function DepGraph(node: Desc): Dfs.Adjacency<string>
    requires node.Schematic?
  {
    map n | n in Names(node.children) :: Producers(node.connections, n)
  }

  /** `dfs_postorder_nodes(node.graph)`. */
  function Order(node: Desc): seq<string>
    requires node.Schematic?
  {
    Dfs.Postorder(DepGraph(node), Names(node.children))
  }

  /** Of a well-formed schematic, the order lists every child exactly once. */
  lemma OrderIsPermutation(node: Desc)
    requires node.Schematic? && WellFormed(node)
    ensures Distinct(Order(node))
    ensures forall n :: n in Order(node) <==> n in Names(node.children)
  {
    var g := DepGraph(node);
    var names := Names(node.children);
    assert g.Keys == Elems(names);
    forall m | m in Dfs.Universe(g, names) ensures m in Elems(names) {
    }
    var post := Order(node);
    assert Elems(post) == Elems(names);
    forall n ensures n in post <==> n in names {
      assert n in post <==> n in Elems(post);
      assert n in names <==> n in Elems(names);
    }
  }

  /**
   * Without dependency cycles, the child a connection leaves (the first
   * segment of its source) is scheduled before the child it enters, so a
   * tick reads values produced in the same tick.
   */
  lemma ProducerBeforeConsumer(node: Desc, c: Conn)
    requires node.Schematic? && WellFormed(node) && c in node.connections
    requires Dfs.Acyclic(DepGraph(node))
    ensures exists i, j :: 0 <= i < j < |Order(node)|
              && Order(node)[i] == FirstSegment(c.srcChild) && Order(node)[j] == FirstSegment(c.dstChild)
  {
    var g := DepGraph(node);
    var post := Order(node);
    var src, dst := FirstSegment(c.srcChild), FirstSegment(c.dstChild);
    OrderIsPermutation(node);
    Dfs.PostorderRespectsEdges(g, Names(node.children));
    var j :| 0 <= j < |post| && post[j] == dst;
    assert src in Dfs.Succ(g, post[j]);
    assert src in post[..j];
    var i :| 0 <= i < j && post[..j][i] == src;
    assert post[i] == src;
  }

  // ---------------------------------------------------------------- topology

  /** `iter_simulation_topology`: the operations of one tick, in order. */
  function Topology(node: Desc, path: string): seq<Op>
    requires node.Schematic? && WellFormed(node)
    decreases node, 1
  {
    OrderIsPermutation(node);
    TopoBlocks(node, path, Order(node))
  }

  function TopoBlocks(node: Desc, path: string, order: seq<string>): seq<Op>
    requires node.Schematic? && WellFormed(node)
    requires forall n :: n in order ==> n in Names(node.children)
    decreases node, 0, |order|
  {
    if order == [] then [] else TopoBlock(node, path, order[0]) + TopoBlocks(node, path, order[1..])
  }

  /**
   * The operations for child `name`: its own schedule if it is a schematic,
   * else one `emit`; then one `propagate` per connection leaving it.
   */
  function TopoBlock(node: Desc, path: string, name: string): seq<Op>
    requires node.Schematic? && WellFormed(node)
    requires name in Names(node.children)
    decreases node, 0, 0
  {
    var c := node.children[IndexOf(node.children, name)];
    (if c.desc.Schematic? then Topology(c.desc, path + name + "/") else [Emit(c.desc, path + name + "/")])
    + Props(node.connections, path, name)
  }

  /** One `propagate` per connection whose source is child `name`, both ends under `path`. */
  function Props(conns: seq<Conn>, path: string, name: string): seq<Op>
  {
    if conns == [] then []
    else
      var c := conns[0];
      (if FirstSegment(c.srcChild) == name
       then [Propagate(path + c.srcChild + "/" + c.srcPin, path + c.dstChild + "/" + c.dstPin)]
       else [])
      + Props(conns[1..], path, name)
  }

  // ---------------------------------------------------------------- connections

  /** A wire of the flattened netlist, from one pin path to another. */
  datatype Wire = Wire(src: string, dst: string)

  /** `iter_simulation_connections`: the same traversal as the topology, yielding only the wires. */
  function Connections(node: Desc, path: string): seq<Wire>
    requires node.Schematic? && WellFormed(node)
    decreases node, 1
  {
    OrderIsPermutation(node);
    ConnBlocks(node, path, Order(node))
  }

  function ConnBlocks(node: Desc, path: string, order: seq<string>): seq<Wire>
    requires node.Schematic? && WellFormed(node)
    requires forall n :: n in order ==> n in Names(node.children)
    decreases node, 0, |order|
  {
    if order == [] then [] else ConnBlock(node, path, order[0]) + ConnBlocks(node, path, order[1..])
  }

  function ConnBlock(node: Desc, path: string, name: string): seq<Wire>
    requires node.Schematic? && WellFormed(node)
    requires name in Names(node.children)
    decreases node, 0, 0
  {
    var c := node.children[IndexOf(node.children, name)];
    (if c.desc.Schematic? then Connections(c.desc, path + name + "/") else [])
    + ConnsFrom(node.connections, path, name)
  }

  function ConnsFrom(conns: seq<Conn>, path: string, name: string): seq<Wire>
  {
    if conns == [] then []
    else
      var c := conns[0];
      (if FirstSegment(c.srcChild) == name
       then [Wire(path + c.srcChild + "/" + c.srcPin, path + c.dstChild + "/" + c.dstPin)]
       else [])
      + ConnsFrom(conns[1..], path, name)
  }

  /** The wires carried by the `propagate` operations of a schedule, in order. */
  function WiresOf(ops: seq<Op>): seq<Wire>
  {
    if ops == [] then []
    else (if ops[0].Propagate? then [Wire(ops[0].src, ops[0].dst)] else []) + WiresOf(ops[1..])
  }

  lemma {:induction false} WiresOfAppend(a: seq<Op>, b: seq<Op>)
    ensures WiresOf(a + b) == WiresOf(a) + WiresOf(b)
  {
    if a == [] {
      assert a + b == b;
    } else {
      var head := if a[0].Propagate? then [Wire(a[0].src, a[0].dst)] else [];
      assert (a + b)[0] == a[0];
      assert (a + b)[1..] == a[1..] + b;
      assert WiresOf(a + b) == head + WiresOf(a[1..] + b);
      WiresOfAppend(a[1..], b);
      assert WiresOf(a) == head + WiresOf(a[1..]);
    }
  }

  lemma {:induction false} PropsWires(conns: seq<Conn>, path: string, name: string)
    ensures WiresOf(Props(conns, path, name)) == ConnsFrom(conns, path, name)
  {
    if conns != [] {
      var c := conns[0];
      var here := if FirstSegment(c.srcChild) == name
        then [Propagate(path + c.srcChild + "/" + c.srcPin, path + c.dstChild + "/" + c.dstPin)] else [];
      WiresOfAppend(here, Props(conns[1..], path, name));
      PropsWires(conns[1..], path, name);
    }
  }

  /**
   * The wires the source-tracing pass reads are exactly, and in the same
   * order, the `propagate` operations of the tick schedule.
   */
  lemma {:induction false} ConnectionsAreScheduledWires(node: Desc, path: string)
    requires node.Schematic? && WellFormed(node)
    ensures Connections(node, path) == WiresOf(Topology(node, path))
    decreases node, 1
  {
    OrderIsPermutation(node);
    ConnBlocksWires(node, path, Order(node));
  }

  lemma {:induction false} ConnBlocksWires(node: Desc, path: string, order: seq<string>)
    requires node.Schematic? && WellFormed(node)
    requires forall n :: n in order ==> n in Names(node.children)
    ensures ConnBlocks(node, path, order) == WiresOf(TopoBlocks(node, path, order))
    decreases node, 0, |order|
  {
    if order != [] {
      var name := order[0];
      var c := node.children[IndexOf(node.children, name)];
      var sub := if c.desc.Schematic? then Topology(c.desc, path + name + "/") else [Emit(c.desc, path + name + "/")];
      WiresOfAppend(TopoBlock(node, path, name), TopoBlocks(node, path, order[1..]));
      WiresOfAppend(sub, Props(node.connections, path, name));
      PropsWires(node.connections, path, name);
      if c.desc.Schematic? {
        ConnectionsAreScheduledWires(c.desc, path + name + "/");
      }
      ConnBlocksWires(node, path, order[1..]);
    }
  }

  // ---------------------------------------------------------------- schedule properties

  lemma {:induction false} TopoBlocksAppend(node: Desc, path: string, a: seq<string>, b: seq<string>)
    requires node.Schematic? && WellFormed(node)
    requires forall n :: n in a + b ==> n in Names(node.children)
    ensures TopoBlocks(node, path, a + b) == TopoBlocks(node, path, a) + TopoBlocks(node, path, b)
  {
    if a == [] {
      assert a + b == b;
    } else {
      assert (a + b)[1..] == a[1..] + b;
      TopoBlocksAppend(node, path, a[1..], b);
    }
  }

  /** The `emit` operations of a schedule, in order. */
  function EmitsOf(ops: seq<Op>): seq<Op>
  {
    if ops == [] then [] else (if ops[0].Emit? then [ops[0]] else []) + EmitsOf(ops[1..])
  }

  lemma {:induction false} EmitsOfAppend(a: seq<Op>, b: seq<Op>)
    ensures EmitsOf(a + b) == EmitsOf(a) + EmitsOf(b)
  {
    if a == [] {
      assert a + b == b;
    } else {
      assert (a + b)[1..] == a[1..] + b;
      EmitsOfAppend(a[1..], b);
    }
  }

  lemma {:induction false} PropsEmitNothing(conns: seq<Conn>, path: string, name: string)
    ensures EmitsOf(Props(conns, path, name)) == []
  {
    if conns != [] {
      var c := conns[0];
      var here := if FirstSegment(c.srcChild) == name
        then [Propagate(path + c.srcChild + "/" + c.srcPin, path + c.dstChild + "/" + c.dstPin)] else [];
      EmitsOfAppend(here, Props(conns[1..], path, name));
      PropsEmitNothing(conns[1..], path, name);
    }
  }

  /** The `emit` a leaf list calls for when placed under `path`. */
  function LeafEmits(ls: seq<Leaf>, path: string): seq<Op>
  {
    if ls == [] then [] else [Emit(ls[0].desc, path + ls[0].rel)] + LeafEmits(ls[1..], path)
  }

  lemma {:induction false} LeafEmitsAppend(a: seq<Leaf>, b: seq<Leaf>, path: string)
    ensures LeafEmits(a + b, path) == LeafEmits(a, path) + LeafEmits(b, path)
  {
    if a == [] {
      assert a + b == b;
    } else {
      assert (a + b)[1..] == a[1..] + b;
      LeafEmitsAppend(a[1..], b, path);
    }
  }

  lemma {:induction false} LeafEmitsRebase(dir: string, ls: seq<Leaf>, path: string)
    ensures LeafEmits(Rebase(dir, ls), path) == LeafEmits(ls, path + dir)
  {
    if ls != [] {
      assert Rebase(dir, ls)[1..] == Rebase(dir, ls[1..]);
      assert path + (dir + ls[0].rel) == (path + dir) + ls[0].rel;
      LeafEmitsRebase(dir, ls[1..], path);
    }
  }

  /** Taking child `t[k]` out of an order takes exactly its block's `emit`s out of the schedule. */
  lemma TopoBlocksRemove(node: Desc, path: string, t: seq<string>, k: nat)
    requires node.Schematic? && WellFormed(node) && k < |t|
    requires forall n :: n in t ==> n in Names(node.children)
    ensures forall n :: n in t[..k] + t[k + 1..] ==> n in Names(node.children)
    ensures multiset(EmitsOf(TopoBlocks(node, path, t)))
         == multiset(EmitsOf(TopoBlock(node, path, t[k]))) + multiset(EmitsOf(TopoBlocks(node, path, t[..k] + t[k + 1..])))
  {
    assert t == t[..k] + [t[k]] + t[k + 1..];
    TopoBlocksAppend(node, path, t[..k] + [t[k]], t[k + 1..]);
    TopoBlocksAppend(node, path, t[..k], [t[k]]);
    TopoBlocksAppend(node, path, t[..k], t[k + 1..]);
    var X, B, Z := TopoBlocks(node, path, t[..k]), TopoBlock(node, path, t[k]), TopoBlocks(node, path, t[k + 1..]);
    assert TopoBlocks(node, path, [t[k]]) == B + [];
    assert B + [] == B;
    EmitsOfAppend(X + B, Z);
    EmitsOfAppend(X, B);
    EmitsOfAppend(X, Z);
  }

  /** Scheduling children in any permutation emits the same operations. */
  lemma {:induction false} BlocksPermutation(node: Desc, path: string, s: seq<string>, t: seq<string>)
    requires node.Schematic? && WellFormed(node)
    requires forall n :: n in s ==> n in Names(node.children)
    requires multiset(s) == multiset(t)
    ensures forall n :: n in t ==> n in Names(node.children)
    ensures multiset(EmitsOf(TopoBlocks(node, path, s))) == multiset(EmitsOf(TopoBlocks(node, path, t)))
    decreases |s|
  {
    forall n | n in t ensures n in Names(node.children) {
      assert n in multiset(t);
    }
    if s == [] {
      assert |t| == |multiset(t)| == 0;
    } else {
      assert s[0] in multiset(t);
      var k :| 0 <= k < |t| && t[k] == s[0];
      Common.RemoveFront(s, t, k);
      BlocksPermutation(node, path, s[1..], t[..k] + t[k + 1..]);
      TopoBlocksRemove(node, path, t, k);
      EmitsOfAppend(TopoBlock(node, path, s[0]), TopoBlocks(node, path, s[1..]));
    }
  }

  /**
   * Every leaf of the hierarchy is emitted exactly once, under its full path;
   * nothing else is emitted. Only the order differs from the leaves' order.
   */
  lemma {:induction false} EveryLeafEmittedOnce(node: Desc, path: string)
    requires node.Schematic? && WellFormed(node)
    ensures multiset(EmitsOf(Topology(node, path))) == multiset(LeafEmits(Leaves(node), path))
    decreases node, 1
  {
    OrderIsPermutation(node);
    var names := Names(node.children);
    assert Distinct(names);
    assert Elems(Order(node)) == Elems(names);
    Common.SameElemsPermutation(Order(node), names);
    BlocksPermutation(node, path, Order(node), names);
    assert names[0..] == names;
    ChildBlocksEmitLeaves(node, path, 0);
  }

  lemma {:induction false} ChildBlocksEmitLeaves(node: Desc, path: string, i: nat)
    requires node.Schematic? && WellFormed(node) && i <= |node.children|
    ensures forall n :: n in Names(node.children)[i..] ==> n in Names(node.children)
    ensures multiset(EmitsOf(TopoBlocks(node, path, Names(node.children)[i..])))
         == multiset(LeafEmits(LeavesFrom(node, i), path))
    decreases node, 0, |node.children| - i
  {
    var cs := node.children;
    var names := Names(cs);
    if i < |cs| {
      var c := cs[i];
      assert names[i..] == [c.name] + names[i + 1..];
      ChildBlocksEmitLeaves(node, path, i + 1);
      var here := if c.desc.Schematic? then Rebase(c.name + "/", Leaves(c.desc)) else [Leaf(c.name + "/", c.desc)];
      ChildBlockEmits(node, path, i);
      EmitsOfAppend(TopoBlock(node, path, c.name), TopoBlocks(node, path, names[i + 1..]));
      LeafEmitsAppend(here, LeavesFrom(node, i + 1), path);
    }
  }

  /** The block of the `i`-th child emits exactly the leaves below that child. */
  lemma {:induction false} ChildBlockEmits(node: Desc, path: string, i: nat)
    requires node.Schematic? && WellFormed(node) && i < |node.children|
    ensures node.children[i].name in Names(node.children)
    ensures var c := node.children[i];
            multiset(EmitsOf(TopoBlock(node, path, c.name)))
            == multiset(LeafEmits(if c.desc.Schematic? then Rebase(c.name + "/", Leaves(c.desc))
                                  else [Leaf(c.name + "/", c.desc)], path))
    decreases node, 0, 0
  {
    var cs := node.children;
    var names := Names(cs);
    var c := cs[i];
    assert names[i] == c.name;
    assert IndexOf(cs, c.name) == i by {
      var j := IndexOf(cs, c.name);
      assert names[j] == names[i];
    }
    var sub := if c.desc.Schematic? then Topology(c.desc, path + c.name + "/") else [Emit(c.desc, path + c.name + "/")];
    EmitsOfAppend(sub, Props(node.connections, path, c.name));
    PropsEmitNothing(node.connections, path, c.name);
    ConcatAssoc(path, c.name, "/");
    if c.desc.Schematic? {
      EveryLeafEmittedOnce(c.desc, path + c.name + "/");
      LeafEmitsRebase(c.name + "/", Leaves(c.desc), path);
    }
  }
}
