/**
 * The older descriptor layer (descriptors.py): named elements whose pins are
 * 64-bit globals called `name_pin`, composites that record their children and
 * connections, the reverse-postorder sort of a composite's children, the code
 * each element emits, and that code's meaning on a store of 64-bit words.
 */
module Descriptors {
  import opened Common
  import opened Bits
  import Netlist
  import Primitives
  import Dfs

  // ---------------------------------------------------------------- pins

  /** `get_pin` of a descriptor without a parent: its name, `_`, then the pin name. */
  function GetPin(name: string, pin: string): (r: string)
    ensures |r| == |name| + 1 + |pin|
    ensures r[..|name|] == name && r[|name|] == '_' && r[|name| + 1..] == pin
  {
    name + "_" + pin
  }

  /** Under one descriptor name, distinct pins name distinct globals. */
  lemma GetPinInjective(name: string, p: string, q: string)
    ensures GetPin(name, p) == GetPin(name, q) <==> p == q
  {
    if GetPin(name, p) == GetPin(name, q) {
      assert p == GetPin(name, p)[|name| + 1..];
    }
  }

  /** Across names the encoding is ambiguous: pin `c` of `a_b` and pin `b_c` of `a` share a global. */
  lemma GetPinAmbiguous()
    ensures GetPin("a_b", "c") == GetPin("a", "b_c")
  {
    assert "a_b" + "_" + "c" == "a_b_c";
    assert "a" + "_" + "b_c" == "a_b_c";
  }

  // ---------------------------------------------------------------- elements

  /** The far end of a connection: a child name (or `.` for the composite itself) and a pin. */
  datatype End = End(desc: string, pin: string)

  /** The ends connected to one pin, in the order they were first connected. */
  datatype PinGroup = PinGroup(pin: string, ends: seq<End>)

  /**
   * A descriptor. A composite's `children` is its name-keyed dictionary in
   * insertion order; `conns` maps a child to its pins' outgoing ends and
   * `deps` maps a child to the children it feeds.
   */
  datatype Element =
    | NotGate(name: string, width: int)
    | Gate(name: string, kind: string, width: int, numInputs: nat, negated: bool)
    | Composite(name: string, children: seq<Element>, conns: map<string, seq<PinGroup>>, deps: map<string, seq<string>>)

  /** `Composite()` named `name`: no children, no connections. */
  function NewComposite(name: string): (r: Element)
    ensures r.Composite? && r.children == [] && r.conns == map[] && r.deps == map[]
  {
    Composite(name, [], map[], map[])
  }

  function ChildNames(cs: seq<Element>): (ns: seq<string>)
    ensures |ns| == |cs| && forall i :: 0 <= i < |cs| ==> ns[i] == cs[i].name
  {
    seq(|cs|, i requires 0 <= i < |cs| => cs[i].name)
  }

  /** Position of the child stored under `name`. */
  function Find(cs: seq<Element>, name: string): (r: Option<nat>)
    ensures r.Some? ==> r.value < |cs| && cs[r.value].name == name
    ensures r.Some? ==> forall j :: 0 <= j < r.value ==> cs[j].name != name
    ensures r.None? <==> name !in ChildNames(cs)
  {
    if cs == [] then None
    else if cs[0].name == name then Some(0)
    else
      match Find(cs[1..], name)
      case None =>
        assert forall n :: n in ChildNames(cs) ==> n == cs[0].name || n in ChildNames(cs[1..]) by {
          forall n | n in ChildNames(cs) ensures n == cs[0].name || n in ChildNames(cs[1..]) {
            var i :| 0 <= i < |cs| && ChildNames(cs)[i] == n;
            if i > 0 { assert ChildNames(cs[1..])[i - 1] == n; }
          }
        }
        None
      case Some(i) => Some(i + 1)
  }

  /** `children[name]`. */
  function Lookup(cs: seq<Element>, name: string): (r: Option<Element>)
    ensures r.Some? ==> r.value in cs && r.value.name == name
    ensures r.None? <==> name !in ChildNames(cs)
  {
    match Find(cs, name)
    case None => None
    case Some(i) => Some(cs[i])
  }

  /** `add_child`: store `d` under its name, replacing a child of the same name in place. */
  function AddChild(c: Element, d: Element): (r: Element)
    requires c.Composite?
    ensures r.Composite? && r.name == c.name && r.conns == c.conns && r.deps == c.deps
    ensures Lookup(r.children, d.name) == Some(d)
    ensures forall n :: n != d.name ==> Lookup(r.children, n) == Lookup(c.children, n)
    ensures Distinct(ChildNames(c.children)) ==> Distinct(ChildNames(r.children))
  {
    match Find(c.children, d.name)
    case Some(i) =>
      var cs := c.children[i := d];
      FindReplace(c.children, i, d);
      c.(children := cs)
    case None =>
      var cs := c.children + [d];
      FindAppend(c.children, d);
      c.(children := cs)
  }

  /** Replacing the child found under a name changes no lookup of another name. */
  lemma FindReplace(cs: seq<Element>, i: nat, d: Element)
    requires Find(cs, d.name) == Some(i)
    ensures Find(cs[i := d], d.name) == Some(i)
    ensures forall n :: n != d.name ==> Find(cs[i := d], n) == Find(cs, n)
    ensures Distinct(ChildNames(cs)) ==> Distinct(ChildNames(cs[i := d]))
  {
    var cs' := cs[i := d];
    FindUnique(cs', d.name, i);
    forall n | n != d.name ensures Find(cs', n) == Find(cs, n) {
      FindSame(cs, cs', n, i);
    }
  }

  /** Appending a child under a new name changes no lookup of another name. */
  lemma FindAppend(cs: seq<Element>, d: Element)
    requires Find(cs, d.name).None?
    ensures Find(cs + [d], d.name) == Some(|cs|)
    ensures forall n :: n != d.name ==> Find(cs + [d], n) == Find(cs, n)
    ensures Distinct(ChildNames(cs)) ==> Distinct(ChildNames(cs + [d]))
  {
    var cs' := cs + [d];
    NotFoundNowhere(cs, d.name);
    FindUnique(cs', d.name, |cs|);
    forall n | n != d.name ensures Find(cs', n) == Find(cs, n) {
      FindAppendOther(cs, d, n);
    }
    AppendDistinct(cs, d);
  }

  lemma FindAppendOther(cs: seq<Element>, d: Element, n: string)
    requires n != d.name
    ensures Find(cs + [d], n) == Find(cs, n)
  {
    match Find(cs, n)
    case Some(k) => FindUnique(cs + [d], n, k);
    case None =>
      NotFoundNowhere(cs, n);
      FindNone(cs + [d], n);
  }

  lemma AppendDistinct(cs: seq<Element>, d: Element)
    requires Find(cs, d.name).None?
    ensures Distinct(ChildNames(cs)) ==> Distinct(ChildNames(cs + [d]))
  {
    NotFoundNowhere(cs, d.name);
    var ns, ns' := ChildNames(cs), ChildNames(cs + [d]);
    if Distinct(ns) {
      forall i, j | 0 <= i < j < |ns'| ensures ns'[i] != ns'[j] {
        if j < |cs| {
          assert ns'[i] == ns[i] && ns'[j] == ns[j];
        }
      }
    }
  }

  lemma NotFoundNowhere(cs: seq<Element>, n: string)
    requires Find(cs, n).None?
    ensures forall j :: 0 <= j < |cs| ==> cs[j].name != n
  {
    forall j | 0 <= j < |cs| ensures cs[j].name != n {
      assert ChildNames(cs)[j] == cs[j].name;
    }
  }

  /** `Find` is characterised by the first position holding the name. */
  lemma {:induction false} FindUnique(cs: seq<Element>, n: string, i: nat)
    requires i < |cs| && cs[i].name == n && forall j :: 0 <= j < i ==> cs[j].name != n
    ensures Find(cs, n) == Some(i)
    decreases i
  {
    if i > 0 {
      FindUnique(cs[1..], n, i - 1);
    }
  }

  lemma {:induction false} FindNone(cs: seq<Element>, n: string)
    requires forall j :: 0 <= j < |cs| ==> cs[j].name != n
    ensures Find(cs, n).None?
    decreases |cs|
  {
    if cs != [] {
      FindNone(cs[1..], n);
    }
  }

  /** Two sequences that agree on which positions hold `n` give the same `Find`. */
  lemma FindSame(cs: seq<Element>, cs': seq<Element>, n: string, i: nat)
    requires |cs| == |cs'| && i < |cs| && cs[i].name != n && cs'[i].name != n
    requires forall j :: 0 <= j < |cs| && j != i ==> cs[j] == cs'[j]
    ensures Find(cs, n) == Find(cs', n)
  {
    match Find(cs, n)
    case Some(k) => FindUnique(cs', n, k);
    case None =>
      NotFoundNowhere(cs, n);
      FindNone(cs', n);
  }

  /**
   * Adding two descriptors of the same name is adding the second one: the
   * dictionary key is replaced without error.
   */
  lemma AddChildLastWins(c: Element, d1: Element, d2: Element)
    requires c.Composite? && d1.name == d2.name
    ensures AddChild(AddChild(c, d1), d2) == AddChild(c, d2)
  {
    match Find(c.children, d1.name)
    case Some(i) =>
      FindReplace(c.children, i, d1);
      assert c.children[i := d1][i := d2] == c.children[i := d2];
    case None =>
      FindAppend(c.children, d1);
      assert (c.children + [d1])[|c.children| := d2] == c.children + [d2];
  }

  // ---------------------------------------------------------------- connections

  /** The ends recorded for `pin`. */
  function EndsOf(groups: seq<PinGroup>, pin: string): seq<End>
  {
    if groups == [] then []
    else if groups[0].pin == pin then groups[0].ends
    else EndsOf(groups[1..], pin)
  }

  /** `_conns[...][pin].add(e)`: a set insertion into the pin's group, creating it if needed. */
  function AddEnd(groups: seq<PinGroup>, pin: string, e: End): (r: seq<PinGroup>)
    ensures Elems(EndsOf(r, pin)) == Elems(EndsOf(groups, pin)) + {e}
    ensures forall q :: q != pin ==> EndsOf(r, q) == EndsOf(groups, q)
    ensures Distinct(EndsOf(groups, pin)) ==> Distinct(EndsOf(r, pin))
  {
    if groups == [] then [PinGroup(pin, [e])]
    else if groups[0].pin == pin then
      var es := groups[0].ends;
      [PinGroup(pin, if e in es then es else es + [e])] + groups[1..]
    else
      assert ([groups[0]] + AddEnd(groups[1..], pin, e))[1..] == AddEnd(groups[1..], pin, e);
      [groups[0]] + AddEnd(groups[1..], pin, e)
  }

  /** `_deps[d].add(x)`: a set insertion. */
  function AddDep(ds: seq<string>, x: string): (r: seq<string>)
    ensures Elems(r) == Elems(ds) + {x}
    ensures Distinct(ds) ==> Distinct(r)
  {
    if x in ds then ds else ds + [x]
  }

  function Groups(conns: map<string, seq<PinGroup>>, d: string): seq<PinGroup>
  {
    if d in conns then conns[d] else []
  }

  /** `connect(desc1, pin1, desc2, pin2)`: record the end and the dependency. */
  function Connect(c: Element, desc1: string, pin1: string, desc2: string, pin2: string): (r: Element)
    requires c.Composite?
    ensures r.Composite? && r.name == c.name && r.children == c.children
    ensures Elems(EndsOf(Groups(r.conns, desc1), pin1)) == Elems(EndsOf(Groups(c.conns, desc1), pin1)) + {End(desc2, pin2)}
    ensures forall d, q :: (d, q) != (desc1, pin1) ==> EndsOf(Groups(r.conns, d), q) == EndsOf(Groups(c.conns, d), q)
    ensures Elems(Dfs.Succ(r.deps, desc1)) == Elems(Dfs.Succ(c.deps, desc1)) + {desc2}
    ensures forall d :: d != desc1 ==> Dfs.Succ(r.deps, d) == Dfs.Succ(c.deps, d)
  {
    c.(conns := c.conns[desc1 := AddEnd(Groups(c.conns, desc1), pin1, End(desc2, pin2))],
       deps := c.deps[desc1 := AddDep(Dfs.Succ(c.deps, desc1), desc2)])
  }

  /** Connecting the same two pins again changes nothing: both records are sets. */
  lemma ConnectIdempotent(c: Element, desc1: string, pin1: string, desc2: string, pin2: string)
    requires c.Composite?
    ensures var c1 := Connect(c, desc1, pin1, desc2, pin2);
            Connect(c1, desc1, pin1, desc2, pin2) == c1
  {
    var c1 := Connect(c, desc1, pin1, desc2, pin2);
    var e := End(desc2, pin2);
    var g1 := Groups(c1.conns, desc1);
    AddEndPresent(g1, pin1, e);
    assert desc2 in Elems(Dfs.Succ(c1.deps, desc1));
    assert c1.conns[desc1 := AddEnd(g1, pin1, e)] == c1.conns;
    assert c1.deps[desc1 := AddDep(Dfs.Succ(c1.deps, desc1), desc2)] == c1.deps;
  }

  lemma {:induction false} AddEndPresent(groups: seq<PinGroup>, pin: string, e: End)
    requires e in EndsOf(groups, pin)
    ensures AddEnd(groups, pin, e) == groups
  {
    if groups != [] && groups[0].pin != pin {
      AddEndPresent(groups[1..], pin, e);
    }
  }

  // ---------------------------------------------------------------- sorting

  /** `_toposort`: the depth-first postorder over `deps` from every child in turn, reversed. */
  function Toposort(c: Element): (r: seq<string>)
    requires c.Composite?
    ensures Distinct(r)
    ensures forall n :: n in ChildNames(c.children) ==> n in r
  {
    var post := Dfs.Postorder(c.deps, ChildNames(c.children));
    ReverseFacts(post);
    forall n | n in ChildNames(c.children) ensures n in Reverse(post) {
      assert n in Elems(ChildNames(c.children));
      assert n in Elems(Reverse(post));
    }
    Reverse(post)
  }

  /**
   * Without dependency cycles, a connected child comes before every child it
   * feeds, so its code and its copies run first.
   */
  lemma ToposortOrdersConnections(c: Element, a: string, b: string)
    requires c.Composite? && Dfs.Acyclic(c.deps)
    requires a in ChildNames(c.children) && b in Dfs.Succ(c.deps, a)
    ensures exists i, j :: 0 <= i < j < |Toposort(c)| && Toposort(c)[i] == a && Toposort(c)[j] == b
  {
    var post := Dfs.Postorder(c.deps, ChildNames(c.children));
    var k, m := PostorderEdge(c.deps, ChildNames(c.children), a, b);
    ToposortIsReverse(c);
    ReversedPair(post, k, m);
  }

  /** Reversing puts a later element before an earlier one. */
  lemma ReversedPair<T>(s: seq<T>, k: nat, m: nat)
    requires m < k < |s|
    ensures exists i, j :: 0 <= i < j < |Reverse(s)| && Reverse(s)[i] == s[k] && Reverse(s)[j] == s[m]
  {
    ReverseAt(s, k);
    ReverseAt(s, m);
    var i, j := |s| - 1 - k, |s| - 1 - m;
    assert 0 <= i < j < |Reverse(s)| && Reverse(s)[i] == s[k] && Reverse(s)[j] == s[m];
  }

  lemma ToposortIsReverse(c: Element)
    requires c.Composite?
    ensures Toposort(c) == Reverse(Dfs.Postorder(c.deps, ChildNames(c.children)))
  {
  }

  /** In the postorder a node's successor comes first. */
  lemma PostorderEdge(g: Dfs.Adjacency<string>, roots: seq<string>, a: string, b: string) returns (k: nat, m: nat)
    requires Dfs.Acyclic(g) && a in roots && b in Dfs.Succ(g, a)
    ensures m < k < |Dfs.Postorder(g, roots)|
    ensures Dfs.Postorder(g, roots)[k] == a && Dfs.Postorder(g, roots)[m] == b
  {
    var post := Dfs.Postorder(g, roots);
    Dfs.PostorderRespectsEdges(g, roots);
    assert a in Elems(roots);
    k :| 0 <= k < |post| && post[k] == a;
    assert b in post[..k];
    m :| 0 <= m < k && post[..k][m] == b;
  }

  // ---------------------------------------------------------------- code

  /** The instructions the element compilers emit, over global names. */
  datatype Code =
    | NotCode(input: string, out: string)
    | GateCode(kind: string, inputs: seq<string>, negated: bool, out: string)
    | CopyCode(src: string, dst: string)

  /** The globals `name_in0 .. name_in{n-1}`. */
  function GateInputPins(name: string, n: nat): (ps: seq<string>)
    ensures |ps| == n && forall i :: 0 <= i < n ==> ps[i] == GetPin(name, Netlist.GateInputName(i))
  {
    seq(n, i requires 0 <= i < n => GetPin(name, Netlist.GateInputName(i)))
  }

  /** The globals `setup` creates: a leaf's own pins, and all its children's for a composite. */
  function Setup(e: Element): set<string>
    decreases e
  {
    match e
    case NotGate(name, _) => {GetPin(name, "in"), GetPin(name, "out")}
    case Gate(name, _, _, n, _) => Elems(GateInputPins(name, n)) + {GetPin(name, "out")}
    case Composite(_, cs, _, _) => SetupAll(cs)
  }

  function SetupAll(cs: seq<Element>): set<string>
    decreases cs
  {
    if cs == [] then {} else Setup(cs[0]) + SetupAll(cs[1..])
  }

  /** The first of `ps` that is not a global of the module (`get_global` raises on it). */
  function FirstMissing(globals: set<string>, ps: seq<string>): (r: Option<string>)
    ensures r.None? <==> forall i :: 0 <= i < |ps| ==> ps[i] in globals
    ensures r.Some? ==> r.value in ps && r.value !in globals
  {
    if ps == [] then None
    else if ps[0] !in globals then Some(ps[0])
    else FirstMissing(globals, ps[1..])
  }

  /**
   * `compile`: the code of one element against the module's globals; the
   * error is the key whose lookup raises (a missing global, or a child name
   * that is not in the dictionary).
   */
  function Compile(globals: set<string>, e: Element): (r: Result<seq<Code>, string>)
    ensures !e.Composite? && r.Err? ==> r.error !in globals
    ensures !e.Composite? && Setup(e) <= globals ==> r.Ok?
    decreases e, 1
  {
    match e
    case NotGate(name, _) =>
      var i, o := GetPin(name, "in"), GetPin(name, "out");
      if i !in globals then Err(i)
      else if o !in globals then Err(o)
      else Ok([NotCode(i, o)])
    case Gate(name, kind, _, n, negated) =>
      var ins := GateInputPins(name, n);
      var o := GetPin(name, "out");
      if FirstMissing(globals, ins).Some? then Err(FirstMissing(globals, ins).value)
      else if o !in globals then Err(o)
      else Ok([GateCode(kind, ins, negated, o)])
    case Composite(_, _, _, _) => CompileChildren(globals, e, Toposort(e))
  }

  /** The children in `order`: each child's code, then a copy per connection leaving it. */
  function CompileChildren(globals: set<string>, c: Element, order: seq<string>): (r: Result<seq<Code>, string>)
    requires c.Composite?
    decreases c, 0, |order|
  {
    if order == [] then Ok([])
    else
      match Lookup(c.children, order[0])
      case None => Err(order[0])
      case Some(child) =>
        var code :- Compile(globals, child);
        var copies :- Copies(globals, c, order[0], Groups(c.conns, order[0]));
        var rest :- CompileChildren(globals, c, order[1..]);
        Ok(code + copies + rest)
  }

  /** `get_desc(name).get_pin(pin)`: `.` names the composite itself. */
  function PinOf(c: Element, name: string, pin: string): (r: Result<string, string>)
    requires c.Composite?
    ensures name == "." ==> r == Ok(GetPin(c.name, pin))
    ensures name != "." ==> (r.Ok? <==> name in ChildNames(c.children))
    ensures name != "." && r.Ok? ==> r.value == GetPin(name, pin)
    ensures r.Err? ==> r.error == name
  {
    if name == "." then Ok(GetPin(c.name, pin))
    else
      match Lookup(c.children, name)
      case None => Err(name)
      case Some(d) => Ok(GetPin(d.name, pin))
  }

  /** One load/store copy per recorded end of child `src`, pin by pin. */
  function Copies(globals: set<string>, c: Element, src: string, groups: seq<PinGroup>): (r: Result<seq<Code>, string>)
    requires c.Composite?
    ensures r.Ok? ==> forall k :: 0 <= k < |r.value| ==> r.value[k].CopyCode?
    ensures r.Ok? ==> forall k :: 0 <= k < |r.value| ==> r.value[k].src in globals && r.value[k].dst in globals
    decreases |groups|
  {
    if groups == [] then Ok([])
    else
      var here :- CopiesOfPin(globals, c, src, groups[0].pin, groups[0].ends);
      var rest :- Copies(globals, c, src, groups[1..]);
      Ok(here + rest)
  }

  function CopiesOfPin(globals: set<string>, c: Element, src: string, pin: string, ends: seq<End>): (r: Result<seq<Code>, string>)
    requires c.Composite?
    ensures r.Ok? ==> |r.value| == |ends|
    ensures r.Ok? ==> forall k :: 0 <= k < |ends| ==>
      r.value[k].CopyCode? && PinOf(c, src, pin) == Ok(r.value[k].src) && PinOf(c, ends[k].desc, ends[k].pin) == Ok(r.value[k].dst)
    ensures r.Ok? ==> forall k :: 0 <= k < |r.value| ==> r.value[k].src in globals && r.value[k].dst in globals
    decreases |ends|
  {
    if ends == [] then Ok([])
    else
      var p1 :- PinOf(c, src, pin);
      var p2 :- PinOf(c, ends[0].desc, ends[0].pin);
      if p1 !in globals then Err(p1)
      else if p2 !in globals then Err(p2)
      else
        var rest :- CopiesOfPin(globals, c, src, pin, ends[1..]);
        Ok([CopyCode(p1, p2)] + rest)
  }

  // ---------------------------------------------------------------- meaning

  /** Every global holds a 64-bit word; an unwritten global reads zero. */
  type Store = map<string, nat>

  function Load(s: Store, p: string): (r: nat)
    ensures Fits(MAX_WIDTH, r)
  {
    if p in s then Trunc(MAX_WIDTH, s[p]) else 0
  }

  /** The accumulator's start: `~0` for `and`, else `0`. */
  function Seed(kind: string): nat
  {
    if kind == "and" then BitNot(MAX_WIDTH, 0) else 0
  }

  /** One loop turn: combine by `kind`; any other kind leaves the accumulator alone. */
  function Combine(kind: string, acc: nat, v: nat): nat
  {
    if kind == "and" then BitAnd(acc, v)
    else if kind == "or" then BitOr(acc, v)
    else if kind == "xor" then BitXor(acc, v)
    else acc
  }

  /** The loop over the inputs, in order. */
  function FoldFrom(kind: string, acc: nat, vals: seq<nat>): nat
    decreases |vals|
  {
    if vals == [] then acc else FoldFrom(kind, Combine(kind, acc, vals[0]), vals[1..])
  }

  /** The value `Gate.compile` stores: the fold, complemented iff negated. */
  function GateValue(kind: string, vals: seq<nat>, negated: bool): nat
  {
    var r := FoldFrom(kind, Seed(kind), vals);
    if negated then BitNot(MAX_WIDTH, r) else r
  }

  function LoadAll(s: Store, ps: seq<string>): (vs: seq<nat>)
    ensures |vs| == |ps| && forall i :: 0 <= i < |ps| ==> vs[i] == Load(s, ps[i])
  {
    seq(|ps|, i requires 0 <= i < |ps| => Load(s, ps[i]))
  }

  function Exec(c: Code, s: Store): Store
  {
    match c
    case NotCode(i, o) => s[o := BitNot(MAX_WIDTH, Load(s, i))]
    case GateCode(kind, ins, negated, o) => s[o := GateValue(kind, LoadAll(s, ins), negated)]
    case CopyCode(a, b) => s[b := Load(s, a)]
  }

  function Run(code: seq<Code>, s: Store): Store
    decreases |code|
  {
    if code == [] then s else Run(code[1..], Exec(code[0], s))
  }

  // ---------------------------------------------------------------- properties

  /**
   * `NotGate.compile` stores the 64-bit complement of `in`, whatever the
   * gate's width; cut to a width the input fits, it is the simulator's `not`.
   */
  lemma NotIs64BitComplement(name: string, width: int, globals: set<string>, s: Store)
    requires Compile(globals, NotGate(name, width)).Ok?
    ensures GetPin(name, "out") in Run(Compile(globals, NotGate(name, width)).value, s)
    ensures var code := Compile(globals, NotGate(name, width)).value;
            var out := Run(code, s)[GetPin(name, "out")];
            out + Load(s, GetPin(name, "in")) == Mask(MAX_WIDTH)
            && forall w: Width :: Fits(w, Load(s, GetPin(name, "in"))) ==>
                 Trunc(w, out) == Primitives.NotStep(w, Load(s, GetPin(name, "in")))
  {
    var x := Load(s, GetPin(name, "in"));
    var code := Compile(globals, NotGate(name, width)).value;
    assert code == [NotCode(GetPin(name, "in"), GetPin(name, "out"))];
    assert Run(code, s) == Run([], Exec(code[0], s));
    forall w: Width | Fits(w, x) ensures Trunc(w, BitNot(MAX_WIDTH, x)) == Primitives.NotStep(w, x) {
      NotNarrows(w, MAX_WIDTH, x);
    }
  }

  /** A one-bit inverter fed zero stores all 64 ones, a value no one-bit pin can hold. */
  lemma NotIgnoresWidth(s: Store)
    requires "n_in" !in s
    ensures var out := Run([NotCode("n_in", "n_out")], s)["n_out"];
            out == Mask(MAX_WIDTH) && !Fits(1, out)
  {
    Pow2Monotone(2, MAX_WIDTH);
  }

  /** The gate kinds the loop recognises, as the simulator's operators. */
  function KindOp(kind: string): Option<Netlist.GateOp>
  {
    if kind == "and" then Some(Netlist.And)
    else if kind == "or" then Some(Netlist.Or)
    else if kind == "xor" then Some(Netlist.Xor)
    else None
  }

  lemma {:induction false} FoldFromSnoc(kind: string, acc: nat, vals: seq<nat>, x: nat)
    ensures FoldFrom(kind, acc, vals + [x]) == Combine(kind, FoldFrom(kind, acc, vals), x)
    decreases |vals|
  {
    if vals != [] {
      assert (vals + [x])[1..] == vals[1..] + [x];
      FoldFromSnoc(kind, Combine(kind, acc, vals[0]), vals[1..], x);
    } else {
      assert ([] + [x])[1..] == [];
    }
  }

  /**
   * Seeded with the operator's identity, the loop is the simulator's left
   * fold that starts from the first input.
   */
  lemma {:induction false} SeededFoldIsFold(kind: string, op: Netlist.GateOp, vals: seq<nat>)
    requires KindOp(kind) == Some(op) && |vals| >= 1
    requires forall i :: 0 <= i < |vals| ==> Fits(MAX_WIDTH, vals[i])
    ensures FoldFrom(kind, Seed(kind), vals) == Primitives.Fold(op, vals)
    decreases |vals|
  {
    var n := |vals|;
    var front := vals[..n - 1];
    assert vals == front + [vals[n - 1]];
    FoldFromSnoc(kind, Seed(kind), front, vals[n - 1]);
    if n == 1 {
      assert front == [];
      if kind == "and" {
        assert BitNot(MAX_WIDTH, 0) == Mask(MAX_WIDTH);
        AndMask(MAX_WIDTH, vals[0]);
      }
    } else {
      SeededFoldIsFold(kind, op, front);
    }
  }

  /**
   * For `and`, `or` and `xor` over inputs that fit a width, the 64-bit
   * value `Gate.compile` stores, cut to that width, is the simulator's gate.
   */
  lemma GateAgreesWithSimulator(kind: string, op: Netlist.GateOp, w: Width, vals: seq<nat>, negated: bool)
    requires KindOp(kind) == Some(op) && |vals| >= 1
    requires forall i :: 0 <= i < |vals| ==> Fits(w, vals[i])
    ensures Trunc(w, GateValue(kind, vals, negated)) == Primitives.GateStep(op, w, vals, negated)
  {
    Pow2Monotone(w, MAX_WIDTH);
    SeededFoldIsFold(kind, op, vals);
    Primitives.FoldFits(op, w, vals);
    if negated {
      NotNarrows(w, MAX_WIDTH, Primitives.Fold(op, vals));
    }
  }

  /**
   * `Gate.compile` stores into `name_out` the gate value of the loaded
   * inputs `name_in0 .. name_in{n-1}`; for a recognised kind and inputs that
   * fit a width, that value cut to the width is the simulator's gate.
   */
  lemma CompileGateComputes(name: string, kind: string, width: int, n: nat, negated: bool,
                            globals: set<string>, s: Store, op: Netlist.GateOp, w: Width)
    requires Compile(globals, Gate(name, kind, width, n, negated)).Ok?
    ensures var out := Run(Compile(globals, Gate(name, kind, width, n, negated)).value, s);
            var vals := LoadAll(s, GateInputPins(name, n));
            && GetPin(name, "out") in out
            && out[GetPin(name, "out")] == GateValue(kind, vals, negated)
            && (KindOp(kind) == Some(op) && n >= 1 && (forall i :: 0 <= i < n ==> Fits(w, vals[i])) ==>
                  Trunc(w, out[GetPin(name, "out")]) == Primitives.GateStep(op, w, vals, negated))
  {
    var ins := GateInputPins(name, n);
    var code := Compile(globals, Gate(name, kind, width, n, negated)).value;
    assert code == [GateCode(kind, ins, negated, GetPin(name, "out"))];
    assert Run(code, s) == Run([], Exec(code[0], s));
    var vals := LoadAll(s, ins);
    if KindOp(kind) == Some(op) && n >= 1 && (forall i :: 0 <= i < n ==> Fits(w, vals[i])) {
      GateAgreesWithSimulator(kind, op, w, vals, negated);
    }
  }

  /** An unrecognised kind, or no inputs at all, leaves the seed (complemented iff negated). */
  lemma {:induction false} GateKeepsSeed(kind: string, vals: seq<nat>, negated: bool)
    requires KindOp(kind).None? || vals == []
    ensures GateValue(kind, vals, negated) == if negated then BitNot(MAX_WIDTH, Seed(kind)) else Seed(kind)
  {
    UnknownKindFold(kind, Seed(kind), vals);
  }

  lemma {:induction false} UnknownKindFold(kind: string, acc: nat, vals: seq<nat>)
    requires KindOp(kind).None? || vals == []
    ensures FoldFrom(kind, acc, vals) == acc
    decreases |vals|
  {
    if vals != [] {
      UnknownKindFold(kind, acc, vals[1..]);
    }
  }

  /** The composite's code is the concatenation of the children's blocks, in order. */
  lemma {:induction false} CompileChildrenAppend(globals: set<string>, c: Element, a: seq<string>, b: seq<string>)
    requires c.Composite?
    requires CompileChildren(globals, c, a).Ok? && CompileChildren(globals, c, b).Ok?
    ensures CompileChildren(globals, c, a + b) == Ok(CompileChildren(globals, c, a).value + CompileChildren(globals, c, b).value)
    decreases |a|
  {
    if a == [] {
      assert a + b == b;
      assert CompileChildren(globals, c, a).value == [];
      assert [] + CompileChildren(globals, c, b).value == CompileChildren(globals, c, b).value;
    } else {
      CompileChildrenSplit(globals, c, a);
      var head := CompileChildren(globals, c, [a[0]]).value;
      var restA := CompileChildren(globals, c, a[1..]).value;
      var restB := CompileChildren(globals, c, b).value;
      CompileChildrenAppend(globals, c, a[1..], b);
      ConsAppend(a, b);
      CompileChildrenJoin(globals, c, a[0], a[1..] + b);
      ConcatAssoc(head, restA, restB);
    }
  }

  /** The first child's block, then the rest. */
  lemma CompileChildrenSplit(globals: set<string>, c: Element, xs: seq<string>)
    requires c.Composite? && xs != [] && CompileChildren(globals, c, xs).Ok?
    ensures CompileChildren(globals, c, [xs[0]]).Ok? && CompileChildren(globals, c, xs[1..]).Ok?
    ensures CompileChildren(globals, c, xs).value
         == CompileChildren(globals, c, [xs[0]]).value + CompileChildren(globals, c, xs[1..]).value
  {
    var one := [xs[0]];
    assert one[0] == xs[0] && one[1..] == [];
    var child := Lookup(c.children, xs[0]).value;
    var r := Compile(globals, child).value + Copies(globals, c, xs[0], Groups(c.conns, xs[0])).value;
    assert r + [] == r;
    assert CompileChildren(globals, c, one) == Ok(r);
  }

  lemma CompileChildrenJoin(globals: set<string>, c: Element, x: string, ys: seq<string>)
    requires c.Composite? && CompileChildren(globals, c, [x]).Ok? && CompileChildren(globals, c, ys).Ok?
    ensures CompileChildren(globals, c, [x] + ys)
         == Ok(CompileChildren(globals, c, [x]).value + CompileChildren(globals, c, ys).value)
  {
    var one := [x];
    var xs := [x] + ys;
    assert one[0] == x && one[1..] == [] && xs[0] == x && xs[1..] == ys;
    var child := Lookup(c.children, x).value;
    var r := Compile(globals, child).value + Copies(globals, c, x, Groups(c.conns, x)).value;
    assert r + [] == r;
    assert CompileChildren(globals, c, one) == Ok(r);
  }

  /**
   * Every recorded connection of a compiled child becomes a copy from its
   * `name_pin` global to the far end's global.
   */
  lemma {:induction false} ConnectionCopied(globals: set<string>, c: Element, order: seq<string>, src: string, pin: string, e: End)
    requires c.Composite? && CompileChildren(globals, c, order).Ok?
    requires src in order && src != "." && e in EndsOf(Groups(c.conns, src), pin)
    ensures e.desc == "." || e.desc in ChildNames(c.children)
    ensures CopyCode(GetPin(src, pin), if e.desc == "." then GetPin(c.name, e.pin) else GetPin(e.desc, e.pin))
            in CompileChildren(globals, c, order).value
    decreases |order|
  {
    var code := CompileChildren(globals, c, order).value;
    if order[0] == src {
      var child := Lookup(c.children, src).value;
      var copies := Copies(globals, c, src, Groups(c.conns, src)).value;
      var x := CopyCode(GetPin(src, pin), if e.desc == "." then GetPin(c.name, e.pin) else GetPin(e.desc, e.pin));
      CopiesContain(globals, c, src, Groups(c.conns, src), pin, e);
      assert code == Compile(globals, child).value + copies + CompileChildren(globals, c, order[1..]).value;
    } else {
      ConnectionCopied(globals, c, order[1..], src, pin, e);
    }
  }

  lemma {:induction false} CopiesContain(globals: set<string>, c: Element, src: string, groups: seq<PinGroup>, pin: string, e: End)
    requires c.Composite? && Copies(globals, c, src, groups).Ok?
    requires src != "." && e in EndsOf(groups, pin)
    ensures e.desc == "." || e.desc in ChildNames(c.children)
    ensures CopyCode(GetPin(src, pin), if e.desc == "." then GetPin(c.name, e.pin) else GetPin(e.desc, e.pin))
            in Copies(globals, c, src, groups).value
    decreases |groups|
  {
    var r := Copies(globals, c, src, groups).value;
    var here := CopiesOfPin(globals, c, src, groups[0].pin, groups[0].ends).value;
    assert r == here + Copies(globals, c, src, groups[1..]).value;
    if groups[0].pin == pin {
      var k :| 0 <= k < |groups[0].ends| && groups[0].ends[k] == e;
      assert here[k] in r;
    } else {
      CopiesContain(globals, c, src, groups[1..], pin, e);
    }
  }
}
