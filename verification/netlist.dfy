/**
 * The descriptor data model the simulator consumes: primitive elements with
 * named, width-typed pins, and schematics (composites) holding named children
 * and pin-to-pin connections.
 */
module Netlist {
  import opened Common
  import opened Bits

  datatype GateOp = And | Or | Xor

  /** Direction of an exposed pin, seen from the composite that contains it. */
  datatype Direction = In | Out

  datatype Desc =
    | Not(width: Width)
    | Gate(op: GateOp, width: Width, numInputs: nat, negated: bool)
    | Register(width: Width)
    | Counter(width: Width)
    | Clock
    | Adder(width: Width)
    | Constant(width: Width, value: nat)
    | ExposedPin(direction: Direction, width: Width)
    | Schematic(children: seq<Child>, connections: seq<Conn>)

  datatype Child = Child(name: string, desc: Desc)

  /** A value flow from `srcChild`'s pin `srcPin` to `dstChild`'s pin `dstPin`. */
  datatype Conn = Conn(srcChild: string, srcPin: string, dstChild: string, dstPin: string)

  datatype Pin = Pin(name: string, width: Width)

  const SEP: char := '/'

  /** The decimal digit character for `d`. */
  function Digit(d: nat): (c: char)
    requires d < 10
    ensures '0' <= c <= '9'
  {
    ('0' as int + d) as char
  }

  /** Python's `str(n)` for a natural number. */
  function DecimalString(n: nat): (s: string)
    ensures |s| >= 1
    ensures forall i :: 0 <= i < |s| ==> '0' <= s[i] <= '9'
  {
    if n < 10 then [Digit(n)] else DecimalString(n / 10) + [Digit(n % 10)]
  }

  /** The name of a gate's `i`-th input pin: `in0`, `in1`, ... */
  function GateInputName(i: nat): string
  {
    "in" + DecimalString(i)
  }

  /** Distinct numbers have distinct decimal strings. */
  lemma {:induction false} DecimalInjective(n: nat, m: nat)
    requires DecimalString(n) == DecimalString(m)
    ensures n == m
    decreases n
  {
    var s := DecimalString(n);
    if n >= 10 && m >= 10 {
      assert s[|s| - 1] == Digit(n % 10) && s[|s| - 1] == Digit(m % 10);
      assert DecimalString(n / 10) == s[..|s| - 1] == DecimalString(m / 10);
      DecimalInjective(n / 10, m / 10);
    } else if n < 10 && m < 10 {
      assert Digit(n) == Digit(m);
    }
  }

  /** The pins `in0 .. in{n-1}` of a gate with `n` inputs, all at the gate's width. */
  function GateInputs(width: Width, n: nat): (pins: seq<Pin>)
    ensures |pins| == n
    ensures forall i :: 0 <= i < n ==> pins[i] == Pin(GateInputName(i), width)
  {
    seq(n, i requires 0 <= i < n => Pin(GateInputName(i), width))
  }

  /**
   * A gate's input pins have pairwise distinct names, so each input is a
   * pin of its own: `in3` is never also `in12`'s name, say.
   */
  lemma GateInputsDistinct(width: Width, n: nat, i: nat, j: nat)
    requires i < n && j < n && i != j
    ensures GateInputs(width, n)[i].name != GateInputs(width, n)[j].name
  {
    if GateInputName(i) == GateInputName(j) {
      var a, b := DecimalString(i), DecimalString(j);
      assert a == GateInputName(i)[2..] && b == GateInputName(j)[2..];
      DecimalInjective(i, j);
    }
  }

  /** Input pins of a primitive, in declaration order. */
  function Inputs(d: Desc): seq<Pin>
  {
    match d
    case Not(w) => [Pin("in", w)]
    case Gate(_, w, n, _) => GateInputs(w, n)
    case Register(w) => [Pin("clock", 1), Pin("data", w)]
    case Counter(w) => [Pin("clock", 1)]
    case Clock => []
    case Adder(w) => [Pin("a", w), Pin("b", w), Pin("cin", 1)]
    case Constant(_, _) => []
    case ExposedPin(dir, w) => if dir == Out then [Pin("pin", w)] else []
    case Schematic(_, _) => []
  }

  /** Output pins of a primitive, in declaration order. */
  function Outputs(d: Desc): seq<Pin>
  {
    match d
    case Not(w) => [Pin("out", w)]
    case Gate(_, w, _, _) => [Pin("out", w)]
    case Register(w) => [Pin("out", w)]
    case Counter(w) => [Pin("out", w)]
    case Clock => [Pin("out", 1)]
    case Adder(w) => [Pin("sum", w), Pin("cout", 1)]
    case Constant(w, _) => [Pin("out", w)]
    case ExposedPin(dir, w) => if dir == In then [Pin("pin", w)] else []
    case Schematic(_, _) => []
  }

  /** Hidden pins that persist between ticks. */
  function Internals(d: Desc): seq<Pin>
  {
    match d
    case Register(_) => [Pin("prevclock", 1)]
    case Counter(_) => [Pin("prevclock", 1)]
    case _ => []
  }

  function Names(cs: seq<Child>): (ns: seq<string>)
    ensures |ns| == |cs|
    ensures forall i :: 0 <= i < |cs| ==> ns[i] == cs[i].name
  {
    seq(|cs|, i requires 0 <= i < |cs| => cs[i].name)
  }

  /** Position of the child called `name`. */
  function IndexOf(cs: seq<Child>, name: string): (i: nat)
    requires name in Names(cs)
    ensures i < |cs| && cs[i].name == name
    ensures forall j :: 0 <= j < i ==> cs[j].name != name
  {
    if cs[0].name == name then 0 else 1 + IndexOf(cs[1..], name)
  }

  /**
   * Python's `s.split('/')[0]`: the longest prefix of `s` without a
   * separator. A connection endpoint `sub/x` names the child `sub`.
   */
  function FirstSegment(s: string): (r: string)
    ensures r <= s && SEP !in r
    ensures |r| < |s| ==> s[|r|] == SEP
    ensures SEP !in s ==> r == s
  {
    if s == [] then []
    else if s[0] == SEP then []
    else [s[0]] + FirstSegment(s[1..])
  }

  /** The first segment of `a/b` is `a`, whatever follows the separator. */
  lemma {:induction false} FirstSegmentSplit(a: string, b: string)
    requires SEP !in a
    ensures FirstSegment(a + [SEP] + b) == a
  {
    if a != [] {
      assert (a + [SEP] + b)[1..] == a[1..] + [SEP] + b;
      FirstSegmentSplit(a[1..], b);
    }
  }

  /**
   * A schematic as the simulator expects it: child names are unique (they are
   * the keys of a dictionary), every connection endpoint starts with the name
   * of an existing child (an endpoint `sub/x` reaches into the composite child
   * `sub`), and nested schematics are well formed too.
   */
  predicate WellFormed(d: Desc)
    decreases d
  {
    match d
    case Schematic(cs, conns) =>
      && Distinct(Names(cs))
      && (forall c :: c in conns ==> FirstSegment(c.srcChild) in Names(cs) && FirstSegment(c.dstChild) in Names(cs))
      && (forall i :: 0 <= i < |cs| ==> WellFormed(cs[i].desc))
    case _ => true
  }
}
