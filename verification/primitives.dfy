/**
 * What one tick does to each primitive (the `_translate_*` functions of
 * simulator.py), on values of the storage cells the translator reads.
 * Counter and Adder come in two versions: as the translator computes
 * them, and as the element is meant to behave.
 */
module Primitives {
  import opened Bits
  import opened Netlist

  // ---------------------------------------------------------------- not, clock

  /** `_translate_not`: `out := ~in` on the cell's width. */
  function NotStep(w: Width, input: nat): (out: nat)
    ensures Fits(w, out)
    ensures Fits(w, input) ==> out + input == Mask(w)
  {
    BitNot(w, input)
  }

  /** `_translate_clock`: the clock is an inverter fed from its own output, `out := ~out`. */
  function ClockStep(w: Width, out: nat): (out': nat)
    ensures Fits(w, out')
    ensures Fits(w, out) ==> NotStep(w, out') == out
  {
    NotInvolutive(w, out);
    NotStep(w, out)
  }

  /** A clock returns to its value every second tick: its period is two ticks. */
  lemma ClockPeriodTwo(w: Width, out: nat)
    requires Fits(w, out)
    ensures ClockStep(w, ClockStep(w, out)) == out
    ensures ClockStep(w, out) != out
  {
    NotInvolutive(w, out);
    assert Mask(w) % 2 == 1 by { Pow2Half(w); }
  }

  // ---------------------------------------------------------------- gate

  function Apply(op: GateOp, x: nat, y: nat): nat
  {
    match op
    case And => BitAnd(x, y)
    case Or => BitOr(x, y)
    case Xor => BitXor(x, y)
  }

  /** Left fold of `op` over the input values, starting from the first one. */
  function Fold(op: GateOp, vals: seq<nat>): nat
    requires |vals| >= 1
  {
    if |vals| == 1 then vals[0] else Apply(op, Fold(op, vals[..|vals| - 1]), vals[|vals| - 1])
  }

  /** `_translate_gate`: fold `in0 .. in{n-1}`, then complement iff negated. */
  function GateStep(op: GateOp, w: Width, vals: seq<nat>, negated: bool): (out: nat)
    requires |vals| >= 1
    requires forall i :: 0 <= i < |vals| ==> Fits(w, vals[i])
    ensures Fits(w, out)
  {
    FoldFits(op, w, vals);
    var r := Fold(op, vals);
    if negated then BitNot(w, r) else r
  }

  lemma {:induction false} FoldFits(op: GateOp, w: Width, vals: seq<nat>)
    requires |vals| >= 1
    requires forall i :: 0 <= i < |vals| ==> Fits(w, vals[i])
    ensures Fits(w, Fold(op, vals))
    decreases |vals|
  {
    if |vals| > 1 {
      var front := vals[..|vals| - 1];
      FoldFits(op, w, front);
      var x, y := Fold(op, front), vals[|vals| - 1];
      match op
      case And => AndFits(w, x, y);
      case Or => OrFits(w, x, y);
      case Xor => XorFits(w, x, y);
    }
  }

  /** The parity of bit `k` over the values. */
  function BitCount(vals: seq<nat>, k: nat): nat
  {
    if vals == [] then 0 else BitCount(vals[..|vals| - 1], k) + Bit(vals[|vals| - 1], k)
  }

  /**
   * The fold agrees bit by bit with the gate's truth table: an AND bit is
   * set iff every input's is, an OR bit iff some input's is, an XOR bit iff
   * an odd number of inputs' are.
   */
  lemma FoldBit(op: GateOp, vals: seq<nat>, k: nat)
    requires |vals| >= 1
    ensures op == And ==> (Bit(Fold(op, vals), k) == 1 <==> forall i :: 0 <= i < |vals| ==> Bit(vals[i], k) == 1)
    ensures op == Or ==> (Bit(Fold(op, vals), k) == 1 <==> exists i :: 0 <= i < |vals| && Bit(vals[i], k) == 1)
    ensures op == Xor ==> Bit(Fold(op, vals), k) == BitCount(vals, k) % 2
  {
    match op
    case And => FoldAndBit(vals, k);
    case Or => FoldOrBit(vals, k);
    case Xor => FoldXorBit(vals, k);
  }

  lemma {:induction false} FoldAndBit(vals: seq<nat>, k: nat)
    requires |vals| >= 1
    ensures Bit(Fold(And, vals), k) == 1 <==> forall i :: 0 <= i < |vals| ==> Bit(vals[i], k) == 1
    decreases |vals|
  {
    var last := vals[|vals| - 1];
    var front := vals[..|vals| - 1];
    BitRange(last, k);
    if |vals| == 1 {
      assert front == [];
    } else {
      FoldAndBit(front, k);
      var x := Fold(And, front);
      BitRange(x, k);
      assert forall i :: 0 <= i < |front| ==> front[i] == vals[i];
      AndBit(x, last, k);
    }
  }

  lemma {:induction false} FoldOrBit(vals: seq<nat>, k: nat)
    requires |vals| >= 1
    ensures Bit(Fold(Or, vals), k) == 1 <==> exists i :: 0 <= i < |vals| && Bit(vals[i], k) == 1
    decreases |vals|
  {
    var last := vals[|vals| - 1];
    var front := vals[..|vals| - 1];
    BitRange(last, k);
    if |vals| == 1 {
      assert front == [];
    } else {
      FoldOrBit(front, k);
      var x := Fold(Or, front);
      BitRange(x, k);
      assert forall i :: 0 <= i < |front| ==> front[i] == vals[i];
      OrBit(x, last, k);
      if Bit(x, k) == 1 {
        var i :| 0 <= i < |front| && Bit(front[i], k) == 1;
        assert Bit(vals[i], k) == 1;
      }
    }
  }

  lemma {:induction false} FoldXorBit(vals: seq<nat>, k: nat)
    requires |vals| >= 1
    ensures Bit(Fold(Xor, vals), k) == BitCount(vals, k) % 2
    decreases |vals|
  {
    var last := vals[|vals| - 1];
    var front := vals[..|vals| - 1];
    BitRange(last, k);
    if |vals| == 1 {
      assert front == [];
    } else {
      FoldXorBit(front, k);
      var x := Fold(Xor, front);
      XorBit(x, last, k);
      assert BitCount(vals, k) == BitCount(front, k) + Bit(last, k);
      ParitySum(BitCount(front, k), Bit(last, k));
    }
  }

  /** Only the parity of the first addend matters to the parity of a sum. */
  lemma ParitySum(c: nat, b: nat)
    ensures (c % 2 + b) % 2 == (c + b) % 2
  {
  }

  /**
   * `_translate_gate` bit by bit: below the width, an AND gate's output bit
   * is set iff every input's bit is (inverted when negated), an OR gate's iff
   * some input's is, an XOR gate's iff an odd number are (flipped when
   * negated); at and above the width the output bit is clear.
   */
  lemma GateBit(op: GateOp, w: Width, vals: seq<nat>, negated: bool, k: nat)
    requires |vals| >= 1
    requires forall i :: 0 <= i < |vals| ==> Fits(w, vals[i])
    ensures k >= w ==> Bit(GateStep(op, w, vals, negated), k) == 0
    ensures k < w && op == And ==>
              (Bit(GateStep(op, w, vals, negated), k) == 1 <==> (forall i :: 0 <= i < |vals| ==> Bit(vals[i], k) == 1) != negated)
    ensures k < w && op == Or ==>
              (Bit(GateStep(op, w, vals, negated), k) == 1 <==> (exists i :: 0 <= i < |vals| && Bit(vals[i], k) == 1) != negated)
    ensures k < w && op == Xor ==>
              Bit(GateStep(op, w, vals, negated), k) == (BitCount(vals, k) + if negated then 1 else 0) % 2
  {
    if k >= w {
      FitsBitZero(w, GateStep(op, w, vals, negated), k);
    } else if op == Xor {
      FoldBit(op, vals, k);
      GateStepBit(op, w, vals, negated, k);
      ParityFlip(BitCount(vals, k), negated);
    } else {
      FoldBit(op, vals, k);
      GateStepBit(op, w, vals, negated, k);
    }
  }

  /** Flipping a parity bit is adding one before taking the parity. */
  lemma ParityFlip(c: nat, negated: bool)
    ensures (if negated then 1 - c % 2 else c % 2) == (c + if negated then 1 else 0) % 2
  {
  }

  /** Below the width the gate's bit is the fold's bit, flipped iff negated. */
  lemma GateStepBit(op: GateOp, w: Width, vals: seq<nat>, negated: bool, k: nat)
    requires |vals| >= 1
    requires forall i :: 0 <= i < |vals| ==> Fits(w, vals[i])
    requires k < w
    ensures Bit(Fold(op, vals), k) <= 1
    ensures Bit(GateStep(op, w, vals, negated), k) == if negated then 1 - Bit(Fold(op, vals), k) else Bit(Fold(op, vals), k)
  {
    var r := Fold(op, vals);
    BitRange(r, k);
    if negated {
      assert GateStep(op, w, vals, negated) == BitNot(w, r);
      NotBit(w, r, k);
    } else {
      assert GateStep(op, w, vals, negated) == r;
    }
  }

  // ---------------------------------------------------------------- counter

  /** `v3`: the rising-edge flag `~prevclock & clock`, on the clock cell's width. */
  function Edge(cw: Width, prevclock: nat, clock: nat): nat
  {
    BitAnd(BitNot(cw, prevclock), clock)
  }

  /**
   * `_translate_counter` as written: the edge flag is zero-extended to the
   * counter's width, so `v3 & (out + 1) | ~v3 & out` mixes a 0/1 flag with a
   * whole word.
   */
  function CounterAsWritten(w: Width, edge: nat, out: nat): (out': nat)
    requires Fits(w, edge) && Fits(w, out)
    ensures Fits(w, out')
  {
    Pow2Half(w);
    var inc := Add(w, out, 1);
    AndFits(w, inc, edge);
    AndFits(w, out, BitNot(w, edge));
    OrFits(w, BitAnd(edge, inc), BitAnd(BitNot(w, edge), out));
    BitOr(BitAnd(edge, inc), BitAnd(BitNot(w, edge), out))
  }

  /** As written, a rising edge only flips bit 0 of the counter; otherwise `out` is kept. */
  lemma CounterAsWrittenFlipsBitZero(w: Width, edge: nat, out: nat)
    requires edge <= 1 && Fits(w, out)
    ensures edge == 0 ==> CounterAsWritten(w, edge, out) == out
    ensures edge == 1 ==> CounterAsWritten(w, edge, out) == out - out % 2 + (1 - out % 2)
  {
    Pow2Half(w);
    if edge == 0 {
      CounterKeeps(w, out);
    } else {
      CounterFlips(w, out);
    }
  }

  lemma CounterKeeps(w: Width, out: nat)
    requires Fits(w, out)
    ensures CounterAsWritten(w, 0, out) == out
  {
    assert BitNot(w, 0) == Mask(w);
    AndMask(w, out);
  }

  lemma CounterFlips(w: Width, out: nat)
    requires Fits(w, out)
    ensures CounterAsWritten(w, 1, out) == out - out % 2 + (1 - out % 2)
  {
    Pow2Half(w);
    var inc := Add(w, out, 1);
    var lo := BitAnd(1, inc);
    var hi := BitAnd(BitNot(w, 1), out);
    assert CounterAsWritten(w, 1, out) == BitOr(lo, hi);
    assert lo == (out + 1) % 2 by {
      AndComm(1, inc);
      AndOne(inc);
      if out + 1 == Pow2(w) {
        assert inc == 0;
      }
    }
    assert hi == out - out % 2 by {
      assert BitNot(w, 1) == Mask(w) - 1;
      AndMaskButOne(w, out);
    }
    OrLowBit(lo, (out - out % 2) / 2);
  }

  /**
   * The counter as intended: the edge flag sign-extended to the counter's
   * width (all ones on an edge), so `v3 & (out + 1) | ~v3 & out` selects
   * between the incremented and the kept value.
   */
  function CounterIntended(w: Width, edge: nat, out: nat): (out': nat)
    requires edge <= 1 && Fits(w, out)
    ensures edge == 1 ==> out' == (out + 1) % Pow2(w)
    ensures edge == 0 ==> out' == out
  {
    Pow2Half(w);
    ModBelow(1, Pow2(w));
    var v3 := if edge == 1 then Mask(w) else 0;
    var inc := Add(w, out, 1);
    assert BitNot(w, v3) == Mask(w) - v3;
    AndMask(w, inc);
    AndMask(w, out);
    assert BitAnd(0, inc) == 0 && BitAnd(0, out) == 0;
    assert BitOr(0, out) == out;
    assert BitOr(inc, 0) == inc;
    BitOr(BitAnd(v3, inc), BitAnd(BitNot(w, v3), out))
  }

  // ---------------------------------------------------------------- adder

  /** A `w`-bit word read as two's complement. */
  function Signed(w: Width, x: nat): int
  {
    if x < Pow2(w - 1) then x else x - Pow2(w)
  }

  /** The overflow flag of LLVM's `sadd.with.overflow`: the signed sum leaves the signed range. */
  predicate SignedOverflow(w: Width, x: nat, y: nat)
  {
    var s := Signed(w, x) + Signed(w, y);
    s + Pow2(w - 1) < 0 || s >= Pow2(w - 1)
  }

  /** The overflow flag of LLVM's `uadd.with.overflow`: the sum needs a `w + 1`-th bit. */
  predicate UnsignedOverflow(w: Width, x: nat, y: nat)
  {
    x + y >= Pow2(w)
  }

  /** LLVM `add` on two `w`-bit words: the sum modulo 2^w. */
  function Add(w: Width, x: nat, y: nat): (r: nat)
    requires Fits(w, x) && Fits(w, y)
    ensures Fits(w, r)
    ensures r == (x + y) % Pow2(w)
    ensures UnsignedOverflow(w, x, y) ==> r + Pow2(w) == x + y
    ensures !UnsignedOverflow(w, x, y) ==> r == x + y
  {
    var p := Pow2(w);
    if x + y < p then
      ModBelow(x + y, p);
      x + y
    else
      ModOnce(x + y, p);
      x + y - p
  }

  datatype AdderOut = AdderOut(sum: nat, cout: nat)

  /**
   * `_translate_adder` as written: two `sadd.with.overflow` steps (`a + b`,
   * then `+ zext(cin)`); `cout` is the OR of their signed-overflow flags.
   */
  function AdderAsWritten(w: Width, a: nat, b: nat, cin: nat): (r: AdderOut)
    requires Fits(w, a) && Fits(w, b) && Fits(w, cin)
    ensures Fits(w, r.sum) && r.cout <= 1
    ensures cin <= 1 ==> r.sum == AdderIntended(w, a, b, cin).sum
    ensures r.cout == 1 <==> SignedOverflow(w, a, b) || SignedOverflow(w, Add(w, a, b), cin)
  {
    var s1 := Add(w, a, b);
    var s2 := Add(w, s1, cin);
    AdderOut(s2, if SignedOverflow(w, a, b) || SignedOverflow(w, s1, cin) then 1 else 0)
  }

  /**
   * The adder as intended: the same two additions, with the unsigned carry
   * (`uadd.with.overflow`) of each, so `cout` is the carry out of the sum.
   */
  function AdderIntended(w: Width, a: nat, b: nat, cin: nat): (r: AdderOut)
    requires Fits(w, a) && Fits(w, b) && Fits(w, cin)
    ensures Fits(w, r.sum) && r.cout <= 1
    ensures cin <= 1 ==> r.sum + r.cout * Pow2(w) == a + b + cin
  {
    var s1 := Add(w, a, b);
    var s2 := Add(w, s1, cin);
    AdderOut(s2, if UnsignedOverflow(w, a, b) || UnsignedOverflow(w, s1, cin) then 1 else 0)
  }

  /** Without signed overflow, `add` is exact on the two's complement readings. */
  lemma SignedAddExact(w: Width, x: nat, y: nat)
    requires Fits(w, x) && Fits(w, y) && !SignedOverflow(w, x, y)
    ensures Signed(w, Add(w, x, y)) == Signed(w, x) + Signed(w, y)
  {
    Pow2Half(w);
  }

  /**
   * What the as-written `cout` does promise: when it is clear, the sum read
   * as two's complement is the exact signed sum of `a`, `b` and `cin`. It is
   * the overflow flag of a signed adder, not the carry of an unsigned one.
   */
  lemma AdderAsWrittenSigned(w: Width, a: nat, b: nat, cin: nat)
    requires Fits(w, a) && Fits(w, b) && Fits(w, cin)
    ensures AdderAsWritten(w, a, b, cin).cout == 0 ==>
              Signed(w, AdderAsWritten(w, a, b, cin).sum) == Signed(w, a) + Signed(w, b) + Signed(w, cin)
  {
    if AdderAsWritten(w, a, b, cin).cout == 0 {
      SignedAddExact(w, a, b);
      SignedAddExact(w, Add(w, a, b), cin);
    }
  }

  /** 255 + 1 on 8 bits: the carry is lost as written, since -1 + 1 is no signed overflow. */
  lemma AdderCarryLost()
    ensures AdderAsWritten(8, 255, 1, 0) == AdderOut(0, 0)
    ensures AdderIntended(8, 255, 1, 0) == AdderOut(0, 1)
  {
    assert Pow2(8) == 256 && Pow2(7) == 128;
  }
}
