/**
 * Tracing pins back through pure wiring (`_map_to_sources` in simulator.py):
 * every pin that is the destination of a wire aliases the storage cell at
 * the far end of the wire chain feeding it.
 */
module Trace {
  import opened Common
  import opened Schedule

  /** Destination pin to source pin, one entry per wire. */
  type ConnMap = map<string, string>

  /** `conns[dest] = src` for each wire in order: a later wire into the same pin replaces an earlier one. */
  function ConnMapOf(ws: seq<Wire>): (r: ConnMap)
    ensures forall d :: d in r <==> exists w :: w in ws && w.dst == d
    decreases |ws|
  {
    if ws == [] then map[]
    else
      var last := ws[|ws| - 1];
      assert forall w :: w in ws <==> w in ws[..|ws| - 1] || w == last;
      ConnMapOf(ws[..|ws| - 1])[last.dst := last.src]
  }

  /** The wire that counts for a destination is the last one listed into it. */
  lemma {:induction false} ConnMapLastWins(ws: seq<Wire>, i: nat)
    requires i < |ws| && forall j :: i < j < |ws| ==> ws[j].dst != ws[i].dst
    ensures ws[i].dst in ConnMapOf(ws) && ConnMapOf(ws)[ws[i].dst] == ws[i].src
    decreases |ws|
  {
    if i < |ws| - 1 {
      var front := ws[..|ws| - 1];
      assert forall j :: i < j < |front| ==> front[j] == ws[j];
      ConnMapLastWins(front, i);
    }
  }

  /** One turn of the tracing loop: step from a destination to its source; a non-destination stays put. */
  function Hop(conns: ConnMap, p: string): string
  {
    if p in conns then conns[p] else p
  }

  /** The pin the tracing loop holds after `k` turns. */
  function Chain(conns: ConnMap, p: string, k: nat): string
  {
    if k == 0 then p else Hop(conns, Chain(conns, p, k - 1))
  }

  /**
   * The `while curr in conns` loop, allowed `fuel` turns: `Some(end)` when it
   * leaves the wiring, `None` when the turns run out first.
   */
  function Chase(conns: ConnMap, p: string, fuel: nat): (r: Option<string>)
    decreases fuel
    ensures r.Some? ==> r.value !in conns
    ensures r.Some? ==> exists k :: 0 <= k <= fuel && Chain(conns, p, k) == r.value
                                 && forall j :: 0 <= j < k ==> Chain(conns, p, j) in conns
    ensures r.None? ==> forall j :: 0 <= j <= fuel ==> Chain(conns, p, j) in conns
  {
    if p !in conns then
      assert Chain(conns, p, 0) == p;
      Some(p)
    else if fuel == 0 then
      None
    else
      var r := Chase(conns, conns[p], fuel - 1);
      ChainShift(conns, p, fuel);
      if r.Some? then
        var k :| 0 <= k <= fuel - 1 && Chain(conns, conns[p], k) == r.value
                 && forall j :: 0 <= j < k ==> Chain(conns, conns[p], j) in conns;
        assert Chain(conns, p, k + 1) == r.value;
        assert forall j :: 1 <= j < k + 1 ==> Chain(conns, p, j) == Chain(conns, conns[p], j - 1);
        r
      else
        r
  }

  /** Starting one hop further is the same chain, shifted by one turn. */
  lemma {:induction false} ChainShift(conns: ConnMap, p: string, n: nat)
    requires p in conns
    ensures forall j :: 1 <= j <= n ==> Chain(conns, p, j) == Chain(conns, conns[p], j - 1)
  {
    if n > 0 {
      ChainShift(conns, p, n - 1);
      assert Chain(conns, p, n) == Hop(conns, Chain(conns, p, n - 1));
      if n > 1 {
        assert Chain(conns, conns[p], n - 1) == Hop(conns, Chain(conns, conns[p], n - 2));
      }
    }
  }

  /** `_trace_pin`: `None` for a pin no wire drives, else the end of its chain; `Diverges` on a wire-only cycle. */
  datatype Traced = Undriven | Source(path: string) | Diverges

  function TracePin(conns: ConnMap, p: string): (r: Traced)
    ensures r.Undriven? <==> p !in conns
    ensures r.Source? ==> r.path !in conns
    ensures r.Source? ==> exists k :: k >= 1 && Chain(conns, p, k) == r.path
                            && forall j :: 0 <= j < k ==> Chain(conns, p, j) in conns
  {
    if p !in conns then Undriven
    else match Chase(conns, p, |conns|)
      case Some(e) => Source(e)
      case None => Diverges
  }

  // ---------------------------------------------------------------- divergence

  /** The source's loop never stops: every pin along the chain is again a destination. */
  ghost predicate LoopsForever(conns: ConnMap, p: string)
  {
    forall k: nat :: Chain(conns, p, k) in conns
  }

  lemma ChainAdd(conns: ConnMap, p: string, i: nat, j: nat)
    ensures Chain(conns, Chain(conns, p, i), j) == Chain(conns, p, i + j)
    decreases j
  {
    if j > 0 {
      ChainAdd(conns, p, i, j - 1);
    }
  }

  /** A repeated pin makes the chain periodic, so it stays inside the wiring for good. */
  lemma {:induction false} RepeatLoops(conns: ConnMap, p: string, i: nat, j: nat)
    requires i < j && Chain(conns, p, i) == Chain(conns, p, j)
    requires forall k :: 0 <= k <= j ==> Chain(conns, p, k) in conns
    ensures LoopsForever(conns, p)
  {
    forall k: nat ensures Chain(conns, p, k) in conns {
      Periodic(conns, p, i, j, k);
    }
  }

  lemma {:induction false} Periodic(conns: ConnMap, p: string, i: nat, j: nat, k: nat)
    requires i < j && Chain(conns, p, i) == Chain(conns, p, j)
    requires forall m :: 0 <= m <= j ==> Chain(conns, p, m) in conns
    ensures Chain(conns, p, k) in conns
    decreases k
  {
    if k > j {
      var d := j - i;
      ChainAdd(conns, p, j, k - j);
      ChainAdd(conns, p, i, k - j);
      assert Chain(conns, p, k) == Chain(conns, p, k - d);
      Periodic(conns, p, i, j, k - d);
    }
  }

  /** `|S| + 1` values drawn from a set `S` repeat one. */
  lemma {:induction false} Pigeonhole(f: seq<string>, S: set<string>)
    requires |f| > |S| && forall k :: 0 <= k < |f| ==> f[k] in S
    ensures exists i, j :: 0 <= i < j < |f| && f[i] == f[j]
    decreases |S|
  {
    var x := f[|f| - 1];
    var front := f[..|f| - 1];
    if x in front {
      var i :| 0 <= i < |front| && front[i] == x;
      assert f[i] == f[|f| - 1];
    } else {
      forall k | 0 <= k < |front| ensures front[k] in S - {x} {
        assert front[k] == f[k];
      }
      Pigeonhole(front, S - {x});
      var i, j :| 0 <= i < j < |front| && front[i] == front[j];
      assert f[i] == f[j];
    }
  }

  /**
   * The fuel `|conns|` is exactly enough: tracing reports divergence if and
   * only if the source's tracing loop would run forever on that pin.
   */
  lemma ChaseDivergesIffLoopsForever(conns: ConnMap, p: string)
    ensures TracePin(conns, p).Diverges? <==> LoopsForever(conns, p)
  {
    if TracePin(conns, p).Diverges? {
      var f := seq(|conns| + 1, k requires 0 <= k <= |conns| => Chain(conns, p, k));
      assert forall k :: 0 <= k < |f| ==> f[k] == Chain(conns, p, k);
      Pigeonhole(f, conns.Keys);
      var i, j :| 0 <= i < j < |f| && f[i] == f[j];
      RepeatLoops(conns, p, i, j);
    }
    if LoopsForever(conns, p) {
      assert Chain(conns, p, 0) in conns;
    }
  }

  // ---------------------------------------------------------------- the pin map

  /** `_map_to_sources`: the trace of every enumerated pin, failing at the first pin that diverges. */
  function MapToSources(conns: ConnMap, pins: seq<string>): (r: Result<map<string, Option<string>>, string>)
    ensures r.Ok? ==> forall p :: p in r.value <==> p in pins
    ensures r.Ok? ==> forall p :: p in r.value ==> (r.value[p].None? <==> TracePin(conns, p).Undriven?)
    ensures r.Ok? ==> forall p :: p in r.value && r.value[p].Some? ==> TracePin(conns, p) == Source(r.value[p].value)
    ensures r.Err? <==> exists p :: p in pins && TracePin(conns, p).Diverges?
    ensures r.Err? ==> r.error in pins && TracePin(conns, r.error).Diverges?
  {
    if pins == [] then Ok(map[])
    else
      var t := TracePin(conns, pins[0]);
      if t.Diverges? then Err(pins[0])
      else
        match MapToSources(conns, pins[1..])
        case Err(e) => Err(e)
        case Ok(m) => Ok(m[pins[0] := if t.Undriven? then None else Some(t.path)])
  }
}
