/**
  Virtual pins, transformers and splitters of src/GpioLogic.cpp and src/GpioLogic.h: a change of one
  pin cascades through the transformer that depends on it. The cascade is proved equal to
  evaluating the whole network from scratch.

  Pins are numbered; the first `virtuals` are virtual pins, the rest are hardware pins. A hardware
  pin's state is the last level written to it.
*/
module GpioLogic {

  datatype PinState = On | Off | Unset

  /** Where a transformer writes: one pin, or a splitter onto two outputs. */
  datatype Output = Single(pin: nat) | Split(out1: Output, out2: Output)

  datatype Operation = And | Or | Xor

  datatype Transformer =
    | Unary(inPin: nat, out: Output)
    | Not(inPin: nat, out: Output)
    | Binary(inPin1: nat, inPin2: nat, out: Output, operation: Operation)

  /** The wiring, with a rank that every transformer increases from its inputs to its outputs. */
  datatype Net = Net(size: nat, virtuals: nat, ts: seq<Transformer>, rank: seq<nat>)

  function Pins(o: Output): set<nat> {
    match o
    case Single(p) => {p}
    case Split(a, b) => Pins(a) + Pins(b)
  }

  /** A splitter writes to whatever either of its outputs writes to. */
  predicate WritesTo(o: Output, pin: nat) {
    match o
    case Single(p) => p == pin
    case Split(a, b) => WritesTo(a, pin) || WritesTo(b, pin)
  }

  lemma {:induction false} PinsAreWritten(o: Output, pin: nat)
    ensures pin in Pins(o) <==> WritesTo(o, pin)
    decreases o
  {
    match o
    case Single(_) =>
    case Split(a, b) => PinsAreWritten(a, pin); PinsAreWritten(b, pin);
  }

  function Inputs(t: Transformer): set<nat> {
    match t
    case Unary(i, _) => {i}
    case Not(i, _) => {i}
    case Binary(i, j, _, _) => {i, j}
  }

  predicate InputsBelow(t: Transformer, n: nat) {
    match t
    case Unary(i, _) => i < n
    case Not(i, _) => i < n
    case Binary(i, j, _, _) => i < n && j < n
  }

  /** Well wired: inputs are distinct virtual pins with one dependent each (what the constructors
      assert), every pin has one driver, and there are no cycles. */
  ghost predicate Wired(net: Net) {
    && net.virtuals <= net.size && |net.rank| == net.size
    && (forall t :: 0 <= t < |net.ts| ==> net.ts[t].Binary? ==> net.ts[t].inPin1 != net.ts[t].inPin2)
    && (forall t :: 0 <= t < |net.ts| ==> InputsBelow(net.ts[t], net.virtuals))
    && (forall t, o :: 0 <= t < |net.ts| && o in Pins(net.ts[t].out) ==> o < net.size)
    && (forall t, i, o :: 0 <= t < |net.ts| && i in Inputs(net.ts[t]) && o in Pins(net.ts[t].out) ==>
          net.rank[i] < net.rank[o])
    && (forall t, u, i :: 0 <= t < |net.ts| && 0 <= u < |net.ts| && i in Inputs(net.ts[t]) && i in Inputs(net.ts[u]) ==> t == u)
    && (forall t, u, o :: 0 <= t < |net.ts| && 0 <= u < |net.ts| && o in Pins(net.ts[t].out) && o in Pins(net.ts[u].out) ==> t == u)
  }

  ghost predicate Drives(net: Net, t: nat, pin: nat) {
    t < |net.ts| && pin in Pins(net.ts[t].out)
  }

  ghost predicate Driven(net: Net, pin: nat) {
    exists t: nat :: Drives(net, t, pin)
  }

  // ---------------------------------------------------------------- what a transformer computes

  function Level(b: bool): PinState { if b then On else Off }

  /** The C truth value of a pin state: only Off is zero. */
  predicate Truth(p: PinState) { p != Off }

  /** `GpioBinaryTransformer::update`: an unset input is replaced by the other one. */
  function BinaryValue(op: Operation, p1: PinState, p2: PinState): PinState {
    var newValue := if p1 == Unset then p2 else if p2 == Unset then p1 else Unset;
    if newValue != Unset then newValue
    else match op
         case And => Level(Truth(p1) && Truth(p2))
         case Or => Level(Truth(p1) || Truth(p2))
         case Xor => Level(p1 != p2)
  }

  function Invert(p: PinState): PinState { if p == On then Off else if p == Off then On else Unset }

  /** The level a transformer gives its outputs; nothing while all its inputs are unset. */
  function Computed(t: Transformer, vals: seq<PinState>): PinState
    requires InputsBelow(t, |vals|)
  {
    match t
    case Unary(i, _) => vals[i]
    case Not(i, _) => Invert(vals[i])
    case Binary(i, j, _, op) =>
      if vals[i] == Unset && vals[j] == Unset then Unset else BinaryValue(op, vals[i], vals[j])
  }

  /** What a transformer promises of an output pin, in levels: a plain one repeats its input and a NOT
      reverses it; of a gate with both inputs set, AND is on when both are, OR when one is, XOR when
      exactly one is; with one input set, the output is that one; with none, it is unset. */
  ghost predicate Obeys(t: Transformer, vals: seq<PinState>, o: nat)
    requires InputsBelow(t, |vals|) && o < |vals|
  {
    match t
    case Unary(i, _) => (vals[o].On? <==> vals[i].On?) && (vals[o].Off? <==> vals[i].Off?)
    case Not(i, _) => (vals[o].On? <==> vals[i].Off?) && (vals[o].Off? <==> vals[i].On?)
    case Binary(i, j, _, op) =>
      if vals[i].Unset? then vals[o] == vals[j]
      else if vals[j].Unset? then vals[o] == vals[i]
      else
        && !vals[o].Unset?
        && (op.And? ==> (vals[o].On? <==> vals[i].On? && vals[j].On?))
        && (op.Or? ==> (vals[o].On? <==> vals[i].On? || vals[j].On?))
        && (op.Xor? ==> (vals[o].On? <==> vals[i].On? != vals[j].On?))
  }

  lemma ComputedObeys(t: Transformer, vals: seq<PinState>, o: nat)
    requires InputsBelow(t, |vals|) && o < |vals|
    ensures vals[o] == Computed(t, vals) <==> Obeys(t, vals, o)
  {
  }

  /** Every driven pin outside `pending` shows what its transformer computes. */
  ghost predicate ConsistentExcept(net: Net, vals: seq<PinState>, pending: set<nat>)
    requires Wired(net) && |vals| == net.size
  {
    forall t: nat, o: nat :: Drives(net, t, o) && o !in pending ==> vals[o] == Computed(net.ts[t], vals)
  }

  /** A consistent network obeys its transformers. */
  lemma ConsistentObeys(net: Net, vals: seq<PinState>, t: nat, pending: set<nat>)
    requires Wired(net) && |vals| == net.size && t < |net.ts| && ConsistentExcept(net, vals, pending)
    ensures forall o :: o in Pins(net.ts[t].out) && o !in pending ==> Obeys(net.ts[t], vals, o)
  {
    forall o | o in Pins(net.ts[t].out) && o !in pending ensures Obeys(net.ts[t], vals, o) {
      assert Drives(net, t, o);
      ComputedObeys(net.ts[t], vals, o);
    }
  }

  // ---------------------------------------------------------------- evaluation from scratch

  /** The value of a pin from the levels of the undriven pins alone. */
  ghost function Eval(net: Net, leaf: seq<PinState>, pin: nat): PinState
    requires Wired(net) && |leaf| == net.size && pin < net.size
    decreases net.rank[pin], 1
  {
    if t: nat :| Drives(net, t, pin) then EvalTransformer(net, leaf, t, pin) else leaf[pin]
  }

  ghost function EvalTransformer(net: Net, leaf: seq<PinState>, t: nat, pin: nat): PinState
    requires Wired(net) && |leaf| == net.size && pin < net.size && Drives(net, t, pin)
    decreases net.rank[pin], 0
  {
    assert forall i :: i in Inputs(net.ts[t]) ==> net.rank[i] < net.rank[pin];
    match net.ts[t]
    case Unary(i, _) => Eval(net, leaf, i)
    case Not(i, _) => Invert(Eval(net, leaf, i))
    case Binary(i, j, _, op) =>
      var p1, p2 := Eval(net, leaf, i), Eval(net, leaf, j);
      if p1 == Unset && p2 == Unset then Unset else BinaryValue(op, p1, p2)
  }

  lemma EvalDriven(net: Net, leaf: seq<PinState>, t: nat, pin: nat)
    requires Wired(net) && |leaf| == net.size && pin < net.size && Drives(net, t, pin)
    ensures Eval(net, leaf, pin) == EvalTransformer(net, leaf, t, pin)
  {
  }

  /** A consistent network shows, on every pin, the evaluation of its undriven pins. */
  lemma {:induction false} ConsistentIsEvaluated(net: Net, vals: seq<PinState>, leaf: seq<PinState>, pin: nat)
    requires Wired(net) && |vals| == |leaf| == net.size && pin < net.size
    requires ConsistentExcept(net, vals, {})
    requires forall p :: 0 <= p < net.size && !Driven(net, p) ==> vals[p] == leaf[p]
    ensures vals[pin] == Eval(net, leaf, pin)
    decreases net.rank[pin]
  {
    if Driven(net, pin) {
      var t: nat :| Drives(net, t, pin);
      EvalDriven(net, leaf, t, pin);
      forall i | i in Inputs(net.ts[t]) ensures i < net.size && vals[i] == Eval(net, leaf, i) {
        assert net.rank[i] < net.rank[pin];
        ConsistentIsEvaluated(net, vals, leaf, i);
      }
    }
  }

  // ---------------------------------------------------------------- one write

  /** The transformer's computation reads only its inputs. */
  lemma ComputedDepends(t: Transformer, vals: seq<PinState>, vals': seq<PinState>)
    requires |vals| == |vals'| && InputsBelow(t, |vals|)
    requires forall i :: i in Inputs(t) ==> vals'[i] == vals[i]
    ensures Computed(t, vals') == Computed(t, vals)
  {
  }

  lemma SetInputGivesLevel(t: Transformer, vals: seq<PinState>, pin: nat)
    requires InputsBelow(t, |vals|) && pin in Inputs(t) && vals[pin] != Unset
    ensures Computed(t, vals) != Unset
  {
  }

  /** Pins up to rank `r`, and undriven ones, stay as they were. */
  ghost predicate Preserves(net: Net, vals: seq<PinState>, vals': seq<PinState>, r: nat)
    requires |net.rank| == net.size
  {
    && |vals| == |vals'| == net.size
    && (forall p :: 0 <= p < net.size && net.rank[p] <= r ==> vals'[p] == vals[p])
    && (forall p :: 0 <= p < net.size && !Driven(net, p) ==> vals'[p] == vals[p])
  }

  /** Writing the right level to a pin leaves only the outputs of its dependent to be brought up to
      date. */
  lemma WriteKeepsRest(net: Net, vals: seq<PinState>, pin: nat, level: PinState, pending: set<nat>, down: set<nat>)
    requires Wired(net) && |vals| == net.size && pin < net.size
    requires ConsistentExcept(net, vals, pending + {pin})
    requires forall t: nat :: Drives(net, t, pin) ==> level == Computed(net.ts[t], vals)
    requires forall t, o :: 0 <= t < |net.ts| && pin in Inputs(net.ts[t]) && o in Pins(net.ts[t].out) ==> o in down
    ensures ConsistentExcept(net, vals[pin := level], pending + down)
  {
    var vals' := vals[pin := level];
    forall t: nat, o: nat | Drives(net, t, o) && o !in pending + down ensures vals'[o] == Computed(net.ts[t], vals') {
      assert pin !in Inputs(net.ts[t]);
      ComputedDepends(net.ts[t], vals, vals');
    }
  }

  // ---------------------------------------------------------------- the code

  class Network {
    const net: Net
    const values: array<PinState>
    /** For each virtual pin its dependent transformer, or |net.ts| for none. */
    var dependentPin: seq<nat>

    ghost predicate Valid()
      reads this
    {
      && Wired(net) && values.Length == net.size && |dependentPin| == net.virtuals
      && forall p, t :: 0 <= p < net.virtuals && 0 <= t < |net.ts| ==> (dependentPin[p] == t <==> p in Inputs(net.ts[t]))
    }

    /** All pins unset, and the transformers constructed one after the other. */
    constructor (n: Net)
      requires Wired(n)
      ensures Valid() && net == n && fresh(values)
      ensures values[..] == seq(n.size, _ => Unset) && ConsistentExcept(net, values[..], {})
    {
      net := n;
      values := new PinState[n.size](_ => Unset);
      dependentPin := seq(n.virtuals, _ => |n.ts|);
      new;
      var t := 0;
      while t < |net.ts|
        invariant 0 <= t <= |net.ts| && |dependentPin| == net.virtuals && net == n
        invariant values.Length == n.size && fresh(values) && values[..] == seq(n.size, _ => Unset)
        invariant forall p, u :: 0 <= p < net.virtuals && 0 <= u < t ==> (dependentPin[p] == u <==> p in Inputs(net.ts[u]))
        invariant forall p :: 0 <= p < net.virtuals ==> dependentPin[p] < t || dependentPin[p] == |net.ts|
        decreases |net.ts| - t
      {
        match net.ts[t] {
          case Unary(i, _) =>
            dependentPin := dependentPin[i := t];
          case Not(i, _) =>
            dependentPin := dependentPin[i := t];
          case Binary(i, j, _, _) =>
            dependentPin := dependentPin[i := t];
            dependentPin := dependentPin[j := t];
        }
        t := t + 1;
      }
      assert forall p, u :: 0 <= p < net.virtuals && 0 <= u < |net.ts| ==> (dependentPin[p] == u <==> p in Inputs(net.ts[u]));
    }

    /** `GpioVirtPin::set`, or for a hardware pin `GpioHwPin::set`. */
    method SetPin(pin: nat, value: bool, ghost pending: set<nat>)
      requires Valid() && pin < net.size && ConsistentExcept(net, values[..], pending + {pin})
      requires forall t: nat :: Drives(net, t, pin) ==> Level(value) == Computed(net.ts[t], values[..])
      modifies values
      ensures values[pin] == Level(value) && ConsistentExcept(net, values[..], pending)
      ensures Preserves(net, old(values[..])[pin := Level(value)], values[..], net.rank[pin])
      decreases RankBound(net) - net.rank[pin], 2
    {
      RankBounded(net, pin);
      ghost var before := values[..];
      if pin >= net.virtuals {
        values[pin] := Level(value);
        WriteKeepsRest(net, before, pin, Level(value), pending, {});
        assert values[..] == before[pin := Level(value)];
      } else if values[pin] != Level(value) {
        values[pin] := Level(value);
        assert values[..] == before[pin := Level(value)];
        var t := dependentPin[pin];
        if t < |net.ts| {
          WriteKeepsRest(net, before, pin, Level(value), pending, Pins(net.ts[t].out));
          SetInputGivesLevel(net.ts[t], values[..], pin);
          InputRankBounds(net, t);
          Update(t, InputRank(net, t), pending);
        } else {
          WriteKeepsRest(net, before, pin, Level(value), pending, {});
        }
      } else {
        assert values[..] == before[pin := Level(value)];
      }
    }

    /** `update` of each kind of transformer; a binary one is only reached from an input just set. */
    method Update(t: nat, ghost r: nat, ghost pending: set<nat>)
      requires Valid() && t < |net.ts| && r <= RankBound(net)
      requires net.ts[t].Binary? ==> Computed(net.ts[t], values[..]) != Unset
      requires forall i :: i in Inputs(net.ts[t]) ==> net.rank[i] <= r
      requires forall o :: o in Pins(net.ts[t].out) ==> net.rank[o] > r
      requires ConsistentExcept(net, values[..], pending + Pins(net.ts[t].out))
      modifies values
      ensures Preserves(net, old(values[..]), values[..], r)
      ensures if old(Computed(net.ts[t], values[..])) != Unset then ConsistentExcept(net, values[..], pending)
              else values[..] == old(values[..])
      ensures (exists i :: i in Inputs(net.ts[t]) && old(values[i]) != Unset) ==>
                forall o :: o in Pins(net.ts[t].out) && o !in pending ==> Obeys(net.ts[t], values[..], o)
      decreases RankBound(net) - r, 1
    {
      match net.ts[t]
      case Unary(i, out) =>
        var p := values[i];
        if p == Unset {
          return;
        }
        SetOutput(out, p == On, t, r, pending);
        ConsistentObeys(net, values[..], t, pending);
      case Not(i, out) =>
        var p := values[i];
        if p == Unset {
          return;
        }
        SetOutput(out, !Truth(p), t, r, pending);
        ConsistentObeys(net, values[..], t, pending);
      case Binary(i, j, out, op) =>
        var p1, p2 := values[i], values[j];
        var newValue := Unset;
        if p1 == Unset {
          newValue := p2;
        } else if p2 == Unset {
          newValue := p1;
        }
        if newValue == Unset {
          match op
          case And => newValue := Level(Truth(p1) && Truth(p2));
          case Or => newValue := Level(Truth(p1) || Truth(p2));
          case Xor => newValue := Level(p1 != p2);
        }
        SetOutput(out, newValue == On, t, r, pending);
        ConsistentObeys(net, values[..], t, pending);
    }

    /** `set` on the output of transformer `t`; a splitter sets its two outputs in turn. */
    method SetOutput(out: Output, value: bool, ghost t: nat, ghost r: nat, ghost pending: set<nat>)
      requires Valid() && t < |net.ts| && r <= RankBound(net) && Pins(out) <= Pins(net.ts[t].out)
      requires Computed(net.ts[t], values[..]) == Level(value)
      requires forall i :: i in Inputs(net.ts[t]) ==> net.rank[i] <= r
      requires forall o :: o in Pins(net.ts[t].out) ==> net.rank[o] > r
      requires ConsistentExcept(net, values[..], pending + Pins(out))
      modifies values
      ensures ConsistentExcept(net, values[..], pending) && Preserves(net, old(values[..]), values[..], r)
      decreases RankBound(net) - r, 0, out
    {
      match out
      case Single(pin) =>
        assert Drives(net, t, pin);
        RankBounded(net, pin);
        SetPin(pin, value, pending);
      case Split(a, b) =>
        assert pending + Pins(out) == pending + Pins(b) + Pins(a);
        ghost var before := values[..];
        SetOutput(a, value, t, r, pending + Pins(b));
        ComputedDepends(net.ts[t], before, values[..]);
        SetOutput(b, value, t, r, pending);
    }

    /** A level set from outside, on a pin no transformer drives. */
    method SetLeaf(pin: nat, value: bool)
      requires Valid() && pin < net.virtuals && !Driven(net, pin) && ConsistentExcept(net, values[..], {})
      modifies values
      ensures ConsistentExcept(net, values[..], {})
      ensures forall p :: 0 <= p < net.size && !Driven(net, p) ==>
                values[p] == if p == pin then Level(value) else old(values[p])
    {
      SetPin(pin, value, {});
    }
  }

  /** One `set` of an undriven pin. */
  datatype LeafSet = LeafSet(pin: nat, value: bool)

  /** The levels the undriven pins have after a series of sets. */
  function Leaves(n: nat, sets: seq<LeafSet>): (leaf: seq<PinState>)
    ensures |leaf| == n
  {
    if sets == [] then seq(n, _ => Unset)
    else
      var before, s := Leaves(n, sets[..|sets| - 1]), sets[|sets| - 1];
      if s.pin < n then before[s.pin := Level(s.value)] else before
  }

  /** A pin's level is that of its latest set. */
  lemma {:induction false} LatestSetShows(n: nat, sets: seq<LeafSet>, p: nat, k: nat)
    requires p < n && k < |sets| && sets[k].pin == p && forall j :: k < j < |sets| ==> sets[j].pin != p
    ensures (Leaves(n, sets)[p].On? <==> sets[k].value) && (Leaves(n, sets)[p].Off? <==> !sets[k].value)
    decreases |sets|
  {
    if k < |sets| - 1 { LatestSetShows(n, sets[..|sets| - 1], p, k); }
  }

  /** A pin never set is unset. */
  lemma {:induction false} NeverSetIsUnset(n: nat, sets: seq<LeafSet>, p: nat)
    requires p < n && forall k :: 0 <= k < |sets| ==> sets[k].pin != p
    ensures Leaves(n, sets)[p].Unset?
    decreases |sets|
  {
    if sets != [] { NeverSetIsUnset(n, sets[..|sets| - 1], p); }
  }

  /** Incremental propagation equals full re-evaluation: wire any acyclic network, set undriven pins
      any number of times in any order, and every pin - virtual or hardware - shows the evaluation
      from scratch of the current levels. */
  method Propagate(net: Net, sets: seq<LeafSet>) returns (network: Network)
    requires Wired(net)
    requires forall k :: 0 <= k < |sets| ==> sets[k].pin < net.virtuals && !Driven(net, sets[k].pin)
    ensures network.Valid() && network.net == net
    ensures forall p :: 0 <= p < net.size ==> network.values[p] == Eval(net, Leaves(net.size, sets), p)
    ensures forall t, o: nat :: 0 <= t < |net.ts| && WritesTo(net.ts[t].out, o) ==>
              o < net.size && Obeys(net.ts[t], network.values[..], o)
  {
    network := new Network(net);
    var k := 0;
    while k < |sets|
      invariant 0 <= k <= |sets| && fresh(network.values) && network.Valid() && network.net == net
      invariant ConsistentExcept(net, network.values[..], {})
      invariant forall p :: 0 <= p < net.size && !Driven(net, p) ==> network.values[p] == Leaves(net.size, sets[..k])[p]
    {
      network.SetLeaf(sets[k].pin, sets[k].value);
      assert sets[..k + 1][..k] == sets[..k];
      k := k + 1;
    }
    assert sets[..k] == sets;
    forall p | 0 <= p < net.size ensures network.values[p] == Eval(net, Leaves(net.size, sets), p) {
      ConsistentIsEvaluated(net, network.values[..], Leaves(net.size, sets), p);
    }
    forall t | 0 <= t < |net.ts|
      ensures forall o: nat :: WritesTo(net.ts[t].out, o) ==> o < net.size && Obeys(net.ts[t], network.values[..], o)
    {
      ConsistentObeys(net, network.values[..], t, {});
      forall o: nat | WritesTo(net.ts[t].out, o) ensures o < net.size && Obeys(net.ts[t], network.values[..], o) {
        PinsAreWritten(net.ts[t].out, o);
      }
    }
  }

  /** The higher of a transformer's input ranks. */
  ghost function InputRank(net: Net, t: nat): nat
    requires Wired(net) && t < |net.ts|
  {
    match net.ts[t]
    case Unary(i, _) => net.rank[i]
    case Not(i, _) => net.rank[i]
    case Binary(i, j, _, _) => if net.rank[i] < net.rank[j] then net.rank[j] else net.rank[i]
  }

  lemma InputRankBounds(net: Net, t: nat)
    requires Wired(net) && t < |net.ts|
    ensures InputRank(net, t) <= RankBound(net)
    ensures forall i :: i in Inputs(net.ts[t]) ==> net.rank[i] <= InputRank(net, t)
    ensures forall o :: o in Pins(net.ts[t].out) ==> InputRank(net, t) < net.rank[o]
  {
    match net.ts[t]
    case Unary(i, _) => RankBounded(net, i);
    case Not(i, _) => RankBounded(net, i);
    case Binary(i, j, _, _) => RankBounded(net, i); RankBounded(net, j);
  }

  ghost function RankBound(net: Net): nat {
    Highest(net.rank)
  }

  ghost function Highest(r: seq<nat>): nat {
    if r == [] then 0 else if r[0] > Highest(r[1..]) then r[0] else Highest(r[1..])
  }

  lemma RankBounded(net: Net, pin: nat)
    requires |net.rank| == net.size && pin < net.size
    ensures net.rank[pin] <= RankBound(net)
  {
    HighestBounds(net.rank, pin);
  }

  lemma HighestBounds(r: seq<nat>, i: nat)
    requires i < |r|
    ensures r[i] <= Highest(r)
  {
    if i > 0 { HighestBounds(r[1..], i - 1); }
  }
}
