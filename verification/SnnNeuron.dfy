/** The reference leaky integrate-and-fire neuron of the golden model. */
module SnnGolden {

  /** The floating-point operations, uninterpreted: decay and input, the threshold comparison and the
      weighted sum. Both sides of a comparison use the same ones; nothing is assumed about rounding. */
  datatype Arith<!F(==)> = Arith(
    zero: F, negativeZero: F,
    integrate: (F, F, F) -> F, atLeast: (F, F) -> bool, dot: (seq<F>, seq<F>) -> F)
  {
    /** x == 0.0f, true of both zeros. */
    predicate IsZero(x: F) {
      x == zero || x == negativeZero
    }
  }

  /** One neuron, one time step: decay, integrate, fire at the threshold, reset on firing. */
  datatype Lif<F> = Lif(state: F, spike: bool)

  function LifStep<F(==)>(a: Arith<F>, leak: F, threshold: F, state: F, input: F): Lif<F> {
    var v := a.integrate(leak, state, input);
    if a.atLeast(v, threshold) then Lif(a.zero, true) else Lif(v, false)
  }

  function LifState<F(==)>(a: Arith<F>, leak: F, threshold: F, xs: seq<F>): F {
    if xs == [] then a.zero
    else LifStep(a, leak, threshold, LifState(a, leak, threshold, xs[..|xs| - 1]), xs[|xs| - 1]).state
  }

  function LifSpikes<F(==)>(a: Arith<F>, leak: F, threshold: F, xs: seq<F>): (out: seq<bool>)
    ensures |out| == |xs|
  {
    if xs == [] then []
    else
      var front := xs[..|xs| - 1];
      LifSpikes(a, leak, threshold, front) +
        [LifStep(a, leak, threshold, LifState(a, leak, threshold, front), xs[|xs| - 1]).spike]
  }

  /** The whole population, one time step. */
  function LayerStep<F(==)>(
    a: Arith<F>, leak: F, threshold: F, weights: seq<seq<F>>, states: seq<F>, inputs: seq<F>): (ls: seq<Lif<F>>)
    requires |weights| == |states|
    ensures |ls| == |states|
    ensures forall i :: 0 <= i < |ls| ==>
      ls[i] == LifStep(a, leak, threshold, states[i], a.dot(weights[i], inputs))
  {
    seq(|states|, i requires 0 <= i < |states| => LifStep(a, leak, threshold, states[i], a.dot(weights[i], inputs)))
  }

  /** The model object; numpy's whole-array expressions are sequence comprehensions. */
  class ReferenceModel<F(==)> {
    const arith: Arith<F>
    var neuronStates: seq<F>

    constructor (arith: Arith<F>, neurons: nat)
      ensures this.arith == arith && neuronStates == Resting(arith, neurons)
    {
      this.arith := arith;
      neuronStates := Resting(arith, neurons);
    }

    method LifNeuron(inputs: seq<F>, weights: seq<seq<F>>, leak: F, threshold: F)
      returns (spikes: seq<bool>, states: seq<F>)
      requires |weights| == |neuronStates|
      modifies this`neuronStates
      ensures states == neuronStates && |states| == |spikes| == |weights|
      ensures var ls := LayerStep(arith, leak, threshold, weights, old(neuronStates), inputs);
        forall i :: 0 <= i < |weights| ==> states[i] == ls[i].state && spikes[i] == ls[i].spike
    {
      var weightedSum := seq(|weights|, i requires 0 <= i < |weights| => arith.dot(weights[i], inputs));
      var before := neuronStates;
      neuronStates := seq(|weights|, i requires 0 <= i < |weights| =>
        arith.integrate(leak, before[i], weightedSum[i]));
      var v := neuronStates;
      spikes := seq(|weights|, i requires 0 <= i < |weights| => arith.atLeast(v[i], threshold));
      var fired := spikes;
      neuronStates := seq(|weights|, i requires 0 <= i < |weights| => if fired[i] then arith.zero else v[i]);
      states := neuronStates;
    }
  }

  function Resting<F(==)>(a: Arith<F>, neurons: nat): (states: seq<F>)
    ensures |states| == neurons && forall i :: 0 <= i < neurons ==> states[i] == a.zero
  {
    seq(neurons, _ => a.zero)
  }

  /** The states of the object after a sequence of calls with fixed weights, leak and threshold. */
  function LayerStates<F(==)>(
    a: Arith<F>, leak: F, threshold: F, weights: seq<seq<F>>, steps: seq<seq<F>>): (states: seq<F>)
    ensures |states| == |weights|
  {
    if steps == [] then Resting(a, |weights|)
    else
      var n := |steps| - 1;
      var ls := LayerStep(a, leak, threshold, weights, LayerStates(a, leak, threshold, weights, steps[..n]), steps[n]);
      seq(|weights|, i requires 0 <= i < |weights| => ls[i].state)
  }

  /** The spikes of neuron `i` over those calls. */
  function NeuronSpikes<F(==)>(
    a: Arith<F>, leak: F, threshold: F, weights: seq<seq<F>>, steps: seq<seq<F>>, i: nat): (out: seq<bool>)
    requires i < |weights|
    ensures |out| == |steps|
  {
    if steps == [] then []
    else
      var n := |steps| - 1;
      var states := LayerStates(a, leak, threshold, weights, steps[..n]);
      NeuronSpikes(a, leak, threshold, weights, steps[..n], i) +
        [LayerStep(a, leak, threshold, weights, states, steps[n])[i].spike]
  }

  /** The input current of one neuron at each call. */
  function Currents<F(==)>(a: Arith<F>, ws: seq<F>, steps: seq<seq<F>>): (xs: seq<F>)
    ensures |xs| == |steps| && forall k :: 0 <= k < |steps| ==> xs[k] == a.dot(ws, steps[k])
  {
    seq(|steps|, k requires 0 <= k < |steps| => a.dot(ws, steps[k]))
  }

  /** The leaky sum of the inputs from call `from` up to call `end`. */
  function LeakySum<F(==)>(a: Arith<F>, leak: F, xs: seq<F>, from: nat, end: nat): F
    requires end <= |xs|
    decreases end
  {
    if from >= end then a.zero else a.integrate(leak, LeakySum(a, leak, xs, from, end - 1), xs[end - 1])
  }

  lemma {:induction false} NothingSummed<F>(a: Arith<F>, leak: F, xs: seq<F>, from: nat, end: nat)
    requires from >= end && end <= |xs|
    ensures LeakySum(a, leak, xs, from, end) == a.zero
  {
  }

  lemma {:induction false} LeakyPrefix<F>(a: Arith<F>, leak: F, xs: seq<F>, from: nat, end: nat, n: nat)
    requires end <= n <= |xs|
    ensures LeakySum(a, leak, xs[..n], from, end) == LeakySum(a, leak, xs, from, end)
    decreases end
  {
    if from < end {
      LeakyPrefix(a, leak, xs, from, end - 1, n);
    }
  }

  /** The call behind the last spike. */
  function SinceSpike(spikes: seq<bool>): (n: nat)
    ensures n <= |spikes|
  {
    if spikes == [] then 0
    else if spikes[|spikes| - 1] then |spikes| else SinceSpike(spikes[..|spikes| - 1])
  }

  /** The golden neuron without its state: it holds the leaky sum since the last spike, and spikes exactly
      at the calls that bring this sum to the threshold. */
  lemma {:induction false} GoldenFiresIff<F>(a: Arith<F>, leak: F, threshold: F, xs: seq<F>)
    ensures LifState(a, leak, threshold, xs) ==
      LeakySum(a, leak, xs, SinceSpike(LifSpikes(a, leak, threshold, xs)), |xs|)
    ensures xs != [] ==>
      var n := |xs| - 1;
      var before := LifSpikes(a, leak, threshold, xs[..n]);
      LifSpikes(a, leak, threshold, xs) ==
        before + [a.atLeast(LeakySum(a, leak, xs, SinceSpike(before), n + 1), threshold)]
  {
    if xs != [] {
      var n := |xs| - 1;
      GoldenFiresIff(a, leak, threshold, xs[..n]);
      var before := LifSpikes(a, leak, threshold, xs[..n]);
      LeakyPrefix(a, leak, xs, SinceSpike(before), n, n);
      var spikes := LifSpikes(a, leak, threshold, xs);
      assert spikes[..n] == before;
    }
  }

  /** Over any run of the golden object each neuron is the scalar neuron on its own currents. */
  lemma {:induction false} LayerIsScalar<F>(
    a: Arith<F>, leak: F, threshold: F, weights: seq<seq<F>>, steps: seq<seq<F>>, i: nat)
    requires i < |weights|
    ensures var xs := Currents(a, weights[i], steps);
      LayerStates(a, leak, threshold, weights, steps)[i] == LifState(a, leak, threshold, xs) &&
      NeuronSpikes(a, leak, threshold, weights, steps, i) == LifSpikes(a, leak, threshold, xs)
  {
    hide LifStep;
    if steps != [] {
      var n := |steps| - 1;
      var xs := Currents(a, weights[i], steps);
      LayerIsScalar(a, leak, threshold, weights, steps[..n], i);
      assert xs[..n] == Currents(a, weights[i], steps[..n]);
    }
  }
}

/** The firmware's per-call neuron: 256 neurons with refractory timers and a window gate. */
module SnnNeuron {
  import opened Prelude
  import opened ByteBits
  import opened SnnGolden

  const NEURONS: nat := 256
  /** The fields of the configuration, with the clock rate and the arithmetic the build fixes. */
  datatype Config<!F(==)> = Config(
    windowUs: nat, refractoryCycles: nat, threshold: F, leak: F, mhz: nat, arith: Arith<F>)

  /** window_us * SYSTEM_FREQ_MHZ / 1000000 in unsigned 32-bit arithmetic. */
  function Window<F(==)>(c: Config<F>): nat {
    c.windowUs * c.mhz % U32 / 1000000
  }

  datatype Neuron<F> = Neuron(membrane: F, refractory: nat, window: nat, threshold: F)

  function Rest<F(==)>(c: Config<F>): Neuron<F> {
    Neuron(c.arith.zero, 0, 0, c.arith.zero)
  }

  datatype Outcome<F> = Outcome(neuron: Neuron<F>, spike: bool)

  /** One call for one neuron. */
  function NeuronStep<F(==)>(c: Config<F>, n: Neuron<F>, input: F): Outcome<F> {
    var threshold := if c.arith.IsZero(n.threshold) then c.threshold else n.threshold;
    if n.refractory > 0 then
      Outcome(Neuron(c.arith.zero, n.refractory - 1, n.window, threshold), false)
    else
      var v := c.arith.integrate(c.leak, n.membrane, input);
      var spike := n.window < Window(c) && c.arith.atLeast(v, threshold);
      var w := (if spike then Window(c) else n.window) + 1;
      Outcome(Neuron(if spike then c.arith.zero else v, if spike then c.refractoryCycles else 0,
                     if w >= Window(c) then 0 else w, threshold), spike)
  }

  /** The static arrays and one call of snn_process_temporal_cycle. */
  class TemporalCoder<F(==)> {
    const membranePotentials: array<F>
    const refractoryTimers: array<nat>
    const temporalWindows: array<nat>
    const thresholds: array<F>
    var config: Config<F>

    ghost predicate Shaped()
      reads this
    {
      membranePotentials.Length == NEURONS && refractoryTimers.Length == NEURONS &&
      temporalWindows.Length == NEURONS && thresholds.Length == NEURONS &&
      membranePotentials != thresholds && refractoryTimers != temporalWindows &&
      (membranePotentials as object) != refractoryTimers && (membranePotentials as object) != temporalWindows &&
      (thresholds as object) != refractoryTimers && (thresholds as object) != temporalWindows
    }

    ghost function At(i: nat): Neuron<F>
      requires Shaped() && i < NEURONS
      reads this, membranePotentials, refractoryTimers, temporalWindows, thresholds
    {
      Neuron(membranePotentials[i], refractoryTimers[i], temporalWindows[i], thresholds[i])
    }

    constructor (config: Config<F>)
      ensures Shaped() && this.config == config && forall i :: 0 <= i < NEURONS ==> At(i) == Rest(config)
      ensures fresh(membranePotentials) && fresh(refractoryTimers)
      ensures fresh(temporalWindows) && fresh(thresholds)
    {
      membranePotentials := new F[NEURONS](_ => config.arith.zero);
      refractoryTimers := new nat[NEURONS](_ => 0);
      temporalWindows := new nat[NEURONS](_ => 0);
      thresholds := new F[NEURONS](_ => config.arith.zero);
      this.config := config;
    }

    method ProcessTemporalCycle(input: F, i: nat) returns (spikeOutput: nat)
      requires Shaped() && i < NEURONS
      modifies membranePotentials, refractoryTimers, temporalWindows, thresholds
      ensures var o := NeuronStep(config, old(At(i)), input);
        At(i) == o.neuron && spikeOutput == if o.spike then 1 else 0
      ensures forall k :: 0 <= k < NEURONS && k != i ==> At(k) == old(At(k))
    {
      hide Window;
      if config.arith.IsZero(thresholds[i]) {
        thresholds[i] := config.threshold;
      }
      spikeOutput := 0;
      if refractoryTimers[i] > 0 {
        refractoryTimers[i] := refractoryTimers[i] - 1;
        membranePotentials[i] := config.arith.zero;
        return 0;
      }
      membranePotentials[i] := config.arith.integrate(config.leak, membranePotentials[i], input);
      if temporalWindows[i] < Window(config) && config.arith.atLeast(membranePotentials[i], thresholds[i]) {
        spikeOutput := 1;
        membranePotentials[i] := config.arith.zero;
        refractoryTimers[i] := config.refractoryCycles;
        temporalWindows[i] := Window(config);
      }
      temporalWindows[i] := temporalWindows[i] + 1;
      if temporalWindows[i] >= Window(config) {
        temporalWindows[i] := 0;
      }
    }
  }

  // ---------------------------------------------------------------------------------------
  // Interleaved calls
  // ---------------------------------------------------------------------------------------

  datatype Call<F> = Call(neuron: nat, input: F)

  function RestingBank<F(==)>(c: Config<F>): (b: seq<Neuron<F>>)
    ensures |b| == NEURONS && forall i :: 0 <= i < NEURONS ==> b[i] == Rest(c)
  {
    seq(NEURONS, _ => Rest(c))
  }

  predicate ValidCalls<F(==)>(calls: seq<Call<F>>) {
    forall k :: 0 <= k < |calls| ==> calls[k].neuron < NEURONS
  }

  function RunBank<F(==)>(c: Config<F>, calls: seq<Call<F>>): (b: seq<Neuron<F>>)
    requires ValidCalls(calls)
    ensures |b| == NEURONS
  {
    if calls == [] then RestingBank(c)
    else
      var b, call := RunBank(c, calls[..|calls| - 1]), calls[|calls| - 1];
      b[call.neuron := NeuronStep(c, b[call.neuron], call.input).neuron]
  }

  /** The spike outputs of the calls made for neuron `i`, in order. */
  function OutputsFor<F(==)>(c: Config<F>, calls: seq<Call<F>>, i: nat): seq<bool>
    requires ValidCalls(calls)
  {
    if calls == [] then []
    else
      var front, call := calls[..|calls| - 1], calls[|calls| - 1];
      OutputsFor(c, front, i) +
        if call.neuron == i then [NeuronStep(c, RunBank(c, front)[i], call.input).spike] else []
  }

  /** The inputs of the calls made for neuron `i`, in order. */
  function InputsFor<F(==)>(calls: seq<Call<F>>, i: nat): seq<F> {
    if calls == [] then []
    else
      InputsFor(calls[..|calls| - 1], i) +
        if calls[|calls| - 1].neuron == i then [calls[|calls| - 1].input] else []
  }

  /** A neuron on its own. */
  function RunNeuron<F(==)>(c: Config<F>, xs: seq<F>): Neuron<F> {
    if xs == [] then Rest(c) else NeuronStep(c, RunNeuron(c, xs[..|xs| - 1]), xs[|xs| - 1]).neuron
  }

  function Spikes<F(==)>(c: Config<F>, xs: seq<F>): (out: seq<bool>)
    ensures |out| == |xs|
  {
    if xs == [] then []
    else
      var front := xs[..|xs| - 1];
      Spikes(c, front) + [NeuronStep(c, RunNeuron(c, front), xs[|xs| - 1]).spike]
  }

  /** Neurons do not disturb each other: whatever the interleaving, a neuron's state and spikes are
      those of the neuron alone on its own inputs. */
  lemma {:induction false} NeuronsIndependent<F>(c: Config<F>, calls: seq<Call<F>>, i: nat)
    requires ValidCalls(calls) && i < NEURONS
    ensures RunBank(c, calls)[i] == RunNeuron(c, InputsFor(calls, i))
    ensures OutputsFor(c, calls, i) == Spikes(c, InputsFor(calls, i))
  {
    hide NeuronStep;
    if calls != [] {
      var front, call := calls[..|calls| - 1], calls[|calls| - 1];
      NeuronsIndependent(c, front, i);
      if call.neuron == i {
        var xs := InputsFor(front, i);
        assert InputsFor(calls, i)[..|xs|] == xs;
      } else {
        assert InputsFor(calls, i) == InputsFor(front, i);
        assert OutputsFor(c, calls, i) == OutputsFor(c, front, i);
      }
    }
  }

  // ---------------------------------------------------------------------------------------
  // Refinement of the golden neuron
  // ---------------------------------------------------------------------------------------

  /** Calls still to be dropped after the outputs `spikes`, when each spike outside a drop period
      starts one of `r` calls. */
  function Pending(spikes: seq<bool>, r: nat): nat {
    if spikes == [] then 0
    else
      var p := Pending(spikes[..|spikes| - 1], r);
      if p > 0 then p - 1 else if spikes[|spikes| - 1] then r else 0
  }

  /** What is left of a sequence when the `r` calls after each spike are dropped. */
  function Undropped<T>(ts: seq<T>, spikes: seq<bool>, r: nat): seq<T>
    requires |ts| == |spikes|
  {
    if ts == [] then []
    else
      var n := |ts| - 1;
      Undropped(ts[..n], spikes[..n], r) + if Pending(spikes[..n], r) > 0 then [] else [ts[n]]
  }

  /** During the drop period after a spike nothing fires. */
  predicate SilentWhenDropped(spikes: seq<bool>, r: nat) {
    forall k :: 0 <= k < |spikes| && Pending(spikes[..k], r) > 0 ==> !spikes[k]
  }

  /** The firmware's spikes are the golden neuron's on the calls that are not dropped, and none on
      the dropped ones. */
  predicate Refines<F(==)>(c: Config<F>, xs: seq<F>) {
    var spikes, r := Spikes(c, xs), c.refractoryCycles;
    SilentWhenDropped(spikes, r) &&
    Undropped(spikes, spikes, r) == LifSpikes(c.arith, c.leak, c.threshold, Undropped(xs, spikes, r))
  }

  /** The state after `xs`, when the window gate is open. */
  predicate Tracks<F(==)>(c: Config<F>, xs: seq<F>) {
    var spikes, r, n := Spikes(c, xs), c.refractoryCycles, RunNeuron(c, xs);
    n.window < Window(c) && n.refractory == Pending(spikes, r) &&
    n.membrane == LifState(c.arith, c.leak, c.threshold, Undropped(xs, spikes, r)) &&
    (n.refractory > 0 ==> n.membrane == c.arith.zero) &&
    (n.threshold == c.threshold || n.threshold == c.arith.zero)
  }

  lemma {:induction false} SilentExtend(spikes: seq<bool>, s: bool, r: nat)
    requires SilentWhenDropped(spikes, r) && (Pending(spikes, r) > 0 ==> !s)
    ensures SilentWhenDropped(spikes + [s], r)
  {
    forall k | 0 <= k < |spikes| + 1 && Pending((spikes + [s])[..k], r) > 0
      ensures !(spikes + [s])[k]
    {
      assert (spikes + [s])[..k] == if k == |spikes| then spikes else spikes[..k];
    }
  }

  lemma {:induction false} UndroppedExtend<T>(ts: seq<T>, x: T, spikes: seq<bool>, s: bool, r: nat)
    requires |ts| == |spikes|
    ensures Undropped(ts + [x], spikes + [s], r) ==
      if Pending(spikes, r) > 0 then Undropped(ts, spikes, r) else Undropped(ts, spikes, r) + [x]
    ensures Pending(spikes + [s], r) ==
      if Pending(spikes, r) > 0 then Pending(spikes, r) - 1 else if s then r else 0
  {
    assert (ts + [x])[..|ts|] == ts && (spikes + [s])[..|spikes|] == spikes;
  }

  lemma {:induction false} LifExtend<F>(a: Arith<F>, leak: F, threshold: F, xs: seq<F>, x: F)
    ensures var l := LifStep(a, leak, threshold, LifState(a, leak, threshold, xs), x);
      LifState(a, leak, threshold, xs + [x]) == l.state &&
      LifSpikes(a, leak, threshold, xs + [x]) == LifSpikes(a, leak, threshold, xs) + [l.spike]
  {
    assert (xs + [x])[..|xs|] == xs;
  }

  lemma {:induction false} CallTracks<F>(c: Config<F>, xs: seq<F>, x: F)
    requires Tracks(c, xs) && Refines(c, xs)
    ensures Tracks(c, xs + [x]) && Refines(c, xs + [x])
  {
    hide Window, Undropped, Pending, LifState, LifSpikes, SilentWhenDropped;
    var r, spikes := c.refractoryCycles, Spikes(c, xs);
    var s := NeuronStep(c, RunNeuron(c, xs), x).spike;
    assert (xs + [x])[..|xs|] == xs;
    SilentExtend(spikes, s, r);
    UndroppedExtend(xs, x, spikes, s, r);
    UndroppedExtend(spikes, s, spikes, s, r);
    LifExtend(c.arith, c.leak, c.threshold, Undropped(xs, spikes, r), x);
  }

  /** With a window of at least one cycle the gate never blocks, and the firmware neuron refines
      the golden one on every input sequence. */
  lemma {:induction false} NeuronRefinesGolden<F>(c: Config<F>, xs: seq<F>)
    requires Window(c) >= 1
    ensures Tracks(c, xs) && Refines(c, xs)
  {
    hide Window, Tracks, Refines;
    if xs == [] {
      RestTracks(c);
    } else {
      var front := xs[..|xs| - 1];
      NeuronRefinesGolden(c, front);
      CallTracks(c, front, xs[|xs| - 1]);
      assert front + [xs[|xs| - 1]] == xs;
    }
  }

  lemma {:induction false} RestTracks<F>(c: Config<F>)
    requires Window(c) >= 1
    ensures Tracks(c, []) && Refines(c, [])
  {
    hide Window, NeuronStep, LifStep;
  }

  /** The window register then counts the undropped calls since the last spike, modulo the window. */
  lemma {:induction false} WindowCounts<F>(c: Config<F>, xs: seq<F>)
    requires Window(c) >= 1
    ensures var spikes := Spikes(c, xs);
      var u := Undropped(spikes, spikes, c.refractoryCycles);
      RunNeuron(c, xs).window == (|u| - SinceSpike(u)) % Window(c)
  {
    hide Window, Undropped, Pending, Tracks, Refines;
    if xs == [] {
      NothingDropped(c);
    } else {
      var n, r := |xs| - 1, c.refractoryCycles;
      var spikes, o := Spikes(c, xs[..n]), NeuronStep(c, RunNeuron(c, xs[..n]), xs[n]);
      var u := Undropped(spikes, spikes, r);
      WindowCounts(c, xs[..n]);
      NeuronRefinesGolden(c, xs[..n]);
      RefractoryIsPending(c, xs[..n]);
      UndroppedExtend(spikes, o.spike, spikes, o.spike, r);
      assert (u + [o.spike])[..|u|] == u;
      NextRemainder(|u| - SinceSpike(u), Window(c));
    }
  }

  lemma {:induction false} NothingDropped<F>(c: Config<F>)
    requires Window(c) >= 1
    ensures Undropped(Spikes(c, []), Spikes(c, []), c.refractoryCycles) == []
    ensures RunNeuron(c, []).window == 0 == 0 % Window(c)
  {
    hide Window;
    assert Spikes(c, []) == [];
  }

  lemma {:induction false} RefractoryIsPending<F>(c: Config<F>, xs: seq<F>)
    requires Tracks(c, xs)
    ensures var n := RunNeuron(c, xs);
      n.refractory == Pending(Spikes(c, xs), c.refractoryCycles) && n.window < Window(c)
  {
  }

  /** With a window of zero cycles a neuron sums its inputs for ever. */
  lemma {:induction false} ZeroWindowSums<F>(c: Config<F>, xs: seq<F>)
    requires Window(c) == 0
    ensures var n := RunNeuron(c, xs);
      n.membrane == LeakySum(c.arith, c.leak, xs, 0, |xs|) && n.refractory == 0 && n.window == 0
  {
    if xs != [] {
      ZeroWindowSums(c, xs[..|xs| - 1]);
      LeakyPrefix(c.arith, c.leak, xs, 0, |xs| - 1, |xs| - 1);
    }
  }

  /** With a window of zero cycles no neuron ever fires. */
  lemma {:induction false} ZeroWindowSilent<F>(c: Config<F>, xs: seq<F>, k: nat)
    requires Window(c) == 0 && k < |xs|
    ensures !Spikes(c, xs)[k]
  {
    var n := |xs| - 1;
    if k < n {
      ZeroWindowSilent(c, xs[..n], k);
    }
  }

  predicate Silent(spikes: seq<bool>) {
    forall k :: 0 <= k < |spikes| ==> !spikes[k]
  }

  lemma {:induction false} SilentUndropped<T>(ts: seq<T>, spikes: seq<bool>, r: nat)
    requires |ts| == |spikes| && Silent(spikes)
    ensures Pending(spikes, r) == 0 && Undropped(ts, spikes, r) == ts
  {
    if ts == [] {
    } else {
      SilentUndropped(ts[..|ts| - 1], spikes[..|ts| - 1], r);
    }
  }

  lemma {:induction false} SilentEqual(a: seq<bool>, b: seq<bool>)
    requires |a| == |b| && Silent(a)
    ensures a == b <==> Silent(b)
  {
  }

  /** The golden neuron never fires, on any input. */
  ghost predicate GoldenSilent<F(!new)>(c: Config<F>) {
    forall xs: seq<F> :: Silent(LifSpikes(c.arith, c.leak, c.threshold, xs))
  }

  /** The exact condition: the firmware refines the golden neuron on all inputs if and only if the
      window is at least one cycle, or the golden neuron cannot fire either. */
  lemma {:induction false} RefinesIffWindow<F(!new)>(c: Config<F>)
    ensures (forall xs: seq<F> :: Refines(c, xs)) <==> Window(c) >= 1 || GoldenSilent(c)
  {
    hide Window, Refines, LifSpikes, Silent;
    if Window(c) >= 1 {
      forall xs: seq<F>
        ensures Refines(c, xs)
      {
        NeuronRefinesGolden(c, xs);
      }
    } else {
      forall xs: seq<F>
        ensures Refines(c, xs) <==> Silent(LifSpikes(c.arith, c.leak, c.threshold, xs))
      {
        ZeroWindowRefines(c, xs);
      }
    }
  }

  lemma {:induction false} ZeroWindowRefines<F>(c: Config<F>, xs: seq<F>)
    requires Window(c) == 0
    ensures Refines(c, xs) <==> Silent(LifSpikes(c.arith, c.leak, c.threshold, xs))
  {
    hide Window, Spikes, LifSpikes, Undropped, Pending;
    var spikes, r := Spikes(c, xs), c.refractoryCycles;
    forall k | 0 <= k < |xs|
      ensures !spikes[k]
    {
      ZeroWindowSilent(c, xs, k);
    }
    SilentUndropped(xs, spikes, r);
    SilentUndropped(spikes, spikes, r);
    SilentEqual(spikes, LifSpikes(c.arith, c.leak, c.threshold, xs));
  }

  /** The default window of 1000 microseconds is zero cycles at any clock below 1000 MHz. */
  lemma {:induction false} DefaultWindowIsZero<F>(c: Config<F>)
    requires c.windowUs == 1000 && c.mhz < 1000
    ensures Window(c) == 0
  {
  }

  /** The window in cycles: how many whole millions fit in the product of microseconds and MHz, taken
      modulo 2^32. It is open exactly when that product reaches one million, as it always does from
      1000 MHz on with the default of 1000 microseconds. */
  lemma {:induction false} WindowIs<F>(c: Config<F>, w: nat)
    ensures var product := c.windowUs * c.mhz % 0x1_0000_0000;
      (w == Window(c) <==> 1000000 * w <= product < 1000000 * (w + 1)) &&
      (Window(c) >= 1 <==> product >= 1000000)
    ensures c.windowUs == 1000 && 1000 <= c.mhz < 4294968 ==> Window(c) >= 1
  {
    var product := c.windowUs * c.mhz % U32;
    assert product == Window(c) * 1000000 + product % 1000000;
  }

  /** Any interleaving of calls: neuron `i` behaves as the golden neuron on its own inputs. */
  lemma {:induction false} BankRefinesGolden<F>(c: Config<F>, calls: seq<Call<F>>, i: nat)
    requires ValidCalls(calls) && i < NEURONS && Window(c) >= 1
    ensures var xs, spikes, r := InputsFor(calls, i), OutputsFor(c, calls, i), c.refractoryCycles;
      |xs| == |spikes| && SilentWhenDropped(spikes, r) &&
      Undropped(spikes, spikes, r) == LifSpikes(c.arith, c.leak, c.threshold, Undropped(xs, spikes, r)) &&
      RunBank(c, calls)[i].membrane == LifState(c.arith, c.leak, c.threshold, Undropped(xs, spikes, r))
  {
    NeuronsIndependent(c, calls, i);
    NeuronRefinesGolden(c, InputsFor(calls, i));
  }

  /** The same against a run of the golden object: if neuron `j` of the object receives, call by call,
      what firmware neuron `i` receives outside its refractory calls, both fire on the same ones. */
  lemma {:induction false} BankRefinesModel<F>(
    c: Config<F>, calls: seq<Call<F>>, i: nat, weights: seq<seq<F>>, steps: seq<seq<F>>, j: nat)
    requires ValidCalls(calls) && i < NEURONS && Window(c) >= 1 && j < |weights|
    requires |OutputsFor(c, calls, i)| == |InputsFor(calls, i)|
    requires Currents(c.arith, weights[j], steps) ==
      Undropped(InputsFor(calls, i), OutputsFor(c, calls, i), c.refractoryCycles)
    ensures var spikes, r := OutputsFor(c, calls, i), c.refractoryCycles;
      Undropped(spikes, spikes, r) == NeuronSpikes(c.arith, c.leak, c.threshold, weights, steps, j) &&
      RunBank(c, calls)[i].membrane == LayerStates(c.arith, c.leak, c.threshold, weights, steps)[j]
  {
    BankRefinesGolden(c, calls, i);
    LayerIsScalar(c.arith, c.leak, c.threshold, weights, steps, j);
  }
}
