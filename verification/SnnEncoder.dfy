/** The batch encoder that turns radio I/Q samples into spike times. */
module SnnEncoder {
  import opened Prelude
  import opened SnnGolden
  import opened ByteBits

  /** Refractory period and window in I/Q pairs, threshold and leak of the configuration. */
  datatype Config<!F(==)> = Config(refractory: nat, window: nat, threshold: F, leak: F, arith: Arith<F>)

  /** The locals of the loop: pair indices of the spikes so far, membrane and the two timers. */
  datatype State<F> = State(times: seq<nat>, membrane: F, refractory: nat, window: nat)

  function Start<F(==)>(c: Config<F>): State<F> {
    State([], c.arith.zero, 0, 0)
  }

  /** The spike decision for pair `k` of intensity `x`. */
  function Fire<F(==)>(c: Config<F>, s: State<F>, k: nat, x: F): State<F> {
    if s.refractory > 0 then s
    else
      var v := c.arith.integrate(c.leak, s.membrane, x);
      if s.window < c.window && c.arith.atLeast(v, c.threshold)
      then State(s.times + [k], c.arith.zero, c.refractory, c.window)
      else s.(membrane := v)
  }

  /** The timer updates at the end of an iteration. */
  function Tick<F(==)>(c: Config<F>, s: State<F>): State<F> {
    s.(refractory := if s.refractory > 0 then s.refractory - 1 else 0,
       membrane := if s.window >= c.window then c.arith.zero else s.membrane,
       window := if s.window >= c.window then 0 else s.window + 1)
  }

  /** The loop over the first pairs; it stops when the output buffer is full. */
  function Encode<F(==)>(c: Config<F>, cap: nat, xs: seq<F>): State<F> {
    if xs == [] then Start(c)
    else
      var k := |xs| - 1;
      var s := Encode(c, cap, xs[..k]);
      if |s.times| >= cap then s else Tick(c, Fire(c, s, k, xs[k]))
  }

  /** The intensities of the sample pairs, under the magnitude function `mag`. */
  function Intensities<F(==)>(mag: (F, F) -> F, iq: seq<F>, pairs: nat): (xs: seq<F>)
    requires 2 * pairs <= |iq|
    ensures |xs| == pairs && forall k :: 0 <= k < pairs ==> xs[k] == mag(iq[2 * k], iq[2 * k + 1])
  {
    seq(pairs, k requires 0 <= k < pairs => mag(iq[2 * k], iq[2 * k + 1]))
  }

  /** The output buffer starts with the sample indices of the spikes, modulo 256, and is unchanged behind them. */
  ghost predicate Written(before: seq<nat>, now: seq<nat>, times: seq<nat>) {
    |times| <= |now| == |before| &&
    (forall j :: 0 <= j < |times| ==> now[j] == 2 * times[j] % 256) &&
    forall j :: |times| <= j < |now| ==> now[j] == before[j]
  }

  lemma {:induction false} WrittenNothing(out: seq<nat>)
    ensures Written(out, out, [])
  {
  }

  lemma {:induction false} WriteTime(before: seq<nat>, now: seq<nat>, times: seq<nat>, k: nat)
    requires Written(before, now, times) && |times| < |now|
    ensures Written(before, now[|times| := 2 * k % 256], times + [k])
  {
  }

  /** How many pairs the loop visits; an odd last sample is read together with the one behind it. */
  function Pairs(sampleCount: nat): nat {
    (sampleCount + 1) / 2
  }

  /** snn_encode_rf_to_ttfs. `mag` stands for the square root of the sum of squares. The index is an
      unsigned 32-bit number and must not wrap. */
  method EncodeRf<F(==)>(c: Config<F>, mag: (F, F) -> F, iq: Option<seq<F>>, sampleCount: nat,
                        out: array?<nat>, outputSize: nat) returns (spikeCount: nat)
    requires sampleCount < U32 - 1
    requires iq.Some? ==> 2 * Pairs(sampleCount) <= |iq.value|
    requires out != null ==> outputSize <= out.Length
    modifies out
    ensures iq.None? || out == null ==> spikeCount == 0
    ensures iq.Some? && out != null ==>
      var times := Encode(c, outputSize, Intensities(mag, iq.value, Pairs(sampleCount))).times;
      spikeCount == |times| <= outputSize && Written(old(out[..]), out[..], times) &&
      forall j :: 0 <= j < spikeCount ==> out[j] == 2 * times[j] % 256
  {
    if iq.None? || out == null {
      return 0;
    }
    spikeCount := EncodePairs(c, mag, iq.value, sampleCount, out, outputSize);
  }

  /** The loop over the pairs. */
  method EncodePairs<F(==)>(c: Config<F>, mag: (F, F) -> F, iq: seq<F>, sampleCount: nat,
                           out: array<nat>, outputSize: nat) returns (spikeCount: nat)
    requires 2 * Pairs(sampleCount) <= |iq| && outputSize <= out.Length
    modifies out
    ensures var times := Encode(c, outputSize, Intensities(mag, iq, Pairs(sampleCount))).times;
      spikeCount == |times| <= outputSize && Written(old(out[..]), out[..], times)
  {
    hide *;
    WrittenNothing(out[..]);
    ghost var xs := Intensities(mag, iq, Pairs(sampleCount));
    ReachedStart(c, outputSize, xs);
    PairsVisited(sampleCount);
    spikeCount := 0;
    var membrane: F, refractory: nat, window: nat := c.arith.zero, 0, 0;
    ghost var s := State([], c.arith.zero, 0, 0);
    var i := 0;
    ghost var k: nat := 0;
    while i < sampleCount
      invariant i == 2 * k && k <= |xs|
      invariant Reached(c, outputSize, xs, k, s)
      invariant s == State(s.times, membrane, refractory, window) && spikeCount == |s.times| <= outputSize
      invariant Written(old(out[..]), out[..], s.times)
      decreases |xs| - k
    {
      if spikeCount >= outputSize {
        ReachedFull(c, outputSize, xs, k, s);
        return;
      }
      ReachedNext(c, outputSize, xs, k, s);
      var x := mag(iq[i], iq[i + 1]);
      var fired;
      fired, membrane, refractory, window := Iterate(c, s, k, x, membrane, refractory, window);
      if fired {
        StoreTime(out, spikeCount, i, old(out[..]), s.times, k);
        spikeCount := spikeCount + 1;
      }
      s := Tick(c, Fire(c, s, k, x));
      i, k := i + 2, k + 1;
    }
    ReachedEnd(c, outputSize, xs, s);
  }

  /** The loop has done `k` pairs and stands in state `s`. */
  ghost predicate Reached<F>(c: Config<F>, cap: nat, xs: seq<F>, k: nat, s: State<F>) {
    k <= |xs| && s == Encode(c, cap, xs[..k])
  }

  /** One write to the output buffer: the sample index modulo 256. */
  method StoreTime(out: array<nat>, spikeCount: nat, i: nat,
                   ghost before: seq<nat>, ghost times: seq<nat>, ghost k: nat)
    requires spikeCount == |times| < out.Length && i == 2 * k && Written(before, out[..], times)
    modifies out
    ensures Written(before, out[..], times + [k])
  {
    hide *;
    WriteTime(before, out[..], times, k);
    out[spikeCount] := i % 256;
  }

  /** The body of the loop, apart from storing the spike time. */
  method Iterate<F(==)>(c: Config<F>, ghost s: State<F>, ghost k: nat, x: F,
                        membrane0: F, refractory0: nat, window0: nat)
    returns (fired: bool, membrane: F, refractory: nat, window: nat)
    requires s == State(s.times, membrane0, refractory0, window0)
    ensures Tick(c, Fire(c, s, k, x)) ==
      State(if fired then s.times + [k] else s.times, membrane, refractory, window)
  {
    fired, membrane, refractory, window := false, membrane0, refractory0, window0;
    if refractory == 0 {
      membrane := c.arith.integrate(c.leak, membrane, x);
      if window < c.window && c.arith.atLeast(membrane, c.threshold) {
        fired, membrane, refractory, window := true, c.arith.zero, c.refractory, c.window;
      }
    }
    if refractory > 0 {
      refractory := refractory - 1;
    }
    if window >= c.window {
      window, membrane := 0, c.arith.zero;
    } else {
      window := window + 1;
    }
  }

  lemma {:induction false} PairsVisited(sampleCount: nat)
    ensures 2 * Pairs(sampleCount) - 1 <= sampleCount <= 2 * Pairs(sampleCount)
  {
  }

  lemma {:induction false} ReachedStart<F>(c: Config<F>, cap: nat, xs: seq<F>)
    ensures Reached(c, cap, xs, 0, State([], c.arith.zero, 0, 0))
  {
  }

  lemma {:induction false} ReachedNext<F>(c: Config<F>, cap: nat, xs: seq<F>, k: nat, s: State<F>)
    requires Reached(c, cap, xs, k, s) && k < |xs| && |s.times| < cap
    ensures Reached(c, cap, xs, k + 1, Tick(c, Fire(c, s, k, xs[k])))
  {
    hide Tick, Fire;
    assert xs[..k + 1][..k] == xs[..k];
  }

  /** Once the buffer is full the remaining pairs change nothing. */
  lemma {:induction false} ReachedFull<F>(c: Config<F>, cap: nat, xs: seq<F>, k: nat, s: State<F>)
    requires Reached(c, cap, xs, k, s) && |s.times| >= cap
    ensures Encode(c, cap, xs) == s
    decreases |xs|
  {
    hide Tick, Fire;
    if k == |xs| {
      ReachedEnd(c, cap, xs, s);
    } else {
      assert xs[..|xs| - 1][..k] == xs[..k];
      ReachedFull(c, cap, xs[..|xs| - 1], k, s);
    }
  }

  lemma {:induction false} ReachedEnd<F>(c: Config<F>, cap: nat, xs: seq<F>, s: State<F>)
    requires Reached(c, cap, xs, |xs|, s)
    ensures Encode(c, cap, xs) == s
  {
    assert xs[..|xs|] == xs;
  }

  // ---------------------------------------------------------------------------------------
  // Spacing and counting
  // ---------------------------------------------------------------------------------------

  /** Consecutive spikes are at least `gap` pairs apart. */
  predicate Spaced(times: seq<nat>, gap: nat) {
    forall j :: 0 < j < |times| ==> times[j - 1] + gap <= times[j]
  }

  /** After `k` pairs: spikes lie in the past, are spaced, and the timer covers what is missing to
      the next allowed one. */
  predicate Paced<F(==)>(c: Config<F>, s: State<F>, k: nat, cap: nat) {
    |s.times| <= cap && Spaced(s.times, c.refractory) && Spaced(s.times, 1) &&
    (s.times != [] ==>
      var last := s.times[|s.times| - 1];
      last < k && (|s.times| < cap ==> last + c.refractory <= k + s.refractory)) &&
    (c.window == 0 ==> s.times == [])
  }

  lemma {:induction false} EncodePaced<F>(c: Config<F>, cap: nat, xs: seq<F>)
    ensures Paced(c, Encode(c, cap, xs), |xs|, cap)
  {
    hide Fire, Tick, Paced;
    if xs == [] {
      PacedStart(c, cap);
    } else {
      var k := |xs| - 1;
      var s := Encode(c, cap, xs[..k]);
      EncodePaced(c, cap, xs[..k]);
      PacedStep(c, s, k, cap, xs[k]);
    }
  }

  lemma {:induction false} PacedStart<F>(c: Config<F>, cap: nat)
    ensures Paced(c, Start(c), 0, cap)
  {
  }

  lemma {:induction false} PacedStep<F>(c: Config<F>, s: State<F>, k: nat, cap: nat, x: F)
    requires Paced(c, s, k, cap)
    ensures Paced(c, if |s.times| >= cap then s else Tick(c, Fire(c, s, k, x)), k + 1, cap)
  {
  }

  /** Spikes are at least the refractory period apart, in I/Q pairs; none without a window. */
  lemma {:induction false} SpikesSpaced<F>(c: Config<F>, cap: nat, xs: seq<F>)
    ensures var times := Encode(c, cap, xs).times;
      Spaced(times, c.refractory) && |times| <= cap &&
      (forall j :: 0 <= j < |times| ==> times[j] < |xs|) && (c.window == 0 ==> times == [])
  {
    EncodePaced(c, cap, xs);
    var times := Encode(c, cap, xs).times;
    forall j | 0 <= j < |times|
      ensures times[j] < |xs|
    {
      SpacedSpan(times, 1, j, |times| - 1);
    }
  }

  lemma {:induction false} SpacedSpan(times: seq<nat>, gap: nat, i: nat, j: nat)
    requires Spaced(times, gap) && i <= j < |times|
    ensures times[i] + gap * (j - i) <= times[j]
  {
    if i < j {
      SpacedSpan(times, gap, i, j - 1);
      assert gap * (j - i) == gap * (j - 1 - i) + gap;
    }
  }

  /** With a refractory period of R pairs, n spikes need more than (n - 1) * R pairs. */
  lemma {:induction false} SpikeCountBounded<F>(c: Config<F>, cap: nat, xs: seq<F>)
    ensures var n := |Encode(c, cap, xs).times|;
      n <= cap && (n > 0 ==> c.refractory * (n - 1) < |xs|)
  {
    SpikesSpaced(c, cap, xs);
    var times := Encode(c, cap, xs).times;
    if times != [] {
      SpacedSpan(times, c.refractory, 0, |times| - 1);
    }
  }

  // ---------------------------------------------------------------------------------------
  // When a spike occurs
  // ---------------------------------------------------------------------------------------

  /** Where the windows are counted from: the pair behind the last spike, or the first one. */
  function Origin(times: seq<nat>): nat {
    if times == [] then 0 else times[|times| - 1] + 1
  }

  /** How far pair `k` is into its window; a window has one pair more than configured. */
  function Phase<F(==)>(c: Config<F>, times: seq<nat>, k: nat): (p: nat)
    requires Origin(times) <= k
    ensures p <= c.window && p <= k
  {
    var n := k - Origin(times);
    n % (c.window + 1)
  }

  /** The first pair the refractory period after the last spike admits. */
  function Admitted<F(==)>(c: Config<F>, times: seq<nat>): nat {
    if times == [] then 0 else times[|times| - 1] + c.refractory
  }

  /** The pair from which the membrane has been summing when pair `k` arrives. */
  function SummedFrom<F(==)>(c: Config<F>, times: seq<nat>, k: nat): nat
    requires Origin(times) <= k
  {
    var from := k - Phase(c, times, k);
    if from < Admitted(c, times) then Admitted(c, times) else from
  }

  /** A spike at pair `k`, with `times` so far. */
  predicate Fires<F(==)>(c: Config<F>, cap: nat, xs: seq<F>, times: seq<nat>, k: nat)
    requires Origin(times) <= k < |xs|
  {
    |times| < cap && k >= Admitted(c, times) && Phase(c, times, k) < c.window &&
    c.arith.atLeast(LeakySum(c.arith, c.leak, xs, SummedFrom(c, times, k), k + 1), c.threshold)
  }

  /** The registers after `k` pairs, read off the spike times and the intensities. */
  predicate Timed<F(==)>(c: Config<F>, xs: seq<F>, k: nat, s: State<F>)
    requires k <= |xs|
  {
    Origin(s.times) <= k && s.window == Phase(c, s.times, k) &&
    s.refractory == (if Admitted(c, s.times) > k then Admitted(c, s.times) - k else 0) &&
    s.membrane == LeakySum(c.arith, c.leak, xs, SummedFrom(c, s.times, k), k)
  }

  /** One pair without a spike. */
  lemma {:induction false} QuietStep<F>(c: Config<F>, xs: seq<F>, k: nat, s: State<F>)
    requires k < |xs| && Timed(c, xs, k, s)
    requires Fire(c, s, k, xs[k]).times == s.times
    ensures Timed(c, xs, k + 1, Tick(c, Fire(c, s, k, xs[k])))
  {
    NextRemainder(k - Origin(s.times), c.window + 1);
  }

  lemma {:induction false} SpikeStep<F>(c: Config<F>, xs: seq<F>, k: nat, s: State<F>)
    requires k < |xs| && Timed(c, xs, k, s)
    requires Fire(c, s, k, xs[k]).times != s.times
    ensures Timed(c, xs, k + 1, Tick(c, Fire(c, s, k, xs[k])))
  {
    hide LeakySum, Phase;
    var times := s.times + [k];
    PhaseStart(c, times, k + 1);
    NothingSummed(c.arith, c.leak, xs, SummedFrom(c, times, k + 1), k + 1);
  }

  lemma {:induction false} PhaseStart<F>(c: Config<F>, times: seq<nat>, k: nat)
    requires Origin(times) == k
    ensures Phase(c, times, k) == 0
  {
  }

  /** With room in the buffer, the decision at the next pair. */
  lemma {:induction false} FiresIff<F>(c: Config<F>, cap: nat, xs: seq<F>, k: nat, s: State<F>)
    requires k < |xs| && Timed(c, xs, k, s) && |s.times| < cap
    ensures Fire(c, s, k, xs[k]).times == s.times + if Fires(c, cap, xs, s.times, k) then [k] else []
  {
    hide Phase;
  }

  lemma {:induction false} EncodeTimed<F>(c: Config<F>, cap: nat, xs: seq<F>, k: nat)
    requires k <= |xs|
    ensures var s := Encode(c, cap, xs[..k]);
      Origin(s.times) <= k && (|s.times| < cap ==> Timed(c, xs, k, s))
  {
    if k > 0 {
      EncodeTimed(c, cap, xs, k - 1);
      assert xs[..k][..k - 1] == xs[..k - 1];
      var s := Encode(c, cap, xs[..k - 1]);
      if |s.times| < cap {
        FiresIff(c, cap, xs, k - 1, s);
        if Fire(c, s, k - 1, xs[k - 1]).times == s.times {
          QuietStep(c, xs, k - 1, s);
        } else {
          SpikeStep(c, xs, k - 1, s);
        }
      }
    }
  }

  /** Every spike, exactly: with room in the buffer, pair `k` is a spike if and only if it is at least
      the refractory period behind the last one, not the last pair of its window, and the leaky sum
      since the membrane was last cleared reaches the threshold. */
  lemma {:induction false} SpikesIff<F>(c: Config<F>, cap: nat, xs: seq<F>, k: nat)
    requires k < |xs|
    ensures var times := Encode(c, cap, xs[..k]).times;
      Origin(times) <= k &&
      Encode(c, cap, xs[..k + 1]).times == times + if Fires(c, cap, xs, times, k) then [k] else []
  {
    EncodeTimed(c, cap, xs, k);
    assert xs[..k + 1][..k] == xs[..k];
    var s := Encode(c, cap, xs[..k]);
    if |s.times| < cap {
      FiresIff(c, cap, xs, k, s);
    }
  }
}

/** The spike-timing learning rule on 8-bit weights. */
module Stdp {
  import opened Prelude

  type Weight = w: int | -128 <= w <= 127

  /** The floating-point part: the two branches of the curve at a signed time difference, and the
      rounding of an exact sum. An infinite curve value stands as a large number. */
  datatype FloatOps = FloatOps(potentiate: int -> real, depress: int -> real, round: real -> real)

  function Half(k: int): real {
    k as real / 2.0
  }

  /** The gap to the next integer is not rounded away at `w`. */
  predicate Below(f: FloatOps, w: int, s: real) {
    f.round(w as real + s) < (w + 1) as real
  }

  /** What IEEE arithmetic guarantees. The curve keeps its sign, decays with the time difference, and
      is below one half (its amplitude is 0.01) where the difference is not negative. Rounding is
      monotone, odd, exact on half-integers in range, and no finer further from zero. */
  ghost predicate Sound(f: FloatOps) {
    CurveSound(f) && RoundSound(f) && Coarser(f)
  }

  ghost predicate CurveSound(f: FloatOps) {
    (forall d: int :: f.potentiate(d) >= 0.0 && f.depress(d) <= 0.0) &&
    (forall d: int, e: int :: d <= e ==> f.potentiate(e) <= f.potentiate(d) && f.depress(d) <= f.depress(e)) &&
    forall d: int :: d >= 0 ==> f.potentiate(d) < 0.5 && f.depress(d) > -0.5
  }

  ghost predicate RoundSound(f: FloatOps) {
    (forall x: real, y: real :: x <= y ==> f.round(x) <= f.round(y)) &&
    (forall x: real :: f.round(-x) == -f.round(x)) &&
    forall k: int :: -512 <= k <= 512 ==> f.round(Half(k)) == Half(k)
  }

  ghost predicate Coarser(f: FloatOps) {
    forall w: int, v: int, s: real :: 0 <= w <= v <= 126 && s >= 0.0 && Below(f, v, s) ==> Below(f, w, s)
  }

  /** The conversion of a float to an integer truncates toward zero. */
  function Truncate(x: real): int {
    if x >= 0.0 then x.Floor else -((-x).Floor)
  }

  /** The value added for two spike times. */
  function Update(f: FloatOps, pre: nat, post: nat): real {
    if pre < post then f.potentiate(Signed(post - pre)) else f.depress(Signed(pre - post))
  }

  function Clamp(v: real): (c: real)
    ensures -127.0 <= c <= 127.0
  {
    if v > 127.0 then 127.0 else if v < -127.0 then -127.0 else v
  }

  /** One weight with its presynaptic and postsynaptic spike times. */
  function Learn(f: FloatOps, pre: nat, post: nat, w: Weight): (w': Weight)
    requires pre < U32 && post < U32
  {
    if pre == 0 || post == 0 then w else Truncate(Clamp(f.round(w as real + Update(f, pre, post))))
  }

  predicate Times(ts: seq<nat>, n: nat) {
    n <= |ts| && forall k :: 0 <= k < n ==> ts[k] < U32
  }

  /** snn_apply_stdp_learning. */
  method ApplyStdpLearning(f: FloatOps, pre: Option<seq<nat>>, post: Option<seq<nat>>,
                           weights: array?<Weight>, count: nat)
    requires pre.Some? && post.Some? && weights != null ==>
      Times(pre.value, count) && Times(post.value, count) && count <= weights.Length
    modifies weights
    ensures pre.Some? && post.Some? && weights != null ==>
      (forall k :: 0 <= k < count ==> weights[k] == Learn(f, pre.value[k], post.value[k], old(weights[k]))) &&
      forall k :: count <= k < weights.Length ==> weights[k] == old(weights[k])
    ensures weights != null && (pre.None? || post.None?) ==> weights[..] == old(weights[..])
  {
    if pre.None? || post.None? || weights == null {
      return;
    }
    for i := 0 to count
      invariant forall k :: 0 <= k < i ==>
        weights[k] == Learn(f, pre.value[k], post.value[k], old(weights[k]))
      invariant forall k :: i <= k < weights.Length ==> weights[k] == old(weights[k])
    {
      var a, b := pre.value[i], post.value[i];
      if a > 0 && b > 0 {
        var delta, isPrePost;
        if a < b {
          delta, isPrePost := Signed(b - a), true;
        } else {
          delta, isPrePost := Signed(a - b), false;
        }
        var s := if isPrePost then f.potentiate(delta) else f.depress(delta);
        var v := f.round(weights[i] as real + s);
        if v > 127.0 {
          v := 127.0;
        } else if v < -127.0 {
          v := -127.0;
        }
        weights[i] := Truncate(v);
      }
    }
  }

  function Magnitude(w: int): nat {
    if w < 0 then -w else w
  }

  /** Spike times closer than 2^31 cycles, so that the cast to a signed integer keeps the sign. */
  predicate Close(pre: nat, post: nat) {
    pre - 0x8000_0000 < post < pre + 0x8000_0000
  }

  /** Unchanged, or one step closer to zero on the same side. */
  predicate TowardZero(w: Weight, w': Weight) {
    w' == w || (w > 0 && w' == w - 1) || (w < 0 && w' == w + 1)
  }

  function Abs(x: real): real {
    if x < 0.0 then -x else x
  }

  /** Adding the update's magnitude to 126 does not reach 127: one addition, made before the call. */
  predicate Small(f: FloatOps, s: real) {
    Below(f, 126, Abs(s))
  }

  /** What `Sound` says of one sum, for a non-negative update. */
  lemma {:induction false} RoundedSum(f: FloatOps, w: int, s: real)
    requires Sound(f) && -128 <= w <= 128 && s >= 0.0
    ensures f.round(w as real + s) >= w as real
    ensures s <= 1.0 ==> f.round(w as real + s) <= (w + 1) as real
    ensures f.round(-(w as real + s)) == -f.round(w as real + s)
  {
    assert Half(2 * w) == w as real && Half(2 * w + 2) == (w + 1) as real;
    assert f.round(Half(2 * w)) == w as real && f.round(Half(2 * w + 2)) == (w + 1) as real;
  }

  /** A small update is less than one. */
  lemma {:induction false} SmallBelowOne(f: FloatOps, s: real)
    requires Sound(f) && s >= 0.0 && Small(f, s)
    ensures s < 1.0
  {
    assert Half(254) == 127.0 && f.round(Half(254)) == 127.0;
    assert 127.0 <= 126.0 + s ==> f.round(127.0) <= f.round(126.0 + s);
  }

  /** Weight `w` after adding a non-negative update, before the sign is put back. */
  function Bump(f: FloatOps, w: int, s: real): int {
    Truncate(Clamp(f.round(w as real + s)))
  }

  lemma {:induction false} SmallBump(f: FloatOps, w: Weight, s: real)
    requires Sound(f) && s >= 0.0 && Small(f, s)
    ensures TowardZero(w, Bump(f, w, s)) && (w >= 0 ==> Bump(f, w, s) == w)
  {
    hide Sound;
    SmallBelowOne(f, s);
    RoundedSum(f, w, s);
    if 0 <= w <= 126 {
      CoarserAtTop(f, w, s);
    }
  }

  lemma {:induction false} CoarserAtTop(f: FloatOps, w: int, s: real)
    requires Sound(f) && s >= 0.0 && Small(f, s) && 0 <= w <= 126
    ensures Below(f, w, s)
  {
  }

  lemma {:induction false} LargeBump(f: FloatOps, s: real)
    requires s >= 0.0 && !Small(f, s)
    ensures Bump(f, 126, s) == 127
  {
  }

  /** Depressing is bumping the negated weight. */
  lemma {:induction false} DepressMirrors(f: FloatOps, w: int, s: real)
    requires Sound(f) && s <= 0.0
    ensures Truncate(Clamp(f.round(w as real + s))) == -Bump(f, -w, -s)
  {
    assert w as real + s == -((-w) as real + -s);
  }

  /** The bump of 128, the mirror image of weight -128. */
  lemma {:induction false} TopBump(f: FloatOps, s: real)
    requires Sound(f) && s >= 0.0
    ensures Bump(f, 128, s) == 127
  {
    RoundedSum(f, 128, s);
  }

  /** Learning only forgets: a small update leaves a weight alone or moves it one step toward zero.
      Potentiation never raises a weight that is not negative, and depression never lowers one that
      is not positive. */
  lemma {:induction false} LearnMovesTowardZero(f: FloatOps, pre: nat, post: nat, w: Weight)
    requires Sound(f) && pre < U32 && post < U32
    requires pre == 0 || post == 0 || Small(f, Update(f, pre, post))
    ensures TowardZero(w, Learn(f, pre, post, w))
    ensures pre < post && w >= 0 ==> Learn(f, pre, post, w) == w
    ensures pre >= post && -127 <= w <= 0 ==> Learn(f, pre, post, w) == w
  {
    if pre != 0 && post != 0 {
      var s := Update(f, pre, post);
      UpdateSign(f, pre, post);
      hide Sound, Update;
      if pre < post {
        SmallBump(f, w, s);
      } else {
        DepressMirrors(f, w, s);
        if w == -128 {
          TopBump(f, -s);
        } else {
          SmallBump(f, -w, -s);
        }
      }
    }
  }

  /** When a small update moves a weight: exactly when both times are there and the rounded sum is not
      the weight itself but on the side of zero, or the weight is -128. */
  lemma {:induction false} LearnMovesIff(f: FloatOps, pre: nat, post: nat, w: Weight)
    requires Sound(f) && pre < U32 && post < U32
    requires pre == 0 || post == 0 || Small(f, Update(f, pre, post))
    ensures Learn(f, pre, post, w) != w <==>
      pre != 0 && post != 0 &&
      (w == -128 || (pre < post && w < 0 && f.round(w as real + f.potentiate(Signed(post - pre))) > w as real) ||
       (pre >= post && w > 0 && f.round(w as real + f.depress(Signed(pre - post))) < w as real))
  {
    LearnMovesTowardZero(f, pre, post, w);
    if pre != 0 && post != 0 {
      var s := Update(f, pre, post);
      var v := f.round(w as real + s);
      UpdateSign(f, pre, post);
      SumBetween(f, w, s);
      hide Sound, Small, Truncate;
      if pre < post && w < 0 {
        TruncateUp(w, v);
        TruncateUp(-127, -127.0);
      } else if pre >= post && w > 0 {
        TruncateDown(w, v);
      } else if w == -128 {
        TruncateUp(-127, -127.0);
      }
    }
  }

  /** The rounded sum of a small update lies between the weight and its neighbour. */
  lemma {:induction false} SumBetween(f: FloatOps, w: int, s: real)
    requires Sound(f) && Small(f, s) && -128 <= w <= 127
    ensures var v := f.round(w as real + s);
      (s >= 0.0 ==> w as real <= v <= (w + 1) as real) && (s <= 0.0 ==> (w - 1) as real <= v <= w as real)
  {
    hide Sound;
    if s >= 0.0 {
      SmallBelowOne(f, s);
      RoundedSum(f, w, s);
    }
    if s <= 0.0 {
      SmallBelowOne(f, -s);
      RoundedSum(f, -w, -s);
      assert w as real + s == -((-w) as real + -s);
    }
  }

  lemma {:induction false} TruncateUp(w: int, v: real)
    requires w < 0 && w as real <= v <= (w + 1) as real
    ensures Truncate(v) == if v > w as real then w + 1 else w
  {
  }

  lemma {:induction false} TruncateDown(w: int, v: real)
    requires w > 0 && (w - 1) as real <= v <= w as real
    ensures Truncate(v) == if v < w as real then w - 1 else w
  {
  }

  lemma {:induction false} UpdateSign(f: FloatOps, pre: nat, post: nat)
    requires Sound(f)
    ensures var s := Update(f, pre, post); if pre < post then s >= 0.0 else s <= 0.0
  {
  }

  /** The exact condition, for each sound arithmetic: an update moves every weight toward zero if and
      only if a time is missing or adding its magnitude to 126 does not reach 127. */
  lemma {:induction false} TowardZeroIff(f: FloatOps, pre: nat, post: nat)
    requires Sound(f) && pre < U32 && post < U32
    ensures (forall w: Weight :: TowardZero(w, Learn(f, pre, post, w))) <==>
            pre == 0 || post == 0 || Small(f, Update(f, pre, post))
  {
    if pre == 0 || post == 0 || Small(f, Update(f, pre, post)) {
      forall w: Weight
        ensures TowardZero(w, Learn(f, pre, post, w))
      {
        LearnMovesTowardZero(f, pre, post, w);
      }
    } else {
      var s := Update(f, pre, post);
      UpdateSign(f, pre, post);
      LargeBump(f, Abs(s));
      if pre >= post {
        DepressMirrors(f, -126, s);
        assert Learn(f, pre, post, -126) == -127 && !TowardZero(-126, -127);
      } else {
        assert Learn(f, pre, post, 126) == 127 && !TowardZero(126, 127);
      }
    }
  }

  /** Updates below one half are small, so times closer than 2^31 cycles always are; updates of one
      or more never are, and then even weight 0 moves away. */
  lemma {:induction false} SmallBetween(f: FloatOps, s: real)
    requires Sound(f)
    ensures Abs(s) < 0.5 ==> Small(f, s)
    ensures Abs(s) >= 1.0 ==> !Small(f, s) && Truncate(Clamp(f.round(s))) != 0
  {
    assert Half(253) == 126.5 && f.round(Half(253)) == 126.5;
    assert Half(254) == 127.0 && f.round(Half(254)) == 127.0;
    assert Half(2) == 1.0 && f.round(Half(2)) == 1.0;
    if Abs(s) < 0.5 {
      assert f.round(126.0 + Abs(s)) <= f.round(126.5);
    } else if Abs(s) >= 1.0 {
      assert f.round(127.0) <= f.round(126.0 + Abs(s));
      assert f.round(1.0) <= f.round(Abs(s));
      assert f.round(-Abs(s)) == -f.round(Abs(s));
    }
  }

  /** Exact sums and a curve that, like the exponential, explodes at negative differences. */
  const EXPLODING := FloatOps((d: int) => if d < 0 then 200.0 else 0.0,
                              (d: int) => if d < 0 then -200.0 else 0.0, (x: real) => x)

  lemma {:induction false} ExplodingSound()
    ensures Sound(EXPLODING)
  {
    assert CurveSound(EXPLODING) by {
      hide Half, Below;
    }
    assert RoundSound(EXPLODING) by {
      hide Half, Below;
    }
    forall w: int, v: int, s: real | 0 <= w <= v <= 126 && s >= 0.0 && Below(EXPLODING, v, s)
      ensures Below(EXPLODING, w, s)
    {
      ExactBelow(v, s);
      ExactBelow(w, s);
    }
  }

  lemma {:induction false} ExactBelow(w: int, s: real)
    ensures Below(EXPLODING, w, s) <==> s < 1.0
  {
  }

  /** Such an arithmetic is sound, and under it spike times 2^31 or more apart saturate weight 0. */
  lemma {:induction false} FarTimesCanSaturate(pre: nat, post: nat)
    requires 0 < pre < U32 && 0 < post < U32 && !Close(pre, post)
    ensures Sound(EXPLODING)
    ensures Learn(EXPLODING, pre, post, 0) == if pre < post then 127 else -127
  {
    hide CurveSound, RoundSound, Coarser;
    ExplodingSound();
  }

  lemma {:induction false} CloseIsSmall(f: FloatOps, pre: nat, post: nat)
    requires Sound(f) && pre < U32 && post < U32 && Close(pre, post)
    ensures Small(f, Update(f, pre, post))
  {
    SmallBetween(f, Update(f, pre, post));
  }

  /** Small updates are those from one signed difference upward: where one is small, so is every
      update of the same order with a greater signed difference. */
  lemma {:induction false} SmallUpward(f: FloatOps, pre: nat, post: nat, pre': nat, post': nat)
    requires Sound(f) && Small(f, Update(f, pre, post)) && (pre < post <==> pre' < post')
    requires pre < post ==> Signed(post - pre) <= Signed(post' - pre')
    requires pre >= post ==> Signed(pre - post) <= Signed(pre' - post')
    ensures Small(f, Update(f, pre', post'))
  {
    UpdateSign(f, pre, post);
    UpdateSign(f, pre', post');
    var s, s' := Abs(Update(f, pre, post)), Abs(Update(f, pre', post'));
    assert s' <= s;
    assert f.round(126.0 + s') <= f.round(126.0 + s);
  }

  // ---------------------------------------------------------------------------------------
  // Whole training runs
  // ---------------------------------------------------------------------------------------

  /** The spike times passed to one learning call, one pair per weight. */
  type Session = seq<(nat, nat)>

  /** The update of every pair of times is small. */
  predicate ValidSession(f: FloatOps, s: Session, n: nat) {
    |s| == n &&
    forall k :: 0 <= k < n ==>
      s[k].0 < U32 && s[k].1 < U32 && (s[k].0 == 0 || s[k].1 == 0 || Small(f, Update(f, s[k].0, s[k].1)))
  }

  predicate ValidSessions(f: FloatOps, ss: seq<Session>, n: nat) {
    forall k :: 0 <= k < |ss| ==> ValidSession(f, ss[k], n)
  }

  function LearnAll(f: FloatOps, s: Session, ws: seq<Weight>): (ws': seq<Weight>)
    requires |s| == |ws| && forall k :: 0 <= k < |s| ==> s[k].0 < U32 && s[k].1 < U32
    ensures |ws'| == |ws| && forall k :: 0 <= k < |ws| ==> ws'[k] == Learn(f, s[k].0, s[k].1, ws[k])
  {
    seq(|ws|, k requires 0 <= k < |ws| => Learn(f, s[k].0, s[k].1, ws[k]))
  }

  function TotalMagnitude(ws: seq<Weight>): nat {
    if ws == [] then 0 else Magnitude(ws[0]) + TotalMagnitude(ws[1..])
  }

  /** How many weights differ. */
  function Changes(ws: seq<Weight>, ws': seq<Weight>): nat
    requires |ws| == |ws'|
  {
    if ws == [] then 0 else (if ws[0] != ws'[0] then 1 else 0) + Changes(ws[1..], ws'[1..])
  }

  ghost function Train(f: FloatOps, ss: seq<Session>, ws: seq<Weight>): (ws': seq<Weight>)
    requires ValidSessions(f, ss, |ws|)
    ensures |ws'| == |ws|
  {
    if ss == [] then ws
    else
      assert ValidSession(f, ss[|ss| - 1], |ws|);
      LearnAll(f, ss[|ss| - 1], Train(f, ss[..|ss| - 1], ws))
  }

  ghost function TotalChanges(f: FloatOps, ss: seq<Session>, ws: seq<Weight>): nat
    requires ValidSessions(f, ss, |ws|)
  {
    if ss == [] then 0
    else
      var front := ss[..|ss| - 1];
      TotalChanges(f, front, ws) + Changes(Train(f, front, ws), Train(f, ss, ws))
  }

  lemma {:induction false} StepConserves(ws: seq<Weight>, ws': seq<Weight>)
    requires |ws| == |ws'| && forall k :: 0 <= k < |ws| ==> TowardZero(ws[k], ws'[k])
    ensures TotalMagnitude(ws) == TotalMagnitude(ws') + Changes(ws, ws')
    decreases |ws|
  {
    if ws != [] {
      assert TowardZero(ws[0], ws'[0]);
      StepConserves(ws[1..], ws'[1..]);
    }
  }

  /** Conservation over any training run: the initial total magnitude is what is left of it plus
      the number of weight changes, so there are never more changes than that. */
  lemma {:induction false} TrainingConserves(f: FloatOps, ss: seq<Session>, ws: seq<Weight>)
    requires Sound(f) && ValidSessions(f, ss, |ws|)
    ensures TotalMagnitude(ws) == TotalMagnitude(Train(f, ss, ws)) + TotalChanges(f, ss, ws)
  {
    if ss != [] {
      var front, last := ss[..|ss| - 1], ss[|ss| - 1];
      TrainingConserves(f, front, ws);
      assert ValidSession(f, last, |ws|);
      var now, next := Train(f, front, ws), Train(f, ss, ws);
      forall k | 0 <= k < |ws|
        ensures TowardZero(now[k], next[k])
      {
        LearnMovesTowardZero(f, last[k].0, last[k].1, now[k]);
      }
      StepConserves(now, next);
    }
  }
}
