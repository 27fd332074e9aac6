/**
 * The physical-layer rate model of `QuantumNetwork`: the heralded
 * entanglement rate of a single fibre link and the recursive
 * entanglement-swapping composition of link rates along a path, both with
 * the hard memory-decoherence cutoff.
 *
 * Rates are Dafny `real`s. The exponential attenuation `np.exp` is a
 * parameter `exp` of the model; the model only asks that it yields a value
 * in [0, 1] on the (non-positive) arguments it is applied to.
 */
module RateModel {
  import opened Topology

  /** The constant physical parameters of the network (never updated) */
  datatype QuantumNetwork = QuantumNetwork(
    p_ht: real,   // atom-photon entanglement probability
    v_h: real,    // herald detector efficiency
    v_t: real,    // telecom detector efficiency
    v_o: real,    // optical Bell-state-measurement efficiency
    v_a: real,    // atomic Bell-state-measurement (swap) efficiency
    L0: real,     // attenuation length (m)
    c_f: real,    // light speed in fibre (m/s)
    tau_p: real,  // atom pulse duration (s)
    tau_h: real,  // herald detection time (s)
    tau_t: real,  // telecom detection time (s)
    tau_d: real,  // atom cooling time (s)
    tau_o: real,  // optical BSM duration (s)
    tau_a: real,  // atomic BSM duration (s)
    T_ch: real    // quantum memory coherence time (s)
  )

  /**
   * Physically meaningful parameters: probabilities and efficiencies in
   * [0, 1] (the swap efficiency, a divisor, strictly positive), lengths,
   * speeds and durations strictly positive, coherence time non-negative.
   */
  predicate ValidNetwork(net: QuantumNetwork) {
    && 0.0 <= net.p_ht <= 1.0
    && 0.0 <= net.v_h <= 1.0
    && 0.0 <= net.v_t <= 1.0
    && 0.0 <= net.v_o <= 1.0
    && 0.0 < net.v_a <= 1.0
    && net.L0 > 0.0
    && net.c_f > 0.0
    && net.tau_p > 0.0
    && net.tau_h > 0.0
    && net.tau_t > 0.0
    && net.tau_d > 0.0
    && net.tau_o > 0.0
    && net.tau_a > 0.0
    && net.T_ch >= 0.0
  }

  /** The default parameters of the constructor */
  function DefaultNetwork(): (net: QuantumNetwork)
    ensures ValidNetwork(net)
    ensures net.T_ch == 0.01 && net.c_f == 200000000.0 && net.L0 == 22000.0
  {
    QuantumNetwork(
      0.53, 0.8, 0.8, 0.39, 0.39,
      22000.0, 200000000.0,
      0.0000059, 0.00002, 0.00001, 0.0001, 0.00001, 0.00001,
      0.01)
  }

  function Max(a: real, b: real): real {
    if a >= b then a else b
  }

  /** The attenuation model: values in [0, 1] on non-positive arguments, growing with its argument */
  ghost predicate Attenuates(exp: real -> real) {
    && (forall x :: x <= 0.0 ==> 0.0 <= exp(x) <= 1.0)
    && (forall x, y :: x <= y <= 0.0 ==> exp(x) <= exp(y))
  }

  /** What a link of length `d` needs: a non-negative length and an attenuation factor in [0, 1] */
  predicate LinkInput(net: QuantumNetwork, exp: real -> real, d: real)
    requires ValidNetwork(net)
  {
    d >= 0.0 && 0.0 <= exp(-d / net.L0) <= 1.0
  }

  lemma UnitProduct(a: real, b: real)
    requires 0.0 <= a <= 1.0 && 0.0 <= b <= 1.0
    ensures 0.0 <= a * b <= 1.0
  {
    ProductMonotone(0.0, 0.0, a, b);
    ProductMonotone(a, b, 1.0, 1.0);
  }

  lemma ProductMonotone(a: real, b: real, c: real, d: real)
    requires 0.0 <= a <= c && 0.0 <= b <= d
    ensures a * b <= c * d
  {
    assert a * b <= c * b;
    assert c * b <= c * d;
  }

  /** The distance-independent factor of the success probability: 0.5 v_o (p_ht v_h v_t)^2 */
  function LinkEfficiency(net: QuantumNetwork): (c: real)
    requires ValidNetwork(net)
    ensures 0.0 <= c <= 0.5
  {
    var q := net.p_ht * net.v_h * net.v_t;
    UnitProduct(net.p_ht, net.v_h);
    UnitProduct(net.p_ht * net.v_h, net.v_t);
    UnitProduct(q, q);
    UnitProduct(net.v_o, q * q);
    assert 0.5 * net.v_o * (q * q) == 0.5 * (net.v_o * (q * q));
    0.5 * net.v_o * (q * q)
  }

  /** Probability that one link attempt heralds success: 0.5 v_o (p_ht v_h v_t)^2 exp(-d/L0) */
  function SuccessProbability(net: QuantumNetwork, exp: real -> real, d: real): (p: real)
    requires ValidNetwork(net) && LinkInput(net, exp, d)
    ensures 0.0 <= p <= 0.5
  {
    var c := LinkEfficiency(net);
    ProductMonotone(0.0, 0.0, c, exp(-d / net.L0));
    ProductMonotone(c, exp(-d / net.L0), 0.5, 1.0);
    c * exp(-d / net.L0)
  }

  /** Signal time of one attempt: the telecom and optical detection times plus the fibre delay of both halves of the link */
  function RoundTrip(net: QuantumNetwork, d: real): (tau: real)
    requires ValidNetwork(net) && d >= 0.0
    ensures tau >= net.tau_t + net.tau_o
    ensures tau == net.tau_t + net.tau_o + d / net.c_f
  {
    net.tau_t + (d / (2.0 * net.c_f)) + net.tau_o + (d / (2.0 * net.c_f))
  }

  /** Duration of a successful attempt */
  function SuccessTime(net: QuantumNetwork, tau: real): real
    requires ValidNetwork(net)
  {
    net.tau_p + Max(net.tau_h, tau)
  }

  /** Duration of a failed attempt, which also pays the cooling time */
  function FailureTime(net: QuantumNetwork, tau: real): real
    requires ValidNetwork(net)
  {
    net.tau_p + Max(Max(net.tau_h, tau), net.tau_d)
  }

  /**
   * The link entanglement rate. Zero when the coherence time is shorter
   * than the signal time (the cutoff is strict), and zero when the success
   * probability is zero (the expected time is then infinite and its
   * reciprocal zero); otherwise the reciprocal of the expected time per
   * success, ((1 - p) T_fail + p T_success) / p.
   */
  function LinkRate(net: QuantumNetwork, exp: real -> real, d: real): (r: real)
    requires ValidNetwork(net) && LinkInput(net, exp, d)
    ensures r >= 0.0
    ensures r == 0.0 <==> net.T_ch < RoundTrip(net, d) || SuccessProbability(net, exp, d) == 0.0
    ensures r <= 1.0 / SuccessTime(net, RoundTrip(net, d))
  {
    var p := SuccessProbability(net, exp, d);
    var tau := RoundTrip(net, d);
    var ts := SuccessTime(net, tau);
    var tf := FailureTime(net, tau);
    if net.T_ch < tau then 0.0
    else if p == 0.0 then 0.0
    else
      ExpectedTimeBound(p, ts, tf);
      1.0 / ExpectedTime(p, ts, tf)
  }

  /** Expected time per successful generation: failed attempts until the first success, then the success */
  function ExpectedTime(p: real, ts: real, tf: real): real
    requires p != 0.0
  {
    ((1.0 - p) * tf + p * ts) / p
  }

  /** The expected time is the failure time weighted by 1/p - 1, plus one success */
  lemma ExpectedTimeSplit(p: real, ts: real, tf: real)
    requires 0.0 < p
    ensures ExpectedTime(p, ts, tf) == tf * (1.0 / p - 1.0) + ts
  {
    calc {
      ExpectedTime(p, ts, tf);
      ((1.0 - p) * tf + p * ts) / p;
      (1.0 - p) * tf / p + p * ts / p;
      { assert p * ts / p == ts; }
      (1.0 - p) * tf / p + ts;
      { assert (1.0 - p) * tf / p == tf * ((1.0 - p) / p);
        assert (1.0 - p) / p == 1.0 / p - 1.0; }
      tf * (1.0 / p - 1.0) + ts;
    }
  }

  /** The expected time per success is at least one successful attempt */
  lemma ExpectedTimeBound(p: real, ts: real, tf: real)
    requires 0.0 < p <= 1.0 && 0.0 < ts <= tf
    ensures ExpectedTime(p, ts, tf) >= ts
    ensures 0.0 < 1.0 / ExpectedTime(p, ts, tf) <= 1.0 / ts
  {
    ExpectedTimeSplit(p, ts, tf);
    ReciprocalAntitone(p, 1.0);
    ProductMonotone(0.0, 0.0, tf, 1.0 / p - 1.0);
    ReciprocalAntitone(ts, ExpectedTime(p, ts, tf));
  }

  /** Lower success probability and longer attempts never shorten the expected time */
  lemma ExpectedTimeMonotone(p1: real, ts1: real, tf1: real, p2: real, ts2: real, tf2: real)
    requires 0.0 < p2 <= p1 <= 1.0
    requires 0.0 < ts1 <= ts2 && 0.0 < tf1 <= tf2
    ensures ExpectedTime(p1, ts1, tf1) <= ExpectedTime(p2, ts2, tf2)
  {
    ExpectedTimeSplit(p1, ts1, tf1);
    ExpectedTimeSplit(p2, ts2, tf2);
    ReciprocalAntitone(p2, p1);
    ReciprocalAntitone(p1, 1.0);
    ProductMonotone(tf1, 1.0 / p1 - 1.0, tf2, 1.0 / p2 - 1.0);
  }

  lemma ReciprocalAntitone(a: real, b: real)
    requires 0.0 < a <= b
    ensures 0.0 < 1.0 / b <= 1.0 / a
  {
    assert 1.0 / b * b == 1.0;
    assert 1.0 / a * a == 1.0;
  }

  /** A longer link has a lower (or equal) success probability */
  lemma SuccessProbabilityMonotone(net: QuantumNetwork, exp: real -> real, d1: real, d2: real)
    requires ValidNetwork(net) && Attenuates(exp) && 0.0 <= d1 <= d2
    ensures LinkInput(net, exp, d1) && LinkInput(net, exp, d2)
    ensures SuccessProbability(net, exp, d2) <= SuccessProbability(net, exp, d1)
  {
    DivMonotone(d1, d2, net.L0);
    DivMonotone(0.0, d1, net.L0);
    assert -d2 / net.L0 <= -d1 / net.L0 <= 0.0;
    var e1, e2 := exp(-d1 / net.L0), exp(-d2 / net.L0);
    assert 0.0 <= e2 <= e1;
    ProductMonotone(LinkEfficiency(net), e2, LinkEfficiency(net), e1);
  }

  /**
   * A longer link never has a higher rate: the success probability falls,
   * the signal time grows (so the cutoff, once hit, stays hit) and both
   * attempt durations grow.
   */
  lemma LinkRateMonotone(net: QuantumNetwork, exp: real -> real, d1: real, d2: real)
    requires ValidNetwork(net) && Attenuates(exp) && 0.0 <= d1 <= d2
    ensures LinkInput(net, exp, d1) && LinkInput(net, exp, d2)
    ensures LinkRate(net, exp, d2) <= LinkRate(net, exp, d1)
  {
    SuccessProbabilityMonotone(net, exp, d1, d2);
    var p1, p2 := SuccessProbability(net, exp, d1), SuccessProbability(net, exp, d2);
    var tau1, tau2 := RoundTrip(net, d1), RoundTrip(net, d2);
    DivMonotone(d1, d2, net.c_f);
    assert tau1 <= tau2;
    if net.T_ch < tau2 || p2 == 0.0 {
    } else {
      var ts1, tf1 := SuccessTime(net, tau1), FailureTime(net, tau1);
      var ts2, tf2 := SuccessTime(net, tau2), FailureTime(net, tau2);
      ExpectedTimeMonotone(p1, ts1, tf1, p2, ts2, tf2);
      ExpectedTimeBound(p1, ts1, tf1);
      ReciprocalAntitone(ExpectedTime(p1, ts1, tf1), ExpectedTime(p2, ts2, tf2));
    }
  }

  /**
   * With the default parameters a link is cut off exactly when it is longer
   * than 1996 km: the signal time 20 us + d / (2 * 10^8 m/s) then exceeds
   * the 10 ms coherence time.
   */
  lemma DefaultCutoffDistance(d: real)
    requires d >= 0.0
    ensures DefaultNetwork().T_ch < RoundTrip(DefaultNetwork(), d) <==> d > 1996000.0
  {
  }

  /**
   * The source's split of a path at k = |path| / 2 into path[..k+1] and
   * path[k..] (Python slicing clamps an end beyond the length). On paths of
   * three or more nodes both halves are shorter paths that share the middle
   * node and together make up the path; on shorter paths the left half is
   * the whole path, so a recursion on it makes no progress.
   */
  function Split<N>(path: seq<N>): (halves: (seq<N>, seq<N>))
    ensures |path| <= 2 ==> halves.0 == path
    ensures |path| >= 3 ==>
              && 2 <= |halves.0| < |path| && 2 <= |halves.1| < |path|
              && halves.0[|halves.0| - 1] == halves.1[0] == path[|path| / 2]
              && halves.0 + halves.1[1..] == path
  {
    var k := |path| / 2;
    (path[..if k + 1 <= |path| then k + 1 else |path|], path[k..])
  }

  /** A link of the path that exists and has valid inputs */
  predicate ValidLink<N>(net: QuantumNetwork, exp: real -> real, dist: Distances<N>, a: N, b: N)
    requires ValidNetwork(net)
  {
    HasLink(dist, a, b) && LinkInput(net, exp, dist[a][b])
  }

  /** What the end-to-end rate needs of its path: at least two nodes, every consecutive pair a valid link */
  predicate RateInput<N>(net: QuantumNetwork, exp: real -> real, path: seq<N>, dist: Distances<N>) {
    && ValidNetwork(net)
    && |path| >= 2
    && forall i :: 0 <= i < |path| - 1 ==> ValidLink(net, exp, dist, path[i], path[i + 1])
  }

  lemma SubpathInput<N>(net: QuantumNetwork, exp: real -> real, path: seq<N>, dist: Distances<N>, lo: nat, hi: nat)
    requires RateInput(net, exp, path, dist) && lo + 2 <= hi <= |path|
    ensures RateInput(net, exp, path[lo..hi], dist)
  {
    var sub := path[lo..hi];
    forall i | 0 <= i < |sub| - 1
      ensures ValidLink(net, exp, dist, sub[i], sub[i + 1])
    {
      assert sub[i] == path[lo + i] && sub[i + 1] == path[lo + i + 1];
    }
  }

  /**
   * Entanglement swapping of two halves (lines 68-84 of the source): zero
   * when either half is infeasible or when the longer half's waiting time
   * plus the swap exceeds the coherence time (strict cutoff); otherwise the
   * reciprocal of the BSM-corrected swap time. A swap never raises the rate
   * above either half's, and a positive swapped rate is at least
   * v_a / T_ch.
   */
  function SwapRate(net: QuantumNetwork, rl: real, rr: real): (r: real)
    requires ValidNetwork(net) && rl >= 0.0 && rr >= 0.0
    ensures r >= 0.0
    ensures r <= rl && r <= rr
    ensures r == 0.0 <==> rl == 0.0 || rr == 0.0 || net.T_ch < Max(1.0 / rl, 1.0 / rr) + net.tau_a
    ensures r > 0.0 ==> r == net.v_a / (Max(1.0 / rl, 1.0 / rr) + net.tau_a) && r * net.T_ch >= net.v_a
  {
    if rl == 0.0 || rr == 0.0 then 0.0
    else
      var tl := 1.0 / rl;
      var tr := 1.0 / rr;
      var tswap := (Max(tl, tr) + net.tau_a) / net.v_a;
      var tauTotal := Max(tl, tr) + net.tau_a;
      SwapArithmetic(rl, rr, net.v_a, net.tau_a, net.T_ch);
      if net.T_ch < tauTotal then 0.0 else 1.0 / tswap
  }

  lemma SwapArithmetic(rl: real, rr: real, va: real, taua: real, tch: real)
    requires rl > 0.0 && rr > 0.0 && 0.0 < va <= 1.0 && taua > 0.0
    ensures Max(1.0 / rl, 1.0 / rr) + taua > 0.0
    ensures 1.0 / ((Max(1.0 / rl, 1.0 / rr) + taua) / va) == va / (Max(1.0 / rl, 1.0 / rr) + taua)
    ensures 0.0 < va / (Max(1.0 / rl, 1.0 / rr) + taua) <= rl
    ensures va / (Max(1.0 / rl, 1.0 / rr) + taua) <= rr
    ensures tch >= Max(1.0 / rl, 1.0 / rr) + taua ==> va / (Max(1.0 / rl, 1.0 / rr) + taua) * tch >= va
  {
    var w := Max(1.0 / rl, 1.0 / rr) + taua;
    ReciprocalOfReciprocal(rl);
    ReciprocalOfReciprocal(rr);
    SwapTime(w, va);
    ReciprocalAntitone(1.0 / rl, w);
    ReciprocalAntitone(1.0 / rr, w);
    if tch >= w {
      ProductMonotone(va / w, w, va / w, tch);
    }
  }

  lemma DivMonotone(a: real, b: real, c: real)
    requires a <= b && c > 0.0
    ensures a / c <= b / c
  {
    ReciprocalAntitone(c, c + 1.0);
    ProductMonotone(0.0, 0.0, b - a, 1.0 / c);
    assert (b - a) * (1.0 / c) == b / c - a / c;
  }

  lemma ReciprocalOfReciprocal(r: real)
    requires r > 0.0
    ensures 1.0 / r > 0.0 && 1.0 / (1.0 / r) == r
  {
    ReciprocalAntitone(r, r + 1.0);
  }

  lemma SwapTime(w: real, va: real)
    requires w > 0.0 && 0.0 < va <= 1.0
    ensures 1.0 / (w / va) == va / w
    ensures 0.0 < va / w <= 1.0 / w
    ensures va / w * w == va
  {
    assert va / w == va * (1.0 / w);
    ReciprocalAntitone(w, w + 1.0);
    ProductMonotone(va, 1.0 / w, 1.0, 1.0 / w);
    ProductMonotone(0.0, 0.0, va, 1.0 / w);
    assert va * (1.0 / w) != 0.0;
  }

  /**
   * The end-to-end entanglement rate of a path, with the base case at two
   * nodes (a direct link). Each longer path is split at its middle node and
   * the two halves' rates are combined by a swap.
   */
  function EndToEndRate<N>(net: QuantumNetwork, exp: real -> real, path: seq<N>, dist: Distances<N>): (r: real)
    requires RateInput(net, exp, path, dist)
    ensures r >= 0.0
    decreases |path|
  {
    if |path| == 2 then
      assert ValidLink(net, exp, dist, path[0], path[1]);
      LinkRate(net, exp, dist[path[0]][path[1]])
    else
      var k := |path| / 2;
      var halves := Split(path);
      SubpathInput(net, exp, path, dist, 0, k + 1);
      SubpathInput(net, exp, path, dist, k, |path|);
      assert halves.0 == path[0..k + 1];
      SwapRate(net, EndToEndRate(net, exp, halves.0, dist), EndToEndRate(net, exp, halves.1, dist))
  }

  /** No path is faster than its slowest link: every swap level keeps the rate at or below both halves' */
  lemma {:induction false} EndToEndBoundedByLinks<N>(net: QuantumNetwork, exp: real -> real, path: seq<N>, dist: Distances<N>, i: nat)
    requires RateInput(net, exp, path, dist) && i < |path| - 1
    ensures ValidLink(net, exp, dist, path[i], path[i + 1])
    ensures EndToEndRate(net, exp, path, dist) <= LinkRate(net, exp, dist[path[i]][path[i + 1]])
    decreases |path|
  {
    if |path| > 2 {
      var k := |path| / 2;
      var halves := Split(path);
      SubpathInput(net, exp, path, dist, 0, k + 1);
      SubpathInput(net, exp, path, dist, k, |path|);
      assert halves.0 == path[0..k + 1];
      if i < k {
        EndToEndBoundedByLinks(net, exp, halves.0, dist, i);
        assert halves.0[i] == path[i] && halves.0[i + 1] == path[i + 1];
      } else {
        EndToEndBoundedByLinks(net, exp, halves.1, dist, i - k);
        assert halves.1[i - k] == path[i] && halves.1[i - k + 1] == path[i + 1];
      }
    }
  }

  /** A memory that cannot outlast the detection times makes every path infeasible */
  lemma ShortCoherenceInfeasible<N>(net: QuantumNetwork, exp: real -> real, path: seq<N>, dist: Distances<N>)
    requires RateInput(net, exp, path, dist) && net.T_ch < net.tau_t + net.tau_o
    ensures EndToEndRate(net, exp, path, dist) == 0.0
  {
    EndToEndBoundedByLinks(net, exp, path, dist, 0);
  }

  /** What a call of the source's `end_to_end_rate` produces: a rate, or the exception it raises */
  datatype Outcome = Rate(value: real) | IndexError | KeyError | RecursionError

  /**
   * `end_to_end_rate` exactly as the source writes it, with `depth` the
   * interpreter frames still available (Python's recursion limit). The base
   * case fires on one node and then reads the second node; every other
   * length recurses on the split.
   */
  function EndToEndAsWritten<N(==)>(net: QuantumNetwork, path: seq<N>, dist: Distances<N>, depth: nat): (o: Outcome)
    requires ValidNetwork(net)
    ensures o.Rate? ==> o.value >= 0.0
    decreases depth
  {
    if depth == 0 then RecursionError
    else if |path| == 1 then
      if path[0] !in dist then KeyError else IndexError
    else
      var halves := Split(path);
      var left := EndToEndAsWritten(net, halves.0, dist, depth - 1);
      if !left.Rate? then left
      else
        var right := EndToEndAsWritten(net, halves.1, dist, depth - 1);
        if !right.Rate? then right
        else Rate(SwapRate(net, left.value, right.value))
  }

  /**
   * The source's recursion never yields a rate: a one-node path fails on
   * the missing second node, and every other path keeps splitting until
   * the left half is a two-node path that splits into itself, so the
   * recursion limit is reached whatever the depth.
   */
  lemma {:induction false} AsWrittenNeverReturns<N>(net: QuantumNetwork, path: seq<N>, dist: Distances<N>, depth: nat)
    requires ValidNetwork(net)
    ensures EndToEndAsWritten(net, path, dist, depth) ==
              if depth > 0 && |path| == 1 then (if path[0] in dist then IndexError else KeyError)
              else RecursionError
    decreases depth
  {
    if depth > 0 && |path| != 1 {
      var halves := Split(path);
      assert |halves.0| != 1;
      AsWrittenNeverReturns(net, halves.0, dist, depth - 1);
    }
  }
}
