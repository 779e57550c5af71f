/** The precision/recall protocol of Achanta et al. (CVPR 2009) on flat
    pixel sequences: the counts a threshold sweep takes, the 256-row table
    it produces with its zero-on-empty-denominator rule, and the properties
    of that table. */
module Confusion {
  import opened Images

  /** One row of an evaluation table. */
  datatype PR = PR(precision: real, recall: real)

  /** An evaluation table: row `t` holds precision and recall at threshold `t`. */
  type Table = seq<PR>

  /** Number of salient pixels. */
  function CountTrue(g: seq<bool>): (n: nat)
    ensures n <= |g|
  {
    if |g| == 0 then 0 else CountTrue(g[..|g| - 1]) + (if g[|g| - 1] then 1 else 0)
  }

  /** Number of pixels predicted salient at threshold `t` (value at least `t`). */
  function CountAtLeast(s: seq<int>, t: int): nat {
    if |s| == 0 then 0 else CountAtLeast(s[..|s| - 1], t) + (if s[|s| - 1] >= t then 1 else 0)
  }

  /** Number of salient pixels also predicted salient at threshold `t`. */
  function CountMatch(g: seq<bool>, s: seq<int>, t: int): nat
    requires |g| == |s|
  {
    if |g| == 0 then 0
    else CountMatch(g[..|g| - 1], s[..|s| - 1], t) + (if g[|g| - 1] && s[|s| - 1] >= t then 1 else 0)
  }

  /** Number of pixels whose value is exactly `v` and whose salient flag is `b`. */
  function CountLevel(g: seq<bool>, s: seq<int>, v: int, b: bool): nat
    requires |g| == |s|
  {
    if |g| == 0 then 0
    else CountLevel(g[..|g| - 1], s[..|s| - 1], v, b) + (if g[|g| - 1] == b && s[|s| - 1] == v then 1 else 0)
  }

  lemma CountTrueAppend(g: seq<bool>, b: bool)
    ensures CountTrue(g + [b]) == CountTrue(g) + (if b then 1 else 0)
  {
    assert (g + [b])[..|g|] == g;
  }

  /** Counting one more pixel adds its contribution to each count. */
  lemma CountsAppend(g: seq<bool>, s: seq<int>, b: bool, v: int, t: int)
    requires |g| == |s|
    ensures CountTrue(g + [b]) == CountTrue(g) + (if b then 1 else 0)
    ensures CountAtLeast(s + [v], t) == CountAtLeast(s, t) + (if v >= t then 1 else 0)
    ensures CountMatch(g + [b], s + [v], t) == CountMatch(g, s, t) + (if b && v >= t then 1 else 0)
  {
    assert (g + [b])[..|g|] == g;
    assert (s + [v])[..|s|] == s;
  }

  /** `m / n`, and 0 when the denominator is 0. */
  function Ratio(m: nat, n: nat): (r: real)
    ensures n == 0 ==> r == 0.0
    ensures n > 0 ==> r * n as real == m as real
    ensures 0.0 <= r && (m <= n ==> r <= 1.0)
    ensures 0 < m == n ==> r == 1.0
  {
    if n > 0 then m as real / n as real else 0.0
  }

  /** Row `t` of the sweep: precision is matches over predicted pixels and
      recall is matches over salient pixels, each 0 on an empty denominator. */
  function Row(g: seq<bool>, s: seq<int>, t: int): PR
    requires |g| == |s|
  {
    PR(Ratio(CountMatch(g, s, t), CountAtLeast(s, t)), Ratio(CountMatch(g, s, t), CountTrue(g)))
  }

  /** The table of the sweep, one row per threshold 0..255. */
  function Sweep(g: seq<bool>, s: seq<int>): (table: Table)
    requires |g| == |s|
    ensures |table| == NUM_GREYSCALES
    ensures forall t :: 0 <= t < NUM_GREYSCALES ==> table[t] == Row(g, s, t)
  {
    seq(NUM_GREYSCALES, t => Row(g, s, t))
  }

  predicate AllLevels(s: seq<int>) {
    forall i :: 0 <= i < |s| ==> 0 <= s[i] < NUM_GREYSCALES
  }

  // ---------------------------------------------------------------------
  // Properties of the counts

  /** Matches are both salient and predicted. */
  lemma {:induction false} MatchBounds(g: seq<bool>, s: seq<int>, t: int)
    requires |g| == |s|
    ensures CountMatch(g, s, t) <= CountAtLeast(s, t)
    ensures CountMatch(g, s, t) <= CountTrue(g)
  {
    if |g| > 0 {
      MatchBounds(g[..|g| - 1], s[..|s| - 1], t);
    }
  }

  /** Raising the threshold never adds a predicted pixel or a match. */
  lemma {:induction false} CountsMonotone(g: seq<bool>, s: seq<int>, t: int, u: int)
    requires |g| == |s| && t <= u
    ensures CountMatch(g, s, u) <= CountMatch(g, s, t)
    ensures CountAtLeast(s, u) <= CountAtLeast(s, t)
  {
    if |g| > 0 {
      CountsMonotone(g[..|g| - 1], s[..|s| - 1], t, u);
    }
  }

  /** At threshold 0 every non-negative value is predicted salient. */
  lemma {:induction false} EverythingAtZero(g: seq<bool>, s: seq<int>)
    requires |g| == |s|
    requires forall i :: 0 <= i < |s| ==> s[i] >= 0
    ensures CountMatch(g, s, 0) == CountTrue(g)
    ensures CountAtLeast(s, 0) == |s|
  {
    if |g| > 0 {
      EverythingAtZero(g[..|g| - 1], s[..|s| - 1]);
    }
  }

  /** Going from threshold `t` to `t + 1` loses exactly the pixels of value `t`. */
  lemma {:induction false} CountsStep(g: seq<bool>, s: seq<int>, t: int)
    requires |g| == |s|
    ensures CountMatch(g, s, t) == CountMatch(g, s, t + 1) + CountLevel(g, s, t, true)
    ensures CountAtLeast(s, t) == CountAtLeast(s, t + 1) + CountLevel(g, s, t, true) + CountLevel(g, s, t, false)
  {
    if |g| > 0 {
      CountsStep(g[..|g| - 1], s[..|s| - 1], t);
    }
  }

  /** Above the highest grey level nothing is predicted salient. */
  lemma {:induction false} NothingAboveTop(g: seq<bool>, s: seq<int>)
    requires |g| == |s| && AllLevels(s)
    ensures CountMatch(g, s, NUM_GREYSCALES) == 0
    ensures CountAtLeast(s, NUM_GREYSCALES) == 0
  {
    if |g| > 0 {
      NothingAboveTop(g[..|g| - 1], s[..|s| - 1]);
    }
  }

  /** When the salient flags are exactly the values at least `t`, the
      salient pixels are the pixels predicted salient at `t`. */
  lemma {:induction false} CountTrueIsCountAtLeast(g: seq<bool>, s: seq<int>, t: int)
    requires |g| == |s|
    requires forall i :: 0 <= i < |g| ==> (g[i] <==> s[i] >= t)
    ensures CountTrue(g) == CountAtLeast(s, t)
  {
    if |g| > 0 {
      CountTrueIsCountAtLeast(g[..|g| - 1], s[..|s| - 1], t);
    }
  }

  // ---------------------------------------------------------------------
  // Properties of the table

  /** Precision and recall lie in [0, 1]. */
  lemma RowInUnitInterval(g: seq<bool>, s: seq<int>, t: int)
    requires |g| == |s|
    ensures 0.0 <= Row(g, s, t).precision <= 1.0
    ensures 0.0 <= Row(g, s, t).recall <= 1.0
  {
    MatchBounds(g, s, t);
  }

  /** Every row of a full table lies in [0, 1]. */
  predicate InUnitInterval(table: Table) {
    && |table| == NUM_GREYSCALES
    && forall t :: 0 <= t < |table| ==>
         0.0 <= table[t].precision <= 1.0 && 0.0 <= table[t].recall <= 1.0
  }

  lemma SweepInUnitInterval(g: seq<bool>, s: seq<int>)
    requires |g| == |s|
    ensures InUnitInterval(Sweep(g, s))
  {
    forall t | 0 <= t < NUM_GREYSCALES
      ensures 0.0 <= Sweep(g, s)[t].precision <= 1.0 && 0.0 <= Sweep(g, s)[t].recall <= 1.0
    {
      RowInUnitInterval(g, s, t);
    }
  }

  /** Recall never increases as the threshold rises. */
  lemma RecallNonIncreasing(g: seq<bool>, s: seq<int>, t: int, u: int)
    requires |g| == |s| && t <= u
    ensures Row(g, s, u).recall <= Row(g, s, t).recall
  {
    CountsMonotone(g, s, t, u);
    var n := CountTrue(g);
    if n > 0 {
      DivideMonotone(CountMatch(g, s, u) as real, CountMatch(g, s, t) as real, n as real);
    }
  }

  lemma DivideMonotone(a: real, b: real, n: real)
    requires a <= b && n > 0.0
    ensures a / n <= b / n
  {
    assert b / n - a / n == (b - a) / n;
  }

  /** With no negative value, threshold 0 recovers every salient pixel, so
      recall is 1 whenever there is a salient pixel. */
  lemma RecallOneAtZero(g: seq<bool>, s: seq<int>)
    requires |g| == |s|
    requires forall i :: 0 <= i < |s| ==> s[i] >= 0
    requires CountTrue(g) > 0
    ensures Row(g, s, 0).recall == 1.0
  {
    EverythingAtZero(g, s);
    var n := CountTrue(g);
    assert Row(g, s, 0).recall == Ratio(n, n);
  }
}
