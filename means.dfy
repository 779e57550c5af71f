/** The two statistics a run ends with: the mean of the evaluation tables
    per threshold (`determineMeanPerThreshold`) and the mean relative
    ground-truth size (`saveGtSizesToFile`). A missing table (`null`) stands
    for an image that was not evaluated. */
module Means {
  import opened Wrappers
  import opened JavaLang
  import opened Images
  import opened Confusion

  // ---------------------------------------------------------------------
  // Mean per threshold

  /** Every table that exists has one row per grey level. */
  predicate FullTables(rs: seq<Option<Table>>) {
    forall k :: 0 <= k < |rs| && rs[k].Some? ==> |rs[k].value| == NUM_GREYSCALES
  }

  /** Every row of every existing table lies in [0, 1]. */
  predicate UnitTables(rs: seq<Option<Table>>)
    requires FullTables(rs)
  {
    forall k, t :: 0 <= k < |rs| && rs[k].Some? && 0 <= t < NUM_GREYSCALES ==>
      0.0 <= rs[k].value[t].precision <= 1.0 && 0.0 <= rs[k].value[t].recall <= 1.0
  }

  /** The number of images that were evaluated (`actualResults`). */
  function CountPresent(rs: seq<Option<Table>>): (n: nat)
    ensures n <= |rs|
  {
    if |rs| == 0 then 0 else CountPresent(rs[..|rs| - 1]) + (if rs[|rs| - 1].Some? then 1 else 0)
  }

  /** The existing tables, in their order. */
  function Present(rs: seq<Option<Table>>): (ps: seq<Option<Table>>)
    ensures |ps| == CountPresent(rs)
    ensures forall k :: 0 <= k < |ps| ==> ps[k].Some?
    ensures FullTables(rs) ==> FullTables(ps)
  {
    if |rs| == 0 then []
    else
      var ps := Present(rs[..|rs| - 1]);
      if rs[|rs| - 1].Some? then ps + [rs[|rs| - 1]] else ps
  }

  /** Row `t` of the mean: each existing table's row `t` divided by `n`,
      summed in the order of the images. */
  function MeanSum(rs: seq<Option<Table>>, t: nat, n: nat): PR
    requires FullTables(rs) && t < NUM_GREYSCALES && CountPresent(rs) <= n
  {
    if |rs| == 0 then PR(0.0, 0.0)
    else
      var acc := MeanSum(rs[..|rs| - 1], t, n);
      match rs[|rs| - 1]
      case None => acc
      case Some(table) =>
        PR(acc.precision + table[t].precision / n as real, acc.recall + table[t].recall / n as real)
  }

  /** The mean table over the evaluated images. */
  function MeanTable(rs: seq<Option<Table>>): (mean: Table)
    requires FullTables(rs)
    ensures |mean| == NUM_GREYSCALES
  {
    seq(NUM_GREYSCALES, t requires 0 <= t < NUM_GREYSCALES => MeanSum(rs, t, CountPresent(rs)))
  }

  /** `determineMeanPerThreshold` as written: both loops run to
      `result.length`, which is `NUM_GREYSCALES`, so fewer images throw, and
      images from index 256 on are ignored. */
  function MeanAsWritten(rs: seq<Option<Table>>): (r: Option<Table>)
    requires FullTables(rs)
    ensures r.Some? <==> |rs| >= NUM_GREYSCALES
  {
    if |rs| < NUM_GREYSCALES then None else Some(MeanTable(rs[..NUM_GREYSCALES]))
  }

  /** The two loops of `determineMeanPerThreshold` over the first `count`
      images: count the existing tables, then add every row divided by
      that count into a 256-row accumulator. */
  method AverageTables(resultAll: seq<Option<Table>>, count: nat) returns (mean: Table)
    requires FullTables(resultAll) && count <= |resultAll|
    ensures FullTables(resultAll[..count])
    ensures mean == MeanTable(resultAll[..count])
  {
    var result := new PR[NUM_GREYSCALES](_ => PR(0.0, 0.0));
    var actualResults := 0;
    for iImage := 0 to count
      invariant actualResults == CountPresent(resultAll[..iImage])
    {
      assert resultAll[..iImage + 1][..iImage] == resultAll[..iImage];
      if resultAll[iImage].Some? {
        actualResults := actualResults + 1;
      }
    }
    ghost var rs := resultAll[..count];
    assert actualResults == CountPresent(rs);
    for iImage := 0 to count
      invariant CountPresent(resultAll[..iImage]) <= actualResults
      invariant forall t :: 0 <= t < NUM_GREYSCALES ==> result[t] == MeanSum(resultAll[..iImage], t, actualResults)
    {
      assert rs[..iImage + 1] == resultAll[..iImage + 1];
      CountPresentPrefix(rs, iImage + 1);
      assert resultAll[..iImage + 1][..iImage] == resultAll[..iImage];
      for iThreshold := 0 to NUM_GREYSCALES
        invariant forall t :: 0 <= t < iThreshold ==> result[t] == MeanSum(resultAll[..iImage + 1], t, actualResults)
        invariant forall t :: iThreshold <= t < NUM_GREYSCALES ==> result[t] == MeanSum(resultAll[..iImage], t, actualResults)
      {
        if resultAll[iImage].Some? {
          var row := resultAll[iImage].value[iThreshold];
          result[iThreshold] := PR(result[iThreshold].precision + row.precision / actualResults as real,
                                   result[iThreshold].recall + row.recall / actualResults as real);
        }
      }
    }
    assert resultAll[..count] == rs;
    mean := result[..];
  }

  /** `determineMeanPerThreshold` with its loops bounded by the number of
      images: the mean over every evaluated image. */
  method DetermineMeanPerThreshold(resultAll: seq<Option<Table>>) returns (mean: Table)
    requires FullTables(resultAll)
    ensures mean == MeanTable(resultAll)
  {
    mean := AverageTables(resultAll, |resultAll|);
    assert resultAll[..|resultAll|] == resultAll;
  }

  /** `determineMeanPerThreshold` as written, `None` standing for the
      `ArrayIndexOutOfBoundsException` of `resultAll[iImage]`. */
  method DetermineMeanPerThresholdAsWritten(resultAll: seq<Option<Table>>) returns (mean: Option<Table>)
    requires FullTables(resultAll)
    ensures mean == MeanAsWritten(resultAll)
  {
    if |resultAll| < NUM_GREYSCALES {
      return None;
    }
    var m := AverageTables(resultAll, NUM_GREYSCALES);
    return Some(m);
  }

  // ---------------------------------------------------------------------
  // Properties of the mean

  lemma {:induction false} CountPresentPrefix(rs: seq<Option<Table>>, i: nat)
    requires i <= |rs|
    ensures CountPresent(rs[..i]) <= CountPresent(rs)
  {
    if i < |rs| {
      assert rs[..|rs| - 1][..i] == rs[..i];
      CountPresentPrefix(rs[..|rs| - 1], i);
    } else {
      assert rs[..i] == rs;
    }
  }

  lemma {:induction false} MeanSumOfNothing(rs: seq<Option<Table>>, t: nat, n: nat)
    requires FullTables(rs) && t < NUM_GREYSCALES && CountPresent(rs) == 0
    ensures MeanSum(rs, t, n) == PR(0.0, 0.0)
  {
    if |rs| > 0 {
      MeanSumOfNothing(rs[..|rs| - 1], t, n);
    }
  }

  /** Without an evaluated image every mean is zero. */
  lemma MeanOfNothing(rs: seq<Option<Table>>)
    requires FullTables(rs) && CountPresent(rs) == 0
    ensures MeanTable(rs) == seq(NUM_GREYSCALES, _ => PR(0.0, 0.0))
  {
    forall t | 0 <= t < NUM_GREYSCALES
      ensures MeanTable(rs)[t] == PR(0.0, 0.0)
    {
      MeanSumOfNothing(rs, t, 0);
    }
  }

  lemma {:induction false} AllPresentCounted(ps: seq<Option<Table>>)
    requires forall k :: 0 <= k < |ps| ==> ps[k].Some?
    ensures CountPresent(ps) == |ps|
  {
    if |ps| > 0 {
      AllPresentCounted(ps[..|ps| - 1]);
    }
  }

  lemma {:induction false} MeanSumOfPresent(rs: seq<Option<Table>>, t: nat, n: nat)
    requires FullTables(rs) && t < NUM_GREYSCALES && CountPresent(rs) <= n
    ensures FullTables(Present(rs)) && CountPresent(Present(rs)) <= n
    ensures MeanSum(rs, t, n) == MeanSum(Present(rs), t, n)
  {
    AllPresentCounted(Present(rs));
    if |rs| > 0 {
      var prefix := rs[..|rs| - 1];
      MeanSumOfPresent(prefix, t, n);
      var ps := Present(prefix);
      AllPresentCounted(ps);
      if rs[|rs| - 1].Some? {
        assert (ps + [rs[|rs| - 1]])[..|ps|] == ps;
      }
    }
  }

  /** Images that were not evaluated do not take part in the mean. */
  lemma NonesIgnored(rs: seq<Option<Table>>)
    requires FullTables(rs)
    ensures FullTables(Present(rs))
    ensures MeanTable(rs) == MeanTable(Present(rs))
  {
    AllPresentCounted(Present(rs));
    forall t | 0 <= t < NUM_GREYSCALES
      ensures MeanTable(rs)[t] == MeanTable(Present(rs))[t]
    {
      MeanSumOfPresent(rs, t, CountPresent(rs));
    }
  }

  /** The mean of a single evaluated image is its table. */
  lemma MeanOfOne(rs: seq<Option<Table>>, table: Table)
    requires FullTables(rs) && Present(rs) == [Some(table)]
    ensures MeanTable(rs) == table
  {
    NonesIgnored(rs);
    var one := [Some(table)];
    assert one[..0] == [];
    forall t | 0 <= t < NUM_GREYSCALES
      ensures MeanTable(rs)[t] == table[t]
    {
      assert MeanSum(one, t, 1) == PR(0.0 + table[t].precision / 1.0, 0.0 + table[t].recall / 1.0);
    }
  }

  /** `x` is a sum of `c` shares of at most `1/n` each. */
  predicate WithinShares(x: real, n: nat, c: nat) {
    0.0 <= x && x * n as real <= c as real
  }

  lemma {:induction false} MeanSumBounds(rs: seq<Option<Table>>, t: nat, n: nat)
    requires FullTables(rs) && UnitTables(rs) && t < NUM_GREYSCALES && 0 < n && CountPresent(rs) <= n
    ensures WithinShares(MeanSum(rs, t, n).precision, n, CountPresent(rs))
    ensures WithinShares(MeanSum(rs, t, n).recall, n, CountPresent(rs))
  {
    if |rs| > 0 {
      var prefix := rs[..|rs| - 1];
      MeanSumBounds(prefix, t, n);
      if rs[|rs| - 1].Some? {
        var acc, row := MeanSum(prefix, t, n), rs[|rs| - 1].value[t];
        assert MeanSum(rs, t, n) == PR(acc.precision + row.precision / n as real, acc.recall + row.recall / n as real);
        OneMoreTerm(acc.precision, row.precision, n, CountPresent(prefix));
        OneMoreTerm(acc.recall, row.recall, n, CountPresent(prefix));
      }
    }
  }

  lemma OneMoreTerm(a: real, v: real, n: nat, c: nat)
    requires n > 0 && WithinShares(a, n, c) && 0.0 <= v <= 1.0
    ensures WithinShares(a + v / n as real, n, c + 1)
  {
    var d := n as real;
    assert v / d * d == v;
    assert (a + v / d) * d == a * d + v / d * d;
    ScaleOrder(0.0, v / d, d);
  }

  /** Mean precision and mean recall lie in [0, 1] when every table's do. */
  lemma MeanInUnitInterval(rs: seq<Option<Table>>)
    requires FullTables(rs) && UnitTables(rs)
    ensures forall t :: 0 <= t < NUM_GREYSCALES ==>
      0.0 <= MeanTable(rs)[t].precision <= 1.0 && 0.0 <= MeanTable(rs)[t].recall <= 1.0
  {
    var n := CountPresent(rs);
    if n == 0 {
      MeanOfNothing(rs);
    } else {
      forall t | 0 <= t < NUM_GREYSCALES
        ensures 0.0 <= MeanTable(rs)[t].precision <= 1.0 && 0.0 <= MeanTable(rs)[t].recall <= 1.0
      {
        MeanSumBounds(rs, t, n);
        var m := MeanSum(rs, t, n);
        assert WithinShares(m.precision, n, n) && WithinShares(m.recall, n, n);
        ScaleOrder(m.precision, 1.0, n as real);
        ScaleOrder(m.recall, 1.0, n as real);
      }
    }
  }

  // ---------------------------------------------------------------------
  // The loop bound of determineMeanPerThreshold

  lemma {:induction false} NothingPresent(rs: seq<Option<Table>>)
    requires forall k :: 0 <= k < |rs| ==> rs[k].None?
    ensures CountPresent(rs) == 0 && Present(rs) == []
  {
    if |rs| > 0 {
      NothingPresent(rs[..|rs| - 1]);
    }
  }

  /** With a result array of fewer than 256 slots the loops as written run
      off the end of `resultAll`: a single slot holding a table has no mean,
      where that table is the intended one. */
  lemma FewImagesHaveNoMean(table: Table)
    requires |table| == NUM_GREYSCALES
    ensures MeanAsWritten([Some(table)]) == None
    ensures MeanTable([Some(table)]) == table
  {
    var rs := [Some(table)];
    assert rs[..0] == [];
    MeanOfOne(rs, table);
  }

  /** Images from index 256 on are never read: after 256 unevaluated images
      a single evaluated one gives an all-zero mean as written, where its
      own table is the intended one. */
  lemma LateImagesIgnored(table: Table)
    requires |table| == NUM_GREYSCALES
    ensures var rs := seq(NUM_GREYSCALES, _ => None) + [Some(table)];
      && MeanAsWritten(rs) == Some(seq(NUM_GREYSCALES, _ => PR(0.0, 0.0)))
      && MeanTable(rs) == table
  {
    var nones: seq<Option<Table>> := seq(NUM_GREYSCALES, _ => None);
    var rs := nones + [Some(table)];
    assert rs[..NUM_GREYSCALES] == nones;
    NothingPresent(nones);
    MeanOfNothing(nones);
    assert Present(rs) == [Some(table)];
    MeanOfOne(rs, table);
  }

  // ---------------------------------------------------------------------
  // Mean relative ground-truth size

  /** The sum of the sizes recorded under `keys`, in no particular order. */
  ghost function SizeSum(m: map<string, real>, keys: set<string>): real
    requires keys <= m.Keys
    decreases |keys|
  {
    if keys == {} then 0.0
    else
      var k :| k in keys;
      m[k] + SizeSum(m, keys - {k})
  }

  /** The sum does not depend on which key is taken first. */
  lemma SizeSumRemove(m: map<string, real>, keys: set<string>, k: string)
    requires keys <= m.Keys && k in keys
    ensures SizeSum(m, keys) == m[k] + SizeSum(m, keys - {k})
    decreases |keys|
  {
    var j :| j in keys && SizeSum(m, keys) == m[j] + SizeSum(m, keys - {j});
    if j != k {
      SizeSumRemove(m, keys - {j}, k);
      SizeSumRemove(m, keys - {k}, j);
      assert keys - {j} - {k} == keys - {k} - {j};
    }
  }

  /** The value `saveGtSizesToFile` returns: the sum of all sizes (-1 when
      writing fails) divided by their number, in IEEE arithmetic. */
  ghost function MeanGtSize(m: map<string, real>, writeFails: bool): (r: Double)
    ensures r.Finite? <==> |m| > 0
  {
    Divide(if writeFails then -1.0 else SizeSum(m, m.Keys), |m| as real)
  }

  lemma {:induction false} SizeSumBounds(m: map<string, real>, keys: set<string>)
    requires keys <= m.Keys
    requires forall k :: k in m ==> 0.0 <= m[k] <= 1.0
    ensures 0.0 <= SizeSum(m, keys) <= |keys| as real
    decreases |keys|
  {
    if keys != {} {
      var k :| k in keys;
      SizeSumRemove(m, keys, k);
      SizeSumBounds(m, keys - {k});
    }
  }

  lemma {:induction false} SizeSumUnknown(m: map<string, real>, keys: set<string>)
    requires keys <= m.Keys
    requires forall k :: k in m ==> m[k] == -1.0
    ensures SizeSum(m, keys) == -(|keys| as real)
    decreases |keys|
  {
    if keys != {} {
      var k :| k in keys;
      SizeSumRemove(m, keys, k);
      SizeSumUnknown(m, keys - {k});
    }
  }

  /** Sizes in [0, 1] have a mean in [0, 1]. */
  lemma MeanGtSizeInUnitInterval(m: map<string, real>)
    requires |m| > 0
    requires forall k :: k in m ==> 0.0 <= m[k] <= 1.0
    ensures MeanGtSize(m, false).Finite?
    ensures 0.0 <= MeanGtSize(m, false).value <= 1.0
  {
    SizeSumBounds(m, m.Keys);
    assert |m.Keys| == |m|;
    var s, n := SizeSum(m, m.Keys), |m| as real;
    ScaleOrder(s / n, 1.0, n);
    ScaleOrder(0.0, s / n, n);
  }

  /** Sizes that are all unknown (-1) have mean -1. */
  lemma MeanGtSizeUnknown(m: map<string, real>)
    requires |m| > 0
    requires forall k :: k in m ==> m[k] == -1.0
    ensures MeanGtSize(m, false) == Finite(-1.0)
  {
    SizeSumUnknown(m, m.Keys);
    assert |m.Keys| == |m|;
  }

  /** Without a recorded size the mean is NaN, or negative infinity when
      writing fails; with sizes, a failed write gives `-1/n`. */
  lemma MeanGtSizeEdges(m: map<string, real>)
    ensures |m| == 0 ==> MeanGtSize(m, false).NaN? && MeanGtSize(m, true) == Infinity(false)
    ensures |m| > 0 ==> MeanGtSize(m, true).value * |m| as real == -1.0
  {
    if |m| == 0 {
      assert m.Keys == {};
    }
  }
}
