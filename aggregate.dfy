/** The joint metric: every input rescaled by its own peak, after zero-padding
    to the length of the first input, and the rescaled inputs added up. */
module Aggregate {
  import opened Wrappers
  import opened Series

  /** `temp.resize(result.shape)`: a shorter input padded with zeros. */
  function Pad(d: seq<real>, n: nat): (p: seq<real>)
    requires |d| <= n
    ensures |p| == n
    ensures forall k :: 0 <= k < |d| ==> p[k] == d[k]
    ensures forall k :: |d| <= k < n ==> p[k] == 0.0
  {
    d + seq(n - |d|, _ => 0.0)
  }

  /** An input `joint` can rescale: not longer than the first input, and
      with a non-zero peak once padded. */
  predicate Scalable(d: seq<real>, n: nat)
    requires n >= 1
  {
    |d| <= n && Max(Pad(d, n)) != 0.0
  }

  /** `result += temp / np.max(temp)`. */
  function AddScaled(acc: seq<real>, p: seq<real>, peak: real): (r: seq<real>)
    requires |acc| == |p| && peak != 0.0
    ensures |r| == |acc|
    ensures forall k :: 0 <= k < |acc| && 0.0 <= p[k] <= peak ==> acc[k] <= r[k] <= acc[k] + 1.0
  {
    ScaledInUnit(p, peak);
    seq(|acc|, k requires 0 <= k < |acc| => acc[k] + p[k] / peak)
  }

  /** The running sum after the inputs `ds`, each checked as it comes: an
      input longer than `n` does not broadcast, and a zero peak is refused
      instead of dividing by zero. */
  function Accumulate(ds: seq<seq<real>>, n: nat): (r: Result<seq<real>, Failure>)
    requires n >= 1
    ensures r.Ok? ==> |r.value| == n
  {
    if ds == [] then Ok(seq(n, _ => 0.0))
    else match Accumulate(ds[..|ds| - 1], n)
      case Err(e) => Err(e)
      case Ok(acc) =>
        var d := ds[|ds| - 1];
        if |d| > n then Err(ValueError)
        else
          var p := Pad(d, n);
          var peak := Max(p);
          if peak == 0.0 then Err(ZeroPeak) else Ok(AddScaled(acc, p, peak))
  }

  /** `joint(data)`: `data[0]` fixes the length; an empty `data` has no
      `data[0]` and an empty `data[0]` has no maximum. */
  function JointSpec(data: seq<seq<real>>): (r: Result<seq<real>, Failure>)
    ensures r.Ok? ==> data != [] && |r.value| == |data[0]|
  {
    if data == [] then Err(IndexError)
    else if |data[0]| == 0 then Err(ValueError)
    else Accumulate(data, |data[0]|)
  }

  /** Once an input is refused, the whole aggregation fails with its error. */
  lemma {:induction false} AccumulateFailureSticks(ds: seq<seq<real>>, n: nat, i: nat)
    requires n >= 1 && i <= |ds| && Accumulate(ds[..i], n).Err?
    ensures Accumulate(ds, n) == Accumulate(ds[..i], n)
    decreases |ds| - i
  {
    if i < |ds| {
      assert ds[..i + 1][..i] == ds[..i];
      AccumulateFailureSticks(ds, n, i + 1);
    } else {
      assert ds[..i] == ds;
    }
  }

  /** The sum succeeds exactly when every input is scalable. */
  lemma {:induction false} AccumulateOkIff(ds: seq<seq<real>>, n: nat)
    requires n >= 1
    ensures Accumulate(ds, n).Ok? <==> forall i :: 0 <= i < |ds| ==> Scalable(ds[i], n)
  {
    if ds != [] {
      var m := |ds|;
      var prefix := ds[..m - 1];
      AccumulateOkStep(ds, n);
      AccumulateOkIff(prefix, n);
      if forall i :: 0 <= i < m ==> Scalable(ds[i], n) {
        forall i | 0 <= i < m - 1
          ensures Scalable(prefix[i], n)
        {
          assert prefix[i] == ds[i];
        }
      }
      if Accumulate(ds, n).Ok? {
        forall i | 0 <= i < m
          ensures Scalable(ds[i], n)
        {
          if i < m - 1 {
            assert prefix[i] == ds[i];
          }
        }
      }
    }
  }

  /** One more input keeps the sum going exactly when it is scalable. */
  lemma AccumulateOkStep(ds: seq<seq<real>>, n: nat)
    requires n >= 1 && ds != []
    ensures Accumulate(ds, n).Ok? <==> Accumulate(ds[..|ds| - 1], n).Ok? && Scalable(ds[|ds| - 1], n)
  {
  }

  /** Sum over the inputs of their rescaled values at position `k`. */
  function RatioSum(ds: seq<seq<real>>, n: nat, k: nat): real
    requires n >= 1 && k < n
    requires forall i :: 0 <= i < |ds| ==> Scalable(ds[i], n)
  {
    if ds == [] then 0.0
    else
      var d := ds[|ds| - 1];
      assert Scalable(d, n);
      assert forall i :: 0 <= i < |ds| - 1 ==> ds[..|ds| - 1][i] == ds[i];
      RatioSum(ds[..|ds| - 1], n, k) + Pad(d, n)[k] / Max(Pad(d, n))
  }

  /** Position `k` of the sum is the sum over the inputs of
      `d[k] / max(d)`, with `d[k]` taken as 0 past the end of `d`. */
  lemma {:induction false} AccumulateAt(ds: seq<seq<real>>, n: nat)
    requires n >= 1 && Accumulate(ds, n).Ok?
    ensures forall i :: 0 <= i < |ds| ==> Scalable(ds[i], n)
    ensures forall k :: 0 <= k < n ==> Accumulate(ds, n).value[k] == RatioSum(ds, n, k)
  {
    AccumulateOkIff(ds, n);
    if ds != [] {
      var m := |ds|;
      AccumulateOkIff(ds[..m - 1], n);
      AccumulateAt(ds[..m - 1], n);
    }
  }

  /** `joint` succeeds exactly when there is a non-empty first input and
      every input is at most as long as it and has a non-zero padded peak. */
  lemma JointOkIff(data: seq<seq<real>>)
    ensures JointSpec(data).Ok? <==>
              data != [] && |data[0]| >= 1 &&
              forall i :: 0 <= i < |data| ==> Scalable(data[i], |data[0]|)
  {
    if data != [] && |data[0]| >= 1 {
      AccumulateOkIff(data, |data[0]|);
    }
  }

  /** On success, position `k` is the unaveraged sum of the rescaled inputs. */
  lemma JointAt(data: seq<seq<real>>)
    requires JointSpec(data).Ok?
    ensures data != [] && |data[0]| >= 1
    ensures forall i :: 0 <= i < |data| ==> Scalable(data[i], |data[0]|)
    ensures forall k :: 0 <= k < |data[0]| ==> JointSpec(data).value[k] == RatioSum(data, |data[0]|, k)
  {
    AccumulateAt(data, |data[0]|);
  }

  /** Each rescaled input lies in [0, 1] when its values are non-negative,
      so every position of the sum lies in [0, number of inputs]. */
  lemma {:induction false} RatioSumBounds(ds: seq<seq<real>>, n: nat, k: nat)
    requires n >= 1 && k < n
    requires forall i :: 0 <= i < |ds| ==> Scalable(ds[i], n)
    requires forall i, j :: 0 <= i < |ds| && 0 <= j < |ds[i]| ==> ds[i][j] >= 0.0
    ensures 0.0 <= RatioSum(ds, n, k) <= |ds| as real
  {
    if ds != [] {
      var m := |ds|;
      assert forall i :: 0 <= i < m - 1 ==> ds[..m - 1][i] == ds[i];
      RatioSumBounds(ds[..m - 1], n, k);
      assert Scalable(ds[m - 1], n);
      var p := Pad(ds[m - 1], n);
      assert p[k] >= 0.0;
      RatioInUnit(p[k], Max(p));
    }
  }

  lemma RatioInUnit(x: real, peak: real)
    requires 0.0 <= x <= peak && peak != 0.0
    ensures 0.0 <= x / peak <= 1.0
  {
  }

  /** Every non-negative entry up to the peak rescales into [0, 1]. */
  lemma ScaledInUnit(p: seq<real>, peak: real)
    requires peak != 0.0
    ensures forall k :: 0 <= k < |p| && 0.0 <= p[k] <= peak ==> 0.0 <= p[k] / peak <= 1.0
  {
    forall k | 0 <= k < |p| && 0.0 <= p[k] <= peak ensures 0.0 <= p[k] / peak <= 1.0 {
      RatioInUnit(p[k], peak);
    }
  }

  lemma JointBounds(data: seq<seq<real>>)
    requires JointSpec(data).Ok?
    requires forall i, j :: 0 <= i < |data| && 0 <= j < |data[i]| ==> data[i][j] >= 0.0
    ensures forall k :: 0 <= k < |data[0]| ==> 0.0 <= JointSpec(data).value[k] <= |data| as real
  {
    JointAt(data);
    forall k | 0 <= k < |data[0]| ensures 0.0 <= JointSpec(data).value[k] <= |data| as real {
      RatioSumBounds(data, |data[0]|, k);
    }
  }

  /** One more scalable input adds its rescaled values to the sum. */
  lemma AccumulateSnoc(ds: seq<seq<real>>, d: seq<real>, n: nat)
    requires n >= 1 && Accumulate(ds, n).Ok? && Scalable(d, n)
    ensures Accumulate(ds + [d], n) == Ok(AddScaled(Accumulate(ds, n).value, Pad(d, n), Max(Pad(d, n))))
  {
    assert (ds + [d])[..|ds|] == ds;
  }

  lemma RatioTwice(x: real, peak: real)
    requires peak != 0.0
    ensures 0.0 + x / peak + x / peak == 2.0 * x / peak
  {
  }

  /** One input alone is rescaled onto the zeros. */
  lemma AccumulateSingle(s: seq<real>)
    requires |s| >= 1 && Max(s) != 0.0
    ensures Accumulate([s], |s|) == Ok(AddScaled(seq(|s|, _ => 0.0), s, Max(s)))
  {
    PadFull(s);
    assert Accumulate([], |s|) == Ok(seq(|s|, _ => 0.0));
    AccumulateSnoc([], s, |s|);
    assert [] + [s] == [s];
  }

  /** Two copies of one input give twice its rescaled values: the inputs are
      added, not averaged. */
  lemma JointOfTwin(s: seq<real>)
    requires |s| >= 1 && Max(s) != 0.0
    ensures JointSpec([s, s]) == Ok(seq(|s|, k requires 0 <= k < |s| => 2.0 * s[k] / Max(s)))
  {
    var n := |s|;
    PadFull(s);
    AccumulateSingle(s);
    AccumulateSnoc([s], s, n);
    assert [s] + [s] == [s, s];
    assert [s, s][0] == s;
    AddedTwice(s, Max(s));
  }

  lemma AddedTwice(s: seq<real>, peak: real)
    requires peak != 0.0
    ensures AddScaled(AddScaled(seq(|s|, _ => 0.0), s, peak), s, peak)
         == seq(|s|, k requires 0 <= k < |s| => 2.0 * s[k] / peak)
  {
    var once := AddScaled(seq(|s|, _ => 0.0), s, peak);
    var twice := AddScaled(once, s, peak);
    forall k | 0 <= k < |s| ensures twice[k] == 2.0 * s[k] / peak {
      RatioTwice(s[k], peak);
    }
  }

  lemma PadFull(s: seq<real>)
    ensures Pad(s, |s|) == s
  {
  }

  /** `joint(data)`: `result` starts as zeros of `len(data[0])` and each input
      in turn is padded, rescaled and added to it. */
  method Joint(data: seq<seq<real>>) returns (r: Result<seq<real>, Failure>)
    ensures r == JointSpec(data)
  {
    if |data| == 0 {
      return Err(IndexError);
    }
    var base := |data[0]|;
    if base == 0 {
      return Err(ValueError);
    }
    var result := seq(base, _ => 0.0);
    for i := 0 to |data|
      invariant Accumulate(data[..i], base) == Ok(result)
    {
      assert data[..i + 1][..i] == data[..i];
      var d := data[i];
      if |d| > base {
        AccumulateFailureSticks(data, base, i + 1);
        return Err(ValueError);
      }
      var temp := Pad(d, base);
      var peak := Max(temp);
      if peak == 0.0 {
        AccumulateFailureSticks(data, base, i + 1);
        return Err(ZeroPeak);
      }
      result := AddScaled(result, temp, peak);
    }
    assert data[..|data|] == data;
    r := Ok(result);
  }
}
