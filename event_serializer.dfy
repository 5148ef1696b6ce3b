/** The records `to_json` hands to Data2Music: one per metric value, in
    metric order, each metric's values stamped one second apart from a
    common start so that parallel metrics share their timestamps. */
module EventSerializer {
  import opened Wrappers

  /** One output line: `{"timestamp", "feature", "value", "parameters"}`. */
  datatype Event<V> = Event(timestamp: int, feature: string, value: V, parameters: map<string, string>)

  /** `{"system": "track1"}`, the same on every record. */
  function Params(): (p: map<string, string>)
    ensures p.Keys == {"system"} && p["system"] == "track1"
  {
    map["system" := "track1"]
  }

  /** Python's `int()` of a float: truncation toward zero. */
  function Trunc(x: real): (t: int)
    ensures x - 1.0 < t as real < x + 1.0
    ensures 0.0 <= x ==> t as real <= x
    ensures x < 0.0 ==> x <= t as real
  {
    if x >= 0.0 then x.Floor else -((-x).Floor)
  }

  /** Timestamp of the `j`-th value of any metric: `start` plus `j` seconds,
      in milliseconds. */
  function Stamp(start: real, j: nat): (t: int)
    ensures 0.0 <= start ==> t == Trunc(start) + 1000 * j
  {
    Trunc(start + 1000.0 * j as real)
  }

  /** The records of one metric. */
  function Row<V>(values: seq<V>, feature: string, start: real): (row: seq<Event<V>>)
    ensures |row| == |values|
  {
    seq(|values|, j requires 0 <= j < |values| => Event(Stamp(start, j), feature, values[j], Params()))
  }

  /** Number of values in all the metrics. */
  function Count<V>(lists: seq<seq<V>>): nat
  {
    if lists == [] then 0 else Count(lists[..|lists| - 1]) + |lists[|lists| - 1]|
  }

  /** `li2` after the metrics `lists`: `features[i]` is only looked up for a
      metric that has a value, and raises `IndexError` when it is missing. */
  function Records<V>(lists: seq<seq<V>>, features: seq<string>, start: real): (r: Result<seq<Event<V>>, Failure>)
    ensures r.Ok? ==> |r.value| == Count(lists)
    ensures r.Err? ==> r.error == IndexError
  {
    if lists == [] then Ok([])
    else match Records(lists[..|lists| - 1], features, start)
      case Err(e) => Err(e)
      case Ok(li) =>
        var i := |lists| - 1;
        if |lists[i]| == 0 then Ok(li)
        else if i >= |features| then Err(IndexError)
        else Ok(li + Row(lists[i], features[i], start))
  }

  /** Once a metric has no name, the records fail for good. */
  lemma {:induction false} RecordsFailureSticks<V>(lists: seq<seq<V>>, features: seq<string>, start: real, i: nat)
    requires i <= |lists| && Records(lists[..i], features, start).Err?
    ensures Records(lists, features, start) == Records(lists[..i], features, start)
    decreases |lists| - i
  {
    if i < |lists| {
      assert lists[..i + 1][..i] == lists[..i];
      RecordsFailureSticks(lists, features, start, i + 1);
    } else {
      assert lists[..i] == lists;
    }
  }

  /** The records fail exactly when some metric with a value has no name. */
  lemma {:induction false} RecordsFailIff<V>(lists: seq<seq<V>>, features: seq<string>, start: real)
    ensures Records(lists, features, start).Err? <==>
              exists i :: |features| <= i < |lists| && |lists[i]| > 0
    ensures Records(lists, features, start).Err? ==> Records(lists, features, start).error == IndexError
  {
    if lists != [] {
      var m := |lists|;
      RecordsFailIff(lists[..m - 1], features, start);
      assert forall i :: 0 <= i < m - 1 ==> lists[..m - 1][i] == lists[i];
    }
  }

  /** A successful record list is the earlier metrics' records followed by
      the last metric's. */
  lemma RecordsStep<V>(lists: seq<seq<V>>, features: seq<string>, start: real)
    requires lists != [] && Records(lists, features, start).Ok?
    ensures var m := |lists|;
            Records(lists[..m - 1], features, start).Ok? &&
            (|lists[m - 1]| > 0 ==> m - 1 < |features|) &&
            Records(lists, features, start).value
              == Records(lists[..m - 1], features, start).value +
                 (if |lists[m - 1]| == 0 then [] else Row(lists[m - 1], features[m - 1], start))
  {
  }

  /** On success there is one record per value. */
  lemma {:induction false} RecordsCount<V>(lists: seq<seq<V>>, features: seq<string>, start: real)
    requires Records(lists, features, start).Ok?
    ensures |Records(lists, features, start).value| == Count(lists)
  {
    if lists != [] {
      RecordsStep(lists, features, start);
      RecordsCount(lists[..|lists| - 1], features, start);
    }
  }

  /** On success there is one record per value, and every metric with a
      value has a name. */
  lemma RecordsLength<V>(lists: seq<seq<V>>, features: seq<string>, start: real)
    requires Records(lists, features, start).Ok?
    ensures |Records(lists, features, start).value| == Count(lists)
    ensures forall i :: 0 <= i < |lists| && |lists[i]| > 0 ==> i < |features|
    ensures forall i :: 0 <= i < |lists| ==> Count(lists[..i]) + |lists[i]| <= Count(lists)
  {
    RecordsFailIff(lists, features, start);
    forall i | 0 <= i < |lists| ensures Count(lists[..i]) + |lists[i]| <= Count(lists) {
      CountGrows(lists, i);
    }
    RecordsCount(lists, features, start);
  }

  /** Metric after metric: the records of metric `i` follow those of all
      earlier metrics and are that metric's values under its name, stamped
      from `start` on. */
  lemma RecordsAt<V>(lists: seq<seq<V>>, features: seq<string>, start: real, i: nat)
    requires Records(lists, features, start).Ok?
    requires i < |lists| && |lists[i]| > 0
    ensures i < |features| && Count(lists[..i]) + |lists[i]| <= |Records(lists, features, start).value|
    ensures Records(lists, features, start).value[Count(lists[..i])..Count(lists[..i]) + |lists[i]|]
              == Row(lists[i], features[i], start)
  {
    RecordOfValue(lists, features, start, i, |lists[i]| - 1);
    var r := Records(lists, features, start).value;
    var a := Count(lists[..i]);
    var slice := r[a..a + |lists[i]|];
    var row := Row(lists[i], features[i], start);
    forall j | 0 <= j < |lists[i]|
      ensures slice[j] == row[j]
    {
      RecordOfValue(lists, features, start, i, j);
      assert slice[j] == r[a + j];
    }
    assert |slice| == |row|;
  }

  /** Value `j` of metric `i` is the record at `j` past the earlier
      metrics' values: the metric's name, the value, the `j`-th stamp. */
  lemma RecordOfValue<V>(lists: seq<seq<V>>, features: seq<string>, start: real, i: nat, j: nat)
    requires Records(lists, features, start).Ok?
    requires i < |lists| && j < |lists[i]|
    ensures i < |features| && Count(lists[..i]) + j < |Records(lists, features, start).value|
    ensures Records(lists, features, start).value[Count(lists[..i]) + j]
              == Event(Stamp(start, j), features[i], lists[i][j], Params())
  {
    assert lists[..|lists|] == lists;
    RecordOfValueWithin(lists, features, start, |lists|, i, j);
  }

  /** `RecordsStep` for the first `t` metrics. */
  lemma RecordsStepAt<V>(lists: seq<seq<V>>, features: seq<string>, start: real, t: nat)
    requires 0 < t <= |lists| && Records(lists[..t], features, start).Ok?
    ensures Records(lists[..t - 1], features, start).Ok? &&
            (|lists[t - 1]| > 0 ==> t - 1 < |features|) &&
            Records(lists[..t], features, start).value
              == Records(lists[..t - 1], features, start).value +
                 (if |lists[t - 1]| == 0 then [] else Row(lists[t - 1], features[t - 1], start))
  {
    var q := lists[..t];
    RecordsStep(q, features, start);
    assert q[..t - 1] == lists[..t - 1] && q[t - 1] == lists[t - 1];
  }

  /** `RecordOfValue` within the records of the first `t` metrics. */
  lemma {:induction false} RecordOfValueWithin<V>(lists: seq<seq<V>>, features: seq<string>, start: real, t: nat, i: nat, j: nat)
    requires t <= |lists| && Records(lists[..t], features, start).Ok?
    requires i < t && j < |lists[i]|
    ensures i < |features| && Count(lists[..i]) + j < |Records(lists[..t], features, start).value|
    ensures Records(lists[..t], features, start).value[Count(lists[..i]) + j]
              == Event(Stamp(start, j), features[i], lists[i][j], Params())
  {
    RecordsStepAt(lists, features, start, t);
    var r := Records(lists[..t], features, start).value;
    var li := Records(lists[..t - 1], features, start).value;
    var a := Count(lists[..i]);
    if i < t - 1 {
      RecordOfValueWithin(lists, features, start, t - 1, i, j);
      assert r[a + j] == li[a + j];
    } else {
      var row := Row(lists[i], features[i], start);
      assert r == li + row && |li| == a;
      assert r[a + j] == row[j] == Event(Stamp(start, j), features[i], lists[i][j], Params());
    }
  }

  /** Earlier metrics hold no more values than all of them. */
  lemma {:induction false} CountGrows<V>(lists: seq<seq<V>>, i: nat)
    requires i < |lists|
    ensures Count(lists[..i]) + |lists[i]| <= Count(lists)
    decreases |lists|
  {
    var m := |lists|;
    assert lists[..m][..m - 1] == lists[..m - 1];
    if i < m - 1 {
      assert lists[..m - 1][..i] == lists[..i];
      CountGrows(lists[..m - 1], i);
    } else {
      assert lists[..m] == lists;
    }
  }

  /** Values at the same position of different metrics share a timestamp,
      and the values of one metric have distinct, increasing ones. */
  lemma StampsAlign(start: real, j: nat, j': nat)
    ensures j == j' ==> Stamp(start, j) == Stamp(start, j')
    ensures j < j' ==> Stamp(start, j) < Stamp(start, j')
  {
  }

  /** `to_json(lists, features, file_name)` up to writing the file: `start`
      stands for `time.time() * 1000`, and the clock is reset to it before
      every metric. */
  method ToJson<V>(lists: seq<seq<V>>, features: seq<string>, start: real) returns (r: Result<seq<Event<V>>, Failure>)
    ensures r == Records(lists, features, start)
  {
    var li: seq<Event<V>> := [];
    for i := 0 to |lists|
      invariant Records(lists[..i], features, start) == Ok(li)
    {
      assert lists[..i + 1][..i] == lists[..i];
      var values := lists[i];
      var stamp := start;
      var done := li;
      for j := 0 to |values|
        invariant stamp == start + 1000.0 * j as real
        invariant j > 0 ==> i < |features|
        invariant j > 0 ==> li == done + Row(values[..j], features[i], start)
        invariant j == 0 ==> li == done
      {
        if i >= |features| {
          RecordsFailureSticks(lists, features, start, i + 1);
          return Err(IndexError);
        }
        assert Row(values[..j + 1], features[i], start)
            == Row(values[..j], features[i], start) + [Event(Trunc(stamp), features[i], values[j], Params())];
        li := li + [Event(Trunc(stamp), features[i], values[j], Params())];
        stamp := stamp + 1000.0;
      }
      assert values[..|values|] == values;
    }
    assert lists[..|lists|] == lists;
    r := Ok(li);
  }

  /** Two metrics of two values each give four records, stamped 0, 1000,
      0, 1000 from a start of 0. */
  lemma TwoMetrics()
    ensures Records([[1, 2], [3, 4]], ["a", "b"], 0.0) == Ok([
              Event(0, "a", 1, Params()), Event(1000, "a", 2, Params()),
              Event(0, "b", 3, Params()), Event(1000, "b", 4, Params())])
  {
    var lists: seq<seq<int>> := [[1, 2], [3, 4]];
    assert lists[..1] == [[1, 2]];
    assert lists[..1][..0] == [];
    assert Stamp(0.0, 0) == 0 && Stamp(0.0, 1) == 1000;
    assert Row([1, 2], "a", 0.0) == [Event(0, "a", 1, Params()), Event(1000, "a", 2, Params())];
    assert Row([3, 4], "b", 0.0) == [Event(0, "b", 3, Params()), Event(1000, "b", 4, Params())];
    assert Records(lists[..1][..0], ["a", "b"], 0.0) == Ok([]);
    assert Records(lists[..1], ["a", "b"], 0.0) == Ok([] + Row([1, 2], "a", 0.0));
    assert |lists| == 2 && lists[1] == [3, 4];
    assert lists[..|lists| - 1] == lists[..1];
    var li := [] + Row([1, 2], "a", 0.0);
    assert li == Row([1, 2], "a", 0.0);
    assert li + Row([3, 4], "b", 0.0) == Row([1, 2], "a", 0.0) + Row([3, 4], "b", 0.0);
    assert |lists[1]| != 0 && 1 < |["a", "b"]| && ["a", "b"][1] == "b";
    assert Records(lists, ["a", "b"], 0.0) == Ok(li + Row([3, 4], "b", 0.0));
    assert Records(lists, ["a", "b"], 0.0) == Ok(Row([1, 2], "a", 0.0) + Row([3, 4], "b", 0.0));
    assert Row([1, 2], "a", 0.0) + Row([3, 4], "b", 0.0) == [
              Event(0, "a", 1, Params()), Event(1000, "a", 2, Params()),
              Event(0, "b", 3, Params()), Event(1000, "b", 4, Params())];
  }
}
