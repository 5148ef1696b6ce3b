/** Change-point detection: indices where a series reaches 30% of its
    maximum after more than 30 positions below that level, bracketed by the
    first and last index. */
module ChangePointDetector {
  import opened Wrappers
  import opened Series

  /** `shot_length`: the quiet stretch a change point must follow. */
  const ShotLength: nat := 30

  /** `max(data) * 0.3`. */
  function Cutoff(data: seq<real>): (c: real)
    requires |data| > 0
    ensures exists k :: 0 <= k < |data| && c == data[k] * 0.3
    ensures forall k :: 0 <= k < |data| ==> data[k] * 0.3 <= c
  {
    Max(data) * 0.3
  }

  /** `curr_cp` once the scan has looked at positions `1 .. i-1`: the last of
      them at or above the cutoff, 0 while there is none. */
  function LastAbove(data: seq<real>, c: real, i: nat): (p: nat)
    requires i <= |data|
    ensures p == 0 || (1 <= p < i && data[p] >= c)
    ensures forall m :: p < m < i && m >= 1 ==> data[m] < c
  {
    if i <= 1 then 0
    else if data[i - 1] >= c then i - 1
    else LastAbove(data, c, i - 1)
  }

  /** `cp` once the scan has looked at positions `1 .. i-1`: a position at
      or above the cutoff more than `ShotLength` past the previous one
      records that previous one. */
  function Scanned(data: seq<real>, c: real, i: nat): (cp: seq<nat>)
    requires i <= |data|
    ensures |cp| <= i
    ensures forall k :: 0 <= k < |cp| ==> cp[k] + ShotLength < i
  {
    if i <= 1 then []
    else
      var cp := Scanned(data, c, i - 1);
      var curr := LastAbove(data, c, i - 1);
      if data[i - 1] >= c && i - 1 - curr > ShotLength then cp + [curr] else cp
  }

  /** Position `j` ends a quiet stretch: it is at or above the cutoff and
      the `ShotLength` positions before it are all below, none of them
      being position 0. */
  predicate Spike(data: seq<real>, c: real, j: int)
  {
    ShotLength < j < |data| && data[j] >= c &&
    forall m :: j - ShotLength <= m < j ==> data[m] < c
  }

  /** `p` is the `curr_cp` found when some spike was scanned. */
  predicate Marker(data: seq<real>, c: real, p: nat)
  {
    exists j :: 0 <= j < |data| && Spike(data, c, j) && p == LastAbove(data, c, j)
  }

  /** `i - curr_cp > shot_length` holds at a position above the cutoff
      exactly when that position is a spike. */
  lemma GapIsSpike(data: seq<real>, c: real, i: nat)
    requires 1 <= i < |data| && data[i] >= c
    ensures i - LastAbove(data, c, i) > ShotLength <==> Spike(data, c, i)
  {
    var p := LastAbove(data, c, i);
    if Spike(data, c, i) && p != 0 {
      assert !(i - ShotLength <= p < i);
    }
  }

  /** What the scan records: ascending positions, each more than
      `ShotLength` before the next and before the current `curr_cp`, each 0
      or a position at or above the cutoff. */
  lemma {:induction false} ScannedOrder(data: seq<real>, c: real, i: nat)
    requires i <= |data|
    ensures forall k :: 0 <= k < |Scanned(data, c, i)| ==>
              Scanned(data, c, i)[k] + ShotLength < LastAbove(data, c, i)
    ensures forall k :: 0 <= k < |Scanned(data, c, i)| - 1 ==>
              Scanned(data, c, i)[k] + ShotLength < Scanned(data, c, i)[k + 1]
    ensures forall k :: 0 <= k < |Scanned(data, c, i)| ==>
              Scanned(data, c, i)[k] < i && (Scanned(data, c, i)[k] == 0 || data[Scanned(data, c, i)[k]] >= c)
  {
    if i > 1 {
      var cp := Scanned(data, c, i - 1);
      var curr := LastAbove(data, c, i - 1);
      ScannedOrder(data, c, i - 1);
      if data[i - 1] >= c && i - 1 - curr > ShotLength {
        var cp' := cp + [curr];
        assert Scanned(data, c, i) == cp';
        assert forall k :: 0 <= k < |cp| ==> cp'[k] == cp[k];
      }
    }
  }

  /** The scan records nothing exactly while no spike has been seen. */
  lemma {:induction false} ScannedEmptyIff(data: seq<real>, c: real, i: nat)
    requires i <= |data|
    ensures Scanned(data, c, i) == [] <==> forall j :: 0 <= j < i ==> !Spike(data, c, j)
  {
    if i > 1 {
      ScannedEmptyIff(data, c, i - 1);
      if data[i - 1] >= c {
        GapIsSpike(data, c, i - 1);
      } else {
        assert !Spike(data, c, i - 1);
      }
    } else {
      forall j | 0 <= j < i ensures !Spike(data, c, j) { }
    }
  }

  /** Every spike scanned so far has recorded the `curr_cp` it found: no
      occasion is missed. */
  lemma {:induction false} SpikeRecorded(data: seq<real>, c: real, i: nat, j: nat)
    requires i <= |data| && j < i && Spike(data, c, j)
    ensures LastAbove(data, c, j) in Scanned(data, c, i)
  {
    if j == i - 1 {
      GapIsSpike(data, c, j);
    } else {
      SpikeRecorded(data, c, i - 1, j);
    }
  }

  /** Every recorded point is the `curr_cp` some scanned spike found: nothing
      but an occasion is recorded. */
  lemma {:induction false} RecordedFromSpike(data: seq<real>, c: real, i: nat, p: nat)
    requires i <= |data| && p in Scanned(data, c, i)
    ensures exists j :: 0 <= j < i && Spike(data, c, j) && p == LastAbove(data, c, j)
  {
    var cp := Scanned(data, c, i - 1);
    if p in cp {
      RecordedFromSpike(data, c, i - 1, p);
    } else {
      GapIsSpike(data, c, i - 1);
    }
  }

  /** The last scanned position is never recorded, so every recorded one is
      well before the end. */
  lemma ScannedBeforeEnd(data: seq<real>, c: real)
    ensures forall k :: 0 <= k < |Scanned(data, c, |data|)| ==>
              Scanned(data, c, |data|)[k] + ShotLength < |data| - 1
  {
    ScannedOrder(data, c, |data|);
  }

  /** `cp` bracketed: 0 in front unless it is already there, the last index
      at the back unless it is already there. */
  function Bracket(cp: seq<nat>, n: nat): (r: seq<nat>)
    requires n >= 1
    ensures |r| >= 1 && r[0] == 0 && r[|r| - 1] == n - 1
  {
    var front := if cp == [] || cp[0] != 0 then [0] + cp else cp;
    if front[|front| - 1] != n - 1 then front + [n - 1] else front
  }

  /** `change_points(data)` as written: `max` of an empty list raises
      `ValueError`, and `cp[0]` raises `IndexError` when the scan recorded
      nothing. */
  function ChangePointsSpec(data: seq<real>): (r: Result<seq<nat>, Failure>)
    ensures r == Err(ValueError) <==> data == []
    ensures r.Ok? ==> |r.value| >= 2 && r.value[0] == 0 && r.value[|r.value| - 1] == |data| - 1
  {
    if data == [] then Err(ValueError)
    else
      var cp := Scanned(data, Cutoff(data), |data|);
      if cp == [] then Err(IndexError) else Ok(Bracket(cp, |data|))
  }

  /** The `while` loop of `change_points`: one pass over positions
      `1 .. len(data)-1` carrying `curr_cp` and `cp`. */
  method Scan(data: seq<real>, cutoff: real) returns (cp: seq<nat>)
    ensures cp == Scanned(data, cutoff, |data|)
  {
    cp := [];
    if |data| == 0 {
      return;
    }
    var curr: nat := 0;
    var i := 1;
    while i < |data|
      invariant 1 <= i <= |data|
      invariant cp == Scanned(data, cutoff, i)
      invariant curr == LastAbove(data, cutoff, i)
    {
      ghost var next := if data[i] >= cutoff && i - curr > ShotLength then cp + [curr] else cp;
      assert Scanned(data, cutoff, i + 1) == next;
      assert LastAbove(data, cutoff, i + 1) == if data[i] >= cutoff then i else curr;
      if data[i] >= cutoff {
        if i - curr > ShotLength {
          cp := cp + [curr];
        }
        curr := i;
      }
      i := i + 1;
    }
  }

  /** `change_points(data)`: the cutoff, the scan, then the bracketing. */
  method ChangePoints(data: seq<real>) returns (r: Result<seq<nat>, Failure>)
    ensures r == ChangePointsSpec(data)
  {
    if |data| == 0 {
      return Err(ValueError);
    }
    var cutoff := Max(data) * 0.3;
    var cp := Scan(data, cutoff);
    if cp == [] {
      return Err(IndexError);
    }
    ghost var scanned := cp;
    if cp[0] != 0 {
      cp := [0] + cp;
    }
    if cp[|cp| - 1] != |data| - 1 {
      cp := cp + [|data| - 1];
    }
    assert cp == Bracket(scanned, |data|);
    r := Ok(cp);
  }

  /** Bracketing keeps every recorded point, and adds nothing but the
      first and last index. */
  lemma BracketMembers(cp: seq<nat>, n: nat)
    requires n >= 1
    ensures forall p :: p in cp ==> p in Bracket(cp, n)
    ensures forall k :: 1 <= k < |Bracket(cp, n)| - 1 ==> Bracket(cp, n)[k] in cp
  {
    var front := if cp == [] || cp[0] != 0 then [0] + cp else cp;
    assert forall k :: 1 <= k < |front| ==> front[k] in cp;
    assert forall p :: p in cp ==> p in front;
  }

  /** Bracketing non-empty recorded change points that end before the last
      index: 0 in front when the first is not 0, the last index behind. */
  lemma BracketIndex(cp: seq<nat>, n: nat)
    requires n >= 1 && cp != [] && cp[|cp| - 1] < n - 1
    ensures var off := if cp[0] != 0 then 1 else 0;
            |Bracket(cp, n)| == |cp| + off + 1 &&
            Bracket(cp, n)[0] == 0 &&
            Bracket(cp, n)[|cp| + off] == n - 1 &&
            forall k :: off <= k < |cp| + off ==> Bracket(cp, n)[k] == cp[k - off]
  {
    var front := if cp[0] != 0 then [0] + cp else cp;
    assert front[|front| - 1] == cp[|cp| - 1];
  }

  /** Bracketing recorded change points that are ascending, far apart and
      well before the end keeps them as the inner entries of the result. */
  lemma BracketShape(cp: seq<nat>, n: nat)
    requires n >= 1 && cp != []
    requires forall k :: 0 <= k < |cp| ==> cp[k] + ShotLength < n - 1
    requires forall k :: 0 <= k < |cp| - 1 ==> cp[k] + ShotLength < cp[k + 1]
    ensures |Bracket(cp, n)| >= 2
    ensures Bracket(cp, n)[|Bracket(cp, n)| - 2] + ShotLength < n - 1
    ensures forall k :: 0 <= k < |Bracket(cp, n)| - 1 ==> Bracket(cp, n)[k] < Bracket(cp, n)[k + 1]
    ensures forall k :: 1 <= k < |Bracket(cp, n)| - 2 ==>
              Bracket(cp, n)[k] + ShotLength < Bracket(cp, n)[k + 1]
    ensures forall k :: 1 <= k < |Bracket(cp, n)| - 1 ==> Bracket(cp, n)[k] != 0 && Bracket(cp, n)[k] in cp
  {
    BracketIndex(cp, n);
    var r := Bracket(cp, n);
    var off := if cp[0] != 0 then 1 else 0;
    forall k | 1 <= k < |cp| ensures cp[k] != 0 {
      assert cp[k - 1] + ShotLength < cp[k];
    }
    forall k | 0 <= k < |r| - 1 ensures r[k] < r[k + 1] {
      if k + 1 == |cp| + off {
      } else if k < off {
      } else {
        assert r[k] == cp[k - off] && r[k + 1] == cp[k + 1 - off];
      }
    }
    forall k | 1 <= k < |r| - 1 ensures r[k] != 0 && r[k] in cp {
      assert r[k] == cp[k - off];
    }
  }

  /** `change_points` fails at `max` exactly on empty data, and at `cp[0]`
      exactly when the series has no spike. */
  lemma ChangePointsFailures(data: seq<real>)
    ensures data == [] <==> ChangePointsSpec(data) == Err(ValueError)
    ensures data != [] ==>
              (ChangePointsSpec(data) == Err(IndexError) <==>
                 forall j :: 0 <= j < |data| ==> !Spike(data, Cutoff(data), j))
  {
    if data != [] {
      ScannedEmptyIff(data, Cutoff(data), |data|);
    }
  }

  /** On success the result runs from 0 to the last index in strictly
      ascending order, and its inner entries are at or above the cutoff and
      more than `ShotLength` apart. */
  lemma ChangePointsShape(data: seq<real>)
    requires ChangePointsSpec(data).Ok?
    ensures var r := ChangePointsSpec(data).value;
            |r| >= 2 && r[0] == 0 && r[|r| - 1] == |data| - 1 &&
            (forall k :: 0 <= k < |r| - 1 ==> r[k] < r[k + 1]) &&
            (forall k :: 1 <= k < |r| - 1 ==> r[k] + ShotLength < r[k + 1]) &&
            (forall k :: 1 <= k < |r| - 1 ==> r[k] < |data| && data[r[k]] >= Cutoff(data))
  {
    var c := Cutoff(data);
    var cp := Scanned(data, c, |data|);
    ScannedOrder(data, c, |data|);
    ScannedBeforeEnd(data, c);
    BracketShape(cp, |data|);
  }

  /** On success the inner entries are exactly the markers of the spikes:
      every spike's `curr_cp` is in the result, and every inner entry is the
      `curr_cp` of some spike. */
  lemma ChangePointsSpikes(data: seq<real>)
    requires ChangePointsSpec(data).Ok?
    ensures forall j :: 0 <= j < |data| && Spike(data, Cutoff(data), j) ==>
              LastAbove(data, Cutoff(data), j) in ChangePointsSpec(data).value
    ensures var r := ChangePointsSpec(data).value;
            forall k :: 1 <= k < |r| - 1 ==> Marker(data, Cutoff(data), r[k])
  {
    var c := Cutoff(data);
    var n := |data|;
    var cp := Scanned(data, c, n);
    var r := Bracket(cp, n);
    assert ChangePointsSpec(data).value == r;
    BracketMembers(cp, n);
    forall j | 0 <= j < n && Spike(data, c, j) ensures LastAbove(data, c, j) in r {
      SpikeRecorded(data, c, n, j);
    }
    forall k | 1 <= k < |r| - 1 ensures Marker(data, c, r[k]) {
      RecordedFromSpike(data, c, n, r[k]);
    }
  }

  /** Too short a series has no spike, so the scan records nothing and
      `cp[0]` fails, although the bracketing is meant to always include the
      first and last index. */
  lemma ShortSeriesFails(data: seq<real>)
    requires 1 <= |data| <= ShotLength + 1
    ensures ChangePointsSpec(data) == Err(IndexError)
  {
    ChangePointsFailures(data);
  }

  /** The evidently intended result: the bracketing also applies when the
      scan recorded nothing, so only an empty series fails. */
  function IntendedChangePoints(data: seq<real>): (r: Result<seq<nat>, Failure>)
    ensures r.Err? <==> data == []
    ensures r.Ok? ==> |r.value| >= 1 && r.value[0] == 0 && r.value[|r.value| - 1] == |data| - 1
  {
    if data == [] then Err(ValueError)
    else Ok(Bracket(Scanned(data, Cutoff(data), |data|), |data|))
  }

  /** The intended result always brackets the series, agrees with the
      written one wherever that succeeds, and is `[0, n-1]` (or `[0]`) when
      the series has no spike. */
  lemma IntendedChangePointsProperties(data: seq<real>)
    ensures IntendedChangePoints(data).Err? <==> data == []
    ensures ChangePointsSpec(data).Ok? ==> IntendedChangePoints(data) == ChangePointsSpec(data)
    ensures data != [] ==>
              var r := IntendedChangePoints(data).value;
              r[0] == 0 && r[|r| - 1] == |data| - 1 &&
              (forall k :: 0 <= k < |r| - 1 ==> r[k] < r[k + 1])
    ensures data != [] && (forall j :: 0 <= j < |data| ==> !Spike(data, Cutoff(data), j)) ==>
              IntendedChangePoints(data).value == (if |data| == 1 then [0] else [0, |data| - 1])
  {
    if data != [] {
      var c := Cutoff(data);
      var cp := Scanned(data, c, |data|);
      ScannedEmptyIff(data, c, |data|);
      if cp != [] {
        ScannedOrder(data, c, |data|);
        ScannedBeforeEnd(data, c);
        BracketShape(cp, |data|);
      }
    }
  }
}
