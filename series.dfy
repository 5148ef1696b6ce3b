/** Small facts about numeric sequences shared by the metrics. */
module Series {
  import opened Wrappers

  /** `n` zeros, as `np.zeros(n)` gives them. */
  function Zeros(n: nat): (z: seq<int>)
    ensures |z| == n && forall k :: 0 <= k < n ==> z[k] == 0
  {
    seq(n, _ => 0)
  }

  /** Sum of a sequence of integers. */
  function Total(s: seq<int>): int
  {
    if s == [] then 0 else Total(s[..|s| - 1]) + s[|s| - 1]
  }

  lemma {:induction false} TotalOfZeros(n: nat)
    ensures Total(Zeros(n)) == 0
  {
    if n > 0 {
      assert Zeros(n)[..n - 1] == Zeros(n - 1);
      TotalOfZeros(n - 1);
    }
  }

  /** Changing one entry changes the sum by the difference. */
  lemma {:induction false} TotalUpdate(s: seq<int>, i: nat, v: int)
    requires i < |s|
    ensures Total(s[i := v]) == Total(s) - s[i] + v
  {
    var n := |s|;
    if i == n - 1 {
      assert s[i := v][..n - 1] == s[..n - 1];
    } else {
      assert s[i := v][..n - 1] == s[..n - 1][i := v];
      TotalUpdate(s[..n - 1], i, v);
    }
  }

  /** Where block `k` starts when blocks of `size` items are laid end to end. */
  function Offset(k: nat, size: nat): nat
  {
    if k == 0 then 0 else Offset(k - 1, size) + size
  }

  lemma {:induction false} OffsetMonotone(a: nat, b: nat, size: nat)
    requires a <= b
    ensures Offset(a, size) <= Offset(b, size)
    decreases b
  {
    if a < b {
      OffsetMonotone(a, b - 1, size);
    }
  }

  lemma {:induction false} OffsetAdd(a: nat, b: nat, size: nat)
    ensures Offset(a + b, size) == Offset(a, size) + Offset(b, size)
    decreases b
  {
    if b > 0 {
      OffsetAdd(a, b - 1, size);
    }
  }

  lemma {:induction false} OffsetNest(k: nat, c: nat, size: nat)
    ensures Offset(k, Offset(c, size)) == Offset(Offset(k, c), size)
  {
    if k > 0 {
      OffsetNest(k - 1, c, size);
      OffsetAdd(Offset(k - 1, c), c, size);
    }
  }

  lemma {:induction false} OffsetIsProduct(k: nat, size: nat)
    ensures Offset(k, size) == k * size
  {
    if k > 0 {
      OffsetIsProduct(k - 1, size);
    }
  }

  /** A prefix one longer is the prefix and the next element. */
  lemma PrefixGrows<T>(s: seq<T>, k: nat)
    requires k < |s|
    ensures s[..k + 1] == s[..k] + [s[k]]
    ensures s[..k + 1][..k] == s[..k] && s[..k + 1][k] == s[k]
  {
    assert s[..k + 1][..k] == s[..k];
  }

  /** A slice of a slice is a slice of the whole. */
  lemma SliceOfSlice<T>(s: seq<T>, lo: nat, hi: nat, a: nat, b: nat)
    requires lo <= hi <= |s| && a <= b <= hi - lo
    ensures s[lo..hi][a..b] == s[lo + a..lo + b]
  {
    var inner := s[lo..hi];
    forall i | 0 <= i < b - a ensures inner[a..b][i] == s[lo + a..lo + b][i] {
      assert inner[a..b][i] == inner[a + i] == s[lo + a + i];
    }
  }

  /** The largest element, as Python's `max` and `np.max` return it. */
  function Max(s: seq<real>): (m: real)
    requires |s| > 0
    ensures m in s
    ensures forall k :: 0 <= k < |s| ==> s[k] <= m
  {
    if |s| == 1 then s[0]
    else
      var rest := Max(s[1..]);
      if s[0] >= rest then s[0] else rest
  }

  /** The value most recently present in `xs`, or `init` when every entry is
      absent: the "previous" state a scan keeps when it skips missing entries. */
  function LastPresent<T>(init: T, xs: seq<Option<T>>): T
  {
    if xs == [] then init
    else match xs[|xs| - 1]
      case Some(x) => x
      case None => LastPresent(init, xs[..|xs| - 1])
  }

  /** With nothing present, `LastPresent` is `init`. */
  lemma {:induction false} LastPresentOfNone<T>(init: T, xs: seq<Option<T>>)
    requires forall k :: 0 <= k < |xs| ==> xs[k].None?
    ensures LastPresent(init, xs) == init
  {
    if xs != [] {
      var front := xs[..|xs| - 1];
      assert forall k :: 0 <= k < |front| ==> front[k] == xs[k];
      LastPresentOfNone(init, front);
    }
  }

  /** `LastPresent` is the entry at the latest present position `j`. */
  lemma {:induction false} LastPresentAt<T>(init: T, xs: seq<Option<T>>, j: nat)
    requires j < |xs| && xs[j].Some? && forall k :: j < k < |xs| ==> xs[k].None?
    ensures LastPresent(init, xs) == xs[j].value
  {
    var n := |xs|;
    if j < n - 1 {
      var front := xs[..n - 1];
      assert front[j] == xs[j];
      assert forall k :: j < k < n - 1 ==> front[k] == xs[k];
      LastPresentAt(init, front, j);
    }
  }

  /** `LastPresent` is the entry at the latest present position, or `init`
      when nothing is present. */
  lemma LastPresentIsLatest<T>(init: T, xs: seq<Option<T>>)
    ensures (forall k :: 0 <= k < |xs| ==> xs[k].None?) ==> LastPresent(init, xs) == init
    ensures forall j :: 0 <= j < |xs| && xs[j].Some? && (forall k :: j < k < |xs| ==> xs[k].None?)
              ==> LastPresent(init, xs) == xs[j].value
  {
    if forall k :: 0 <= k < |xs| ==> xs[k].None? {
      LastPresentOfNone(init, xs);
    }
    forall j | 0 <= j < |xs| && xs[j].Some? && (forall k :: j < k < |xs| ==> xs[k].None?)
      ensures LastPresent(init, xs) == xs[j].value
    {
      LastPresentAt(init, xs, j);
    }
  }

  /** `LastPresent` is `init` or one of the present values. */
  lemma {:induction false} LastPresentFrom<T>(init: T, xs: seq<Option<T>>)
    ensures LastPresent(init, xs) == init || Some(LastPresent(init, xs)) in xs
  {
    if xs != [] && xs[|xs| - 1].None? {
      LastPresentFrom(init, xs[..|xs| - 1]);
      assert xs == xs[..|xs| - 1] + [xs[|xs| - 1]];
    }
  }
}
