/** Per-group arithmetic of the quantizer: the channel sums, minima and maxima
    that `sqi_examine_group` gathers, the median cut of `sqi_cut_group`, and
    the rounded channel mean used when a group becomes a palette entry. */
module Groups {
  import opened Bytes
  import opened Colors

  /** Total of channel `k` over the group. */
  function SumOf(g: seq<Entry>, k: Channel): nat
  {
    if g == [] then 0 else SumOf(g[..|g| - 1], k) + Key(g[|g| - 1], k)
  }

  /** Smallest value of channel `k` in a non-empty group. */
  function MinOf(g: seq<Entry>, k: Channel): Byte
    requires |g| > 0
  {
    if |g| == 1 then Key(g[0], k)
    else
      var m := MinOf(g[..|g| - 1], k);
      if m > Key(g[|g| - 1], k) then Key(g[|g| - 1], k) else m
  }

  /** Largest value of channel `k` in a non-empty group. */
  function MaxOf(g: seq<Entry>, k: Channel): Byte
    requires |g| > 0
  {
    if |g| == 1 then Key(g[0], k)
    else
      var m := MaxOf(g[..|g| - 1], k);
      if m < Key(g[|g| - 1], k) then Key(g[|g| - 1], k) else m
  }

  /** The minimum and maximum bound every member and are each held by one. */
  lemma {:induction false} RangeOf(g: seq<Entry>, k: Channel)
    requires |g| > 0
    ensures forall i :: 0 <= i < |g| ==> MinOf(g, k) <= Key(g[i], k) <= MaxOf(g, k)
    ensures exists i :: 0 <= i < |g| && MinOf(g, k) == Key(g[i], k)
    ensures exists i :: 0 <= i < |g| && MaxOf(g, k) == Key(g[i], k)
    decreases |g|
  {
    if |g| > 1 {
      var g' := g[..|g| - 1];
      RangeOf(g', k);
      assert forall i :: 0 <= i < |g'| ==> g'[i] == g[i];
      var i :| 0 <= i < |g'| && MinOf(g', k) == Key(g'[i], k);
      var j :| 0 <= j < |g'| && MaxOf(g', k) == Key(g'[j], k);
      assert g'[i] == g[i] && g'[j] == g[j];
    }
  }

  /** The extent of channel `k` over the group: max minus min. */
  function Spread(g: seq<Entry>, k: Channel): int
    requires |g| > 0
  {
    MaxOf(g, k) - MinOf(g, k)
  }

  /** What `sqi_examine_group` reports about a group: `component` is the
      first channel of widest spread (red before green before blue on ties),
      `size` that spread and `sum` that channel's total. */
  predicate Examined(g: seq<Entry>, component: int, size: int, sum: int)
  {
    && |g| > 0
    && 0 <= component < 3
    && size == Spread(g, component)
    && sum == SumOf(g, component)
    && (forall k: Channel :: Spread(g, k) <= size)
    && (forall k: Channel :: k < component ==> Spread(g, k) < size)
  }

  lemma {:induction false} SumOfAppend(a: seq<Entry>, b: seq<Entry>, k: Channel)
    ensures SumOf(a + b, k) == SumOf(a, k) + SumOf(b, k)
    decreases |b|
  {
    if b == [] {
      assert a + b == a;
    } else {
      var b' := b[..|b| - 1];
      assert (a + b)[..|a + b| - 1] == a + b';
      SumOfAppend(a, b', k);
    }
  }

  /** The channel total does not depend on the order of the group. */
  lemma {:induction false} SumOfPermutation(s: seq<Entry>, t: seq<Entry>, k: Channel)
    requires multiset(s) == multiset(t)
    ensures SumOf(s, k) == SumOf(t, k)
    decreases |s|
  {
    if s == [] {
      assert |t| == |multiset(t)| == 0;
    } else {
      var x := s[|s| - 1];
      var s' := s[..|s| - 1];
      assert s == s' + [x];
      assert x in multiset(t);
      var j :| 0 <= j < |t| && t[j] == x;
      var t' := t[..j] + t[j + 1..];
      assert t == t[..j] + [x] + t[j + 1..];
      assert multiset(t) == multiset(t[..j]) + multiset{x} + multiset(t[j + 1..]);
      assert multiset(s) == multiset(s') + multiset{x};
      assert multiset(t') == multiset(t[..j]) + multiset(t[j + 1..]);
      assert multiset(t') == multiset(t) - multiset{x};
      assert multiset(s') == multiset(s) - multiset{x};
      SumOfPermutation(s', t', k);
      assert [x][..0] == [];
      SumOfAppend(t[..j] + [x], t[j + 1..], k);
      SumOfAppend(t[..j], [x], k);
      SumOfAppend(t[..j], t[j + 1..], k);
    }
  }

  /** Minimum and maximum do not depend on the order of the group. */
  lemma RangePermutation(s: seq<Entry>, t: seq<Entry>, k: Channel)
    requires |s| > 0 && multiset(s) == multiset(t)
    ensures |t| > 0 && MinOf(s, k) == MinOf(t, k) && MaxOf(s, k) == MaxOf(t, k)
  {
    assert |t| == |multiset(t)| == |multiset(s)| == |s|;
    forall a, b | multiset(a) == multiset(b) && |a| > 0 && |b| > 0
      ensures MinOf(b, k) <= MinOf(a, k) && MaxOf(a, k) <= MaxOf(b, k)
    {
      RangeOf(a, k);
      RangeOf(b, k);
      var i :| 0 <= i < |a| && MinOf(a, k) == Key(a[i], k);
      var i' :| 0 <= i' < |a| && MaxOf(a, k) == Key(a[i'], k);
      assert a[i] in multiset(b) && a[i'] in multiset(b);
      var j :| 0 <= j < |b| && b[j] == a[i];
      var j' :| 0 <= j' < |b| && b[j'] == a[i'];
    }
  }

  /** Reordering a group keeps everything `sqi_examine_group` reports. */
  lemma ExaminedPermutation(s: seq<Entry>, t: seq<Entry>, component: int, size: int, sum: int)
    requires Examined(s, component, size, sum) && multiset(s) == multiset(t)
    ensures Examined(t, component, size, sum)
  {
    forall k: Channel
      ensures |t| > 0 && Spread(t, k) == Spread(s, k) && SumOf(t, k) == SumOf(s, k)
    {
      RangePermutation(s, t, k);
      SumOfPermutation(s, t, k);
    }
  }

  /** Running sums over longer prefixes are never smaller. */
  lemma {:induction false} PrefixSumsGrow(g: seq<Entry>, k: Channel, i: nat, j: nat)
    requires i <= j <= |g|
    ensures SumOf(g[..i], k) <= SumOf(g[..j], k)
    decreases j - i
  {
    if i < j {
      PrefixSumsGrow(g, k, i, j - 1);
      assert g[..j][..j - 1] == g[..j - 1];
    }
  }

  /** A member's channel value never exceeds the group's channel total. */
  lemma {:induction false} SumAtLeastMember(g: seq<Entry>, k: Channel, i: nat)
    requires i < |g|
    ensures Key(g[i], k) <= SumOf(g, k)
    decreases |g|
  {
    if i < |g| - 1 {
      SumAtLeastMember(g[..|g| - 1], k, i);
    }
  }

  /** A group whose channels all lie in [lo, hi] has a total between
      |g|*lo and |g|*hi. */
  lemma {:induction false} SumBetween(g: seq<Entry>, k: Channel, lo: int, hi: int)
    requires forall i :: 0 <= i < |g| ==> lo <= Key(g[i], k) <= hi
    ensures |g| * lo <= SumOf(g, k) <= |g| * hi
    decreases |g|
  {
    if g != [] {
      var g' := g[..|g| - 1];
      assert forall i :: 0 <= i < |g'| ==> g'[i] == g[i];
      SumBetween(g', k, lo, hi);
      MulSucc(|g'|, lo);
      MulSucc(|g'|, hi);
    }
  }

  lemma MulSucc(n: int, a: int)
    ensures (n + 1) * a == n * a + a
  {}

  lemma MulPosFactor(n: int, m: int)
    requires n > 0 && n * m > 0
    ensures m > 0
  {}

  /** Integer division by a positive count respects bounds on the dividend. */
  lemma QuotientBetween(x: int, n: int, lo: int, hi: int)
    requires n > 0 && n * lo <= x < n * (hi + 1)
    ensures lo <= x / n <= hi
  {
    var q, r := x / n, x % n;
    assert x == n * q + r && 0 <= r < n;
    assert n * (q + 1 - lo) == n * q + n - n * lo;
    MulPosFactor(n, q + 1 - lo);
    assert n * (hi + 1 - q) == n * (hi + 1) - n * q;
    MulPosFactor(n, hi + 1 - q);
  }

  /** `(sum + count / 2) / count`: the mean of channel `k` over the group,
      rounded half up. It lies between the channel's minimum and maximum, so
      storing it in an `unsigned char` never truncates. */
  function RoundedMean(g: seq<Entry>, k: Channel): (m: Byte)
    requires |g| > 0
    ensures MinOf(g, k) <= m <= MaxOf(g, k)
  {
    var n, lo, hi := |g|, MinOf(g, k), MaxOf(g, k);
    RangeOf(g, k);
    SumBetween(g, k, lo, hi);
    MulSucc(hi, n);
    assert n * (hi + 1) == (hi + 1) * n;
    QuotientBetween(SumOf(g, k) + n / 2, n, lo, hi);
    (SumOf(g, k) + n / 2) / n
  }

  /** The widest spread over the three channels. */
  function Widest(g: seq<Entry>): (w: int)
    requires |g| > 0
    ensures forall k: Channel :: Spread(g, k) <= w
    ensures exists k: Channel :: Spread(g, k) == w
  {
    var r, gr, b := Spread(g, 0), Spread(g, 1), Spread(g, 2);
    if r >= gr && r >= b then r else if gr >= b then gr else b
  }

  /** The spread `sqi_examine_group` reports is the widest one. */
  lemma ExaminedWidest(g: seq<Entry>, component: int, size: int, sum: int)
    requires Examined(g, component, size, sum)
    ensures size == Widest(g)
  {
  }

  /** The channel `sqi_examine_group` settles on: the first of widest
      spread, red before green before blue. */
  function WidestChannel(g: seq<Entry>): (k: Channel)
    requires |g| > 0
    ensures Spread(g, k) == Widest(g)
    ensures forall j: Channel :: j < k ==> Spread(g, j) < Widest(g)
  {
    if Spread(g, 0) == Widest(g) then 0 else if Spread(g, 1) == Widest(g) then 1 else 2
  }

  /** What `sqi_examine_group` reports is determined by the group: the
      first widest channel, its spread and its total. */
  lemma ExaminedChannel(g: seq<Entry>, component: int, size: int, sum: int)
    requires Examined(g, component, size, sum)
    ensures component == WidestChannel(g) && size == Widest(g) && sum == SumOf(g, component)
  {
  }

  /** A group holding two different colours spreads over some channel. */
  lemma DistinctPairSpread(g: seq<Entry>) returns (k: Channel)
    requires |g| >= 2 && DistinctColours(g)
    ensures Spread(g, k) > 0
  {
    assert g[0].rgb != g[1].rgb;
    if Key(g[0], 0) != Key(g[1], 0) {
      k := 0;
    } else if Key(g[0], 1) != Key(g[1], 1) {
      k := 1;
    } else {
      k := 2;
    }
    RangeOf(g, k);
  }

  /** A group that spreads over channel `k` has at least two members and a
      positive total on that channel, so a cut at half the total always
      leaves both halves non-empty. */
  lemma WideGroup(g: seq<Entry>, k: Channel)
    requires |g| > 0 && Spread(g, k) > 0
    ensures |g| >= 2 && SumOf(g, k) > 0
  {
    RangeOf(g, k);
    var i :| 0 <= i < |g| && MaxOf(g, k) == Key(g[i], k);
    SumAtLeastMember(g, k, i);
  }

  /** Extending a prefix by one member updates the running total, minimum
      and maximum of each channel the way one step of the scan does. */
  lemma StepStats(g: seq<Entry>, i: nat, k: Channel)
    requires 0 < i < |g|
    ensures SumOf(g[..i + 1], k) == SumOf(g[..i], k) + Key(g[i], k)
    ensures MinOf(g[..i + 1], k) == if MinOf(g[..i], k) > Key(g[i], k) then Key(g[i], k) else MinOf(g[..i], k)
    ensures MaxOf(g[..i + 1], k) == if MaxOf(g[..i], k) < Key(g[i], k) then Key(g[i], k) else MaxOf(g[..i], k)
  {
    assert g[..i + 1][..i] == g[..i];
  }

  /** `sqi_examine_group`: one pass over a non-empty group collecting the
      minimum, maximum and total of each channel, then the choice of the
      channel of widest spread. */
  method ExamineGroup(g: seq<Entry>) returns (component: Channel, size: int, sum: int)
    requires |g| > 0
    ensures size == Spread(g, component) && sum == SumOf(g, component)
    ensures forall k: Channel :: Spread(g, k) <= size
    ensures forall k: Channel :: k < component ==> Spread(g, k) < size
  {
    var rs, rmin, rmax := Key(g[0], 0), Key(g[0], 0), Key(g[0], 0);
    var gs, gmin, gmax := Key(g[0], 1), Key(g[0], 1), Key(g[0], 1);
    var bs, bmin, bmax := Key(g[0], 2), Key(g[0], 2), Key(g[0], 2);
    assert g[..1][..0] == [];
    var i := 1;
    while i < |g|
      invariant 1 <= i <= |g|
      invariant rs == SumOf(g[..i], 0) && rmin == MinOf(g[..i], 0) && rmax == MaxOf(g[..i], 0)
      invariant gs == SumOf(g[..i], 1) && gmin == MinOf(g[..i], 1) && gmax == MaxOf(g[..i], 1)
      invariant bs == SumOf(g[..i], 2) && bmin == MinOf(g[..i], 2) && bmax == MaxOf(g[..i], 2)
    {
      StepStats(g, i, 0);
      StepStats(g, i, 1);
      StepStats(g, i, 2);
      var v := Key(g[i], 0);
      rs := rs + v;
      if rmin > v { rmin := v; }
      if rmax < v { rmax := v; }
      v := Key(g[i], 1);
      gs := gs + v;
      if gmin > v { gmin := v; }
      if gmax < v { gmax := v; }
      v := Key(g[i], 2);
      bs := bs + v;
      if bmin > v { bmin := v; }
      if bmax < v { bmax := v; }
      i := i + 1;
    }
    assert g[..i] == g;
    size, component, sum := rmax - rmin, 0, rs;
    if gmax - gmin > size {
      size, component, sum := gmax - gmin, 1, gs;
    }
    if bmax - bmin > size {
      size, component, sum := bmax - bmin, 2, bs;
    }
  }

  /** C's `x / 2` on a signed int: the quotient is truncated toward zero. */
  function HalfTowardZero(x: int): int
  {
    if x >= 0 then x / 2 else -((-x) / 2)
  }

  /** How many members `sqi_cut_group` leaves at the front of `g` when it
      cuts at `median` on channel `k`, the scan having reached member `t`:
      the head alone, or the longest prefix whose total is at most `median`.
      The member after the prefix takes the total past `median`. */
  function KeptFrom(g: seq<Entry>, k: Channel, median: int, t: nat): (n: nat)
    requires 1 <= t <= |g| && (t == 1 || SumOf(g[..t], k) <= median)
    ensures t <= n <= |g|
    ensures n == 1 || SumOf(g[..n], k) <= median
    ensures n < |g| ==> SumOf(g[..n + 1], k) > median
    decreases |g| - t
  {
    if t < |g| && SumOf(g[..t + 1], k) <= median then KeptFrom(g, k, median, t + 1)
    else t
  }

  /** The cut position is the only one with those two properties, because
      the running totals never decrease. */
  lemma KeptUnique(g: seq<Entry>, k: Channel, median: int, n: nat)
    requires 1 <= n <= |g|
    requires n == 1 || SumOf(g[..n], k) <= median
    requires n < |g| ==> SumOf(g[..n + 1], k) > median
    ensures n == KeptFrom(g, k, median, 1)
  {
    var m := KeptFrom(g, k, median, 1);
    if n < m {
      PrefixSumsGrow(g, k, n + 1, m);
    } else if m < n {
      PrefixSumsGrow(g, k, m + 1, n);
    }
  }

  /** Where the scan of `sqi_cut_group` stops: after the first member whose
      value takes the running total past `median`. The head then stays
      alone, or the members before that one stay. */
  lemma ScanEnd(g: seq<Entry>, k: Channel, median: int, t: nat)
    requires 1 <= t <= |g| && SumOf(g[..t], k) > median
    requires SumOf(g[..t - 1], k) <= median
    ensures (if t == 1 then 1 else t - 1) == KeptFrom(g, k, median, 1)
  {
    if t == 1 {
      if 1 < |g| {
        PrefixSumsGrow(g, k, 1, 2);
      }
      KeptUnique(g, k, median, 1);
    } else {
      KeptUnique(g, k, median, t - 1);
    }
  }

  /** `sqi_cut_group`: walk the group adding up channel `component` while the
      running total is at most `max / 2`. The member whose value pushes the
      total past that point starts the second list, except when it is the
      head, which then stays alone in the first. `kept` is what remains of
      the group and `second` the list returned, empty for NULL. */
  method CutGroup(g: seq<Entry>, component: Channel, max: int) returns (kept: seq<Entry>, second: seq<Entry>)
    requires HalfTowardZero(max) < 0 || SumOf(g, component) > HalfTowardZero(max)
    ensures kept + second == g
    ensures HalfTowardZero(max) < 0 ==> second == []
    ensures HalfTowardZero(max) >= 0 ==> 1 <= |kept| <= |g|
    ensures HalfTowardZero(max) >= 0 && |g| > 0 && SumOf(g[..1], component) > HalfTowardZero(max) ==>
              |kept| == 1
    ensures HalfTowardZero(max) >= 0 && |g| > 0 && SumOf(g[..1], component) <= HalfTowardZero(max) ==>
              && |kept| < |g|
              && SumOf(g[..|kept|], component) <= HalfTowardZero(max) < SumOf(g[..|kept| + 1], component)
    ensures second == [] ==> HalfTowardZero(max) < 0 || |g| == 1
    ensures HalfTowardZero(max) >= 0 && |g| > 0 ==> |kept| == KeptFrom(g, component, HalfTowardZero(max), 1)
  {
    var median := HalfTowardZero(max);
    var count := 0;
    var t := 0;  // members consumed; `second` is g[t-1] and `fore` g[t-2]
    assert g[..|g|] == g;
    while count <= median
      invariant 0 <= t <= |g|
      invariant count == SumOf(g[..t], component)
      invariant 0 < t ==> SumOf(g[..t - 1], component) <= median
      invariant t == |g| ==> count > median
      decreases |g| - t
    {
      assert g[..t + 1][..t] == g[..t];
      count := count + Key(g[t], component);
      t := t + 1;
    }
    if t == 0 {
      // second == NULL: the group is left as it was
      kept, second := g, [];
    } else if t == 1 {
      // fore == NULL: the head stays alone
      ScanEnd(g, component, median, t);
      kept, second := g[..1], g[1..];
    } else {
      ScanEnd(g, component, median, t);
      PrefixSumsGrow(g, component, 1, t - 1);
      kept, second := g[..t - 1], g[t - 1..];
    }
  }
}
