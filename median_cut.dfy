/** The reduction half of `sq_reduce`: the greedy loop that keeps cutting the
    widest group at its median until there are as many groups as palette
    slots, and the synthesis of one palette colour per group. */
module MedianCut {
  import opened Bytes
  import opened Colors
  import opened BucketSort
  import opened Groups

  /** All members of the groups, counted with multiplicity. */
  function Members(gs: seq<seq<Entry>>): multiset<Entry>
  {
    if gs == [] then multiset{} else Members(gs[..|gs| - 1]) + multiset(gs[|gs| - 1])
  }

  /** Cutting group `i` in two and appending the second part keeps the
      members. */
  lemma {:induction false} MembersSplit(gs: seq<seq<Entry>>, i: nat, kept: seq<Entry>, second: seq<Entry>)
    requires i < |gs| && multiset(kept) + multiset(second) == multiset(gs[i])
    ensures Members(gs[i := kept] + [second]) == Members(gs)
    decreases |gs|
  {
    var n := |gs| - 1;
    var gs' := gs[i := kept] + [second];
    assert gs'[..|gs'| - 1] == gs[i := kept];
    if i < n {
      MembersSplit(gs[..n], i, kept, second);
      assert gs[i := kept][..n] == gs[..n][i := kept];
      assert gs[..n][i := kept] + [second] == (gs[..n][i := kept] + [second])[..n + 1];
      var a := Members(gs[..n][i := kept]);
      assert Members(gs[i := kept]) == a + multiset(gs[n]);
      assert Members(gs[..n][i := kept] + [second]) == a + multiset(second);
      assert Members(gs) == Members(gs[..n]) + multiset(gs[n]);
    } else {
      assert gs[i := kept][..n] == gs[..n];
    }
  }

  /** Every group lies within the members. */
  lemma {:induction false} GroupWithin(gs: seq<seq<Entry>>, j: nat)
    requires j < |gs|
    ensures multiset(gs[j]) <= Members(gs)
    decreases |gs|
  {
    if j < |gs| - 1 {
      GroupWithin(gs[..|gs| - 1], j);
    }
  }

  /** A member sits at some place of some group. */
  lemma {:induction false} GroupOf(gs: seq<seq<Entry>>, e: Entry) returns (j: nat, t: nat)
    requires e in Members(gs)
    ensures j < |gs| && t < |gs[j]| && gs[j][t] == e
    decreases |gs|
  {
    var n := |gs| - 1;
    if e in multiset(gs[n]) {
      var u :| 0 <= u < |gs[n]| && gs[n][u] == e;
      j, t := n, u;
    } else {
      j, t := GroupOf(gs[..n], e);
    }
  }

  /** Pigeonhole: more members than groups puts two members in one group. */
  lemma {:induction false} SomeGroupLarge(gs: seq<seq<Entry>>) returns (j: nat)
    requires |Members(gs)| > |gs|
    ensures j < |gs| && |gs[j]| >= 2
    decreases |gs|
  {
    var n := |gs| - 1;
    if |gs[n]| >= 2 {
      j := n;
    } else {
      assert |multiset(gs[n])| == |gs[n]|;
      j := SomeGroupLarge(gs[..n]);
    }
  }

  /** While there are fewer groups than distinct colours, some group spreads
      over some channel. */
  lemma SomeGroupSpreads(gs: seq<seq<Entry>>, active: seq<Entry>) returns (j: nat, k: Channel)
    requires DistinctColours(active) && Members(gs) == multiset(active) && |gs| < |active|
    ensures j < |gs| && |gs[j]| > 0 && Spread(gs[j], k) > 0
  {
    j := SomeGroupLarge(gs);
    GroupWithin(gs, j);
    DistinctColoursWithin(active, gs[j]);
    k := DistinctPairSpread(gs[j]);
  }

  /** The first entry of each non-empty group. */
  function Heads(gs: seq<seq<Entry>>): (h: seq<Entry>)
    requires forall j :: 0 <= j < |gs| ==> |gs[j]| > 0
    ensures |h| == |gs|
  {
    if gs == [] then [] else Heads(gs[..|gs| - 1]) + [gs[|gs| - 1][0]]
  }

  lemma {:induction false} HeadAt(gs: seq<seq<Entry>>, j: nat)
    requires forall j :: 0 <= j < |gs| ==> |gs[j]| > 0
    requires j < |gs|
    ensures Heads(gs)[j] == gs[j][0]
    decreases |gs|
  {
    if j < |gs| - 1 {
      HeadAt(gs[..|gs| - 1], j);
    }
  }

  /** The heads are members too, each counted once per group. */
  lemma {:induction false} HeadsWithin(gs: seq<seq<Entry>>)
    requires forall j :: 0 <= j < |gs| ==> |gs[j]| > 0
    ensures multiset(Heads(gs)) <= Members(gs)
    decreases |gs|
  {
    if gs != [] {
      var g := gs[|gs| - 1];
      HeadsWithin(gs[..|gs| - 1]);
      assert g == [g[0]] + g[1..];
      assert multiset{g[0]} <= multiset(g);
    }
  }

  /** Cutting an ordered list leaves both parts ordered. */
  lemma OrderedParts(g: seq<Entry>, k: Channel, kept: seq<Entry>, second: seq<Entry>)
    requires kept + second == g && NonDecreasing(g, k)
    ensures NonDecreasing(kept, k) && NonDecreasing(second, k)
  {
    assert forall a :: 0 <= a < |kept| ==> kept[a] == g[a];
    assert forall a :: 0 <= a < |second| ==> second[a] == g[|kept| + a];
  }

  /** The search for the largest group: the lowest-numbered group of maximal
      size among the first `groups`. */
  method LargestGroup(size: seq<int>, groups: int) returns (i: int)
    requires 0 < groups <= |size|
    ensures 0 <= i < groups && i == FirstLargest(size[..groups])
    ensures forall n :: 0 <= n < groups ==> size[n] <= size[i]
    ensures forall n :: 0 <= n < i ==> size[n] < size[i]
  {
    i := 0;
    assert size[..1][..0] == [];
    for n := 1 to groups
      invariant 0 <= i < n && i == FirstLargest(size[..n])
    {
      assert size[..n + 1][..n] == size[..n];
      if size[n] > size[i] {
        i := n;
      }
    }
    assert size[..groups][i] == size[i];
    forall m | 0 <= m < groups
      ensures size[m] <= size[i] && (m < i ==> size[m] < size[i])
    {
      assert size[..groups][m] == size[m];
    }
  }

  /** The place the scan for the largest group settles on: the first place
      holding the maximum of `w`. */
  function FirstLargest(w: seq<int>): (i: nat)
    requires |w| > 0
    ensures i < |w|
    ensures forall j :: 0 <= j < |w| ==> w[j] <= w[i]
    ensures forall j :: 0 <= j < i ==> w[j] < w[i]
    decreases |w|
  {
    if |w| == 1 then 0
    else
      var i := FirstLargest(w[..|w| - 1]);
      if w[|w| - 1] > w[i] then |w| - 1 else i
  }

  /** The widest spread of each group. */
  function Widths(gs: seq<seq<Entry>>): (w: seq<int>)
    requires forall j :: 0 <= j < |gs| ==> |gs[j]| > 0
    ensures |w| == |gs| && forall j :: 0 <= j < |gs| ==> w[j] == Widest(gs[j])
  {
    seq(|gs|, j requires 0 <= j < |gs| => Widest(gs[j]))
  }

  /** The list the split loop cuts: the group as it stands when it is
      already marked as ordered on channel `k`, otherwise the group
      radix-sorted on `k`. Either way it holds the group's members. */
  function CutOrder(g: seq<Entry>, k: Channel, order: int): (h: seq<Entry>)
    ensures multiset(h) == multiset(g) && |h| == |g|
  {
    if order == k then g
    else
      RadixSortCorrect(g, k);
      assert |multiset(RadixSorted(g, k))| == |multiset(g)|;
      RadixSorted(g, k)
  }

  /** The state of the split loop: the groups so far, and for each the
      channel it is marked as ordered on, -1 for none. */
  datatype SplitState = SplitState(groups: seq<seq<Entry>>, orders: seq<int>)

  /** A state of the split loop over a list of distinct colours: non-empty
      groups that share out the list's members, one mark per group. */
  predicate Splittable(st: SplitState, active: seq<Entry>)
  {
    && DistinctColours(active)
    && 0 < |st.groups| && |st.orders| == |st.groups|
    && (forall j :: 0 <= j < |st.groups| ==> |st.groups[j]| > 0)
    && Members(st.groups) == multiset(active)
  }

  /** While there are fewer groups than distinct colours, the widest group
      spreads, so the cut leaves both parts non-empty and the parts keep the
      members. */
  lemma RoundCuts(gs: seq<seq<Entry>>, active: seq<Entry>, i: nat, k: Channel, h: seq<Entry>, n: nat)
    requires DistinctColours(active) && Members(gs) == multiset(active) && 0 < |gs| < |active|
    requires forall j :: 0 <= j < |gs| ==> |gs[j]| > 0
    requires i == FirstLargest(Widths(gs)) && k == WidestChannel(gs[i]) && multiset(h) == multiset(gs[i])
    requires |h| > 0 && n == KeptFrom(h, k, HalfTowardZero(SumOf(gs[i], k)), 1)
    ensures 0 < n < |h|
    ensures Members(gs[i := h[..n]] + [h[n..]]) == multiset(active)
  {
    CutInside(gs, active, i, k, h, n);
    CutKeepsMembers(gs, i, h, n);
  }

  /** Cutting a reordering of group `i` anywhere keeps the members. */
  lemma CutKeepsMembers(gs: seq<seq<Entry>>, i: nat, h: seq<Entry>, n: nat)
    requires i < |gs| && n <= |h| && multiset(h) == multiset(gs[i])
    ensures Members(gs[i := h[..n]] + [h[n..]]) == Members(gs)
  {
    var a, b := h[..n], h[n..];
    assert h == a + b;
    assert multiset(h) == multiset(a) + multiset(b);
    MembersSplit(gs, i, a, b);
  }

  /** The cut of the widest group falls strictly inside it. */
  lemma CutInside(gs: seq<seq<Entry>>, active: seq<Entry>, i: nat, k: Channel, h: seq<Entry>, n: nat)
    requires DistinctColours(active) && Members(gs) == multiset(active) && 0 < |gs| < |active|
    requires forall j :: 0 <= j < |gs| ==> |gs[j]| > 0
    requires i == FirstLargest(Widths(gs)) && k == WidestChannel(gs[i]) && multiset(h) == multiset(gs[i])
    requires |h| > 0 && n == KeptFrom(h, k, HalfTowardZero(SumOf(gs[i], k)), 1)
    ensures 0 < n < |h|
  {
    var j, c := SomeGroupSpreads(gs, active);
    assert Spread(gs[i], k) > 0;
    WideGroup(gs[i], k);
    SumOfPermutation(gs[i], h, k);
    assert h[..|h|] == h;
  }

  /** One round of the split loop: the widest group is ordered on its widest
      channel unless it is already marked so, cut where `sqi_cut_group` cuts
      at half its total on that channel, and its second part becomes the
      last group. Both parts are marked as ordered on that channel. */
  function Round(st: SplitState, active: seq<Entry>): (st': SplitState)
    requires Splittable(st, active) && |st.groups| < |active|
    ensures Splittable(st', active) && |st'.groups| == |st.groups| + 1
  {
    var gs := st.groups;
    var i := FirstLargest(Widths(gs));
    var k := WidestChannel(gs[i]);
    var h := CutOrder(gs[i], k, st.orders[i]);
    var n := KeptFrom(h, k, HalfTowardZero(SumOf(gs[i], k)), 1);
    RoundCuts(gs, active, i, k, h, n);
    SplitState(gs[i := h[..n]] + [h[n..]], st.orders[i := k] + [k])
  }

  /** The split loop's state after `n` rounds, starting from one unmarked
      group holding the whole list. */
  function Rounds(active: seq<Entry>, n: nat): (st: SplitState)
    requires DistinctColours(active) && n < |active|
    ensures Splittable(st, active) && |st.groups| == n + 1
  {
    if n == 0 then
      assert [active][..0] == [];
      SplitState([active], [-1])
    else Round(Rounds(active, n - 1), active)
  }

  /** One group of the split loop: examined, and ordered by channel `order`
      unless `order` is -1. */
  predicate GroupOk(g: seq<Entry>, component: int, size: int, sum: int, order: int)
  {
    Examined(g, component, size, sum) && -1 <= order < 3 && (order >= 0 ==> NonDecreasing(g, order))
  }

  /** What the split loop keeps true of its groups. */
  predicate GroupsInv(gs: seq<seq<Entry>>, comps: seq<int>, sizes: seq<int>, sums: seq<int>, orders: seq<int>)
  {
    && |comps| == |gs| && |sizes| == |gs| && |sums| == |gs| && |orders| == |gs|
    && (forall j {:trigger GroupOk(gs[j], comps[j], sizes[j], sums[j], orders[j])} ::
          0 <= j < |gs| ==> GroupOk(gs[j], comps[j], sizes[j], sums[j], orders[j]))
  }

  /** Replacing group `i` by its first part and appending its second part
      keeps the loop invariant. */
  lemma GroupsInvSplit(gs: seq<seq<Entry>>, comps: seq<int>, sizes: seq<int>, sums: seq<int>, orders: seq<int>,
                       i: nat, kept: seq<Entry>, c1: int, z1: int, m1: int,
                       second: seq<Entry>, c2: int, z2: int, m2: int, order: int)
    requires GroupsInv(gs, comps, sizes, sums, orders) && i < |gs|
    requires GroupOk(kept, c1, z1, m1, order) && GroupOk(second, c2, z2, m2, order)
    ensures GroupsInv(gs[i := kept] + [second], comps[i := c1] + [c2], sizes[i := z1] + [z2],
                      sums[i := m1] + [m2], orders[i := order] + [order])
  {
    var gs', comps', sizes', sums', orders' :=
      gs[i := kept] + [second], comps[i := c1] + [c2], sizes[i := z1] + [z2], sums[i := m1] + [m2],
      orders[i := order] + [order];
    forall j | 0 <= j < |gs'|
      ensures GroupOk(gs'[j], comps'[j], sizes'[j], sums'[j], orders'[j])
    {
      if j != i && j < |gs| {
        assert GroupOk(gs[j], comps[j], sizes[j], sums[j], orders[j]);
      }
    }
  }

  /** One round of the split loop on the chosen group `g`, which `Examined`
      describes and which spreads: halve it and examine both halves. The
      halves are the cut `Halve` makes, and both are examined and marked as
      ordered on the group's widest channel. */
  method CutWidest(g: seq<Entry>, component: int, size: int, sum: int, order: int)
    returns (kept: seq<Entry>, c1: int, z1: int, m1: int,
             second: seq<Entry>, c2: int, z2: int, m2: int, order': int)
    requires Examined(g, component, size, sum) && size > 0
    requires -1 <= order < 3 && (order >= 0 ==> NonDecreasing(g, order))
    ensures order' == component
    ensures |kept| > 0 && |second| > 0 && kept + second == CutOrder(g, component, order)
    ensures |kept| == KeptFrom(kept + second, component, HalfTowardZero(sum), 1)
    ensures multiset(kept) + multiset(second) == multiset(g)
    ensures GroupOk(kept, c1, z1, m1, order') && GroupOk(second, c2, z2, m2, order')
  {
    kept, second, order' := Halve(g, component, size, sum, order);
    c1, z1, m1 := ExamineGroup(kept);
    c2, z2, m2 := ExamineGroup(second);
  }

  /** Sort `g` on its widest channel unless `order` says it already is, and
      cut it where `sqi_cut_group` cuts at half the channel's total: after
      the head alone, or after the longest prefix whose total is at most
      that half. Neither half is empty, together they hold the members of
      `g` in the order cut, and both are ordered on the widest channel. */
  method Halve(g: seq<Entry>, component: int, size: int, sum: int, order: int)
    returns (kept: seq<Entry>, second: seq<Entry>, order': int)
    requires Examined(g, component, size, sum) && size > 0
    requires -1 <= order < 3 && (order >= 0 ==> NonDecreasing(g, order))
    ensures order' == component
    ensures |kept| > 0 && |second| > 0 && kept + second == CutOrder(g, component, order)
    ensures |kept| == KeptFrom(kept + second, component, HalfTowardZero(sum), 1)
    ensures multiset(kept) + multiset(second) == multiset(g)
    ensures NonDecreasing(kept, component) && NonDecreasing(second, component)
  {
    var h := g;
    if order != component {
      h := SortGroup(g, component);
    }
    order' := component;
    assert h == CutOrder(g, component, order);
    ExaminedPermutation(g, h, component, size, sum);
    WideGroup(h, component);
    assert HalfTowardZero(sum) < sum;
    var rest;
    kept, rest := CutGroup(h, component, sum);
    if rest == [] {
      // cannot happen: the widest group has two members and a positive total
      assert false;
    }
    second := rest;
    OrderedParts(h, component, kept, second);
    assert multiset(kept + second) == multiset(kept) + multiset(second);
  }

  /** A round of the split loop as `Split` performs it is the round `Round`
      describes: `LargestGroup` finds the first widest group, the examined channel is
      `WidestChannel`, and `Halve` cuts where `KeptFrom` says. */
  lemma RoundStep(active: seq<Entry>, gs: seq<seq<Entry>>, comps: seq<int>, sizes: seq<int>, sums: seq<int>,
                  orders: seq<int>, i: nat, k: Channel, kept: seq<Entry>, second: seq<Entry>)
    requires Splittable(SplitState(gs, orders), active) && |gs| < |active|
    requires GroupsInv(gs, comps, sizes, sums, orders)
    requires |gs| > 0 && i == FirstLargest(sizes)
    requires k == comps[i] && |kept| > 0 && kept + second == CutOrder(gs[i], k, orders[i])
    requires |kept| == KeptFrom(kept + second, k, HalfTowardZero(sums[i]), 1)
    ensures Round(SplitState(gs, orders), active) == SplitState(gs[i := kept] + [second], orders[i := k] + [k])
  {
    forall j | 0 <= j < |gs|
      ensures sizes[j] == Widest(gs[j])
    {
      assert GroupOk(gs[j], comps[j], sizes[j], sums[j], orders[j]);
      ExaminedChannel(gs[j], comps[j], sizes[j], sums[j]);
    }
    assert sizes == Widths(gs);
    assert GroupOk(gs[i], comps[i], sizes[i], sums[i], orders[i]);
    ExaminedChannel(gs[i], comps[i], sizes[i], sums[i]);
    var h := kept + second;
    assert h[..|kept|] == kept && h[|kept|..] == second;
  }

  /** Writing slot `i` and then the next free slot `n` of a buffer extends
      its used part by one. */
  lemma SliceAfterSplit<T>(s: seq<T>, n: nat, i: nat, x: T, y: T)
    requires i < n < |s|
    ensures s[i := x][n := y][..n + 1] == s[..n][i := x] + [y]
  {
  }

  /** What the split loop keeps true of its five buffers while it holds `g`
      groups: the first `g` places describe examined groups, and the groups
      with their marks are the state `Rounds` gives after `g - 1` rounds. */
  predicate SplitInv(active: seq<Entry>, group: seq<seq<Entry>>, component: seq<int>, size: seq<int>,
                     sum: seq<int>, sorted: seq<int>, g: nat)
  {
    && DistinctColours(active) && 0 < g <= |active|
    && g <= |group| && |component| == |size| == |sum| == |sorted| == |group|
    && GroupsInv(group[..g], component[..g], size[..g], sum[..g], sorted[..g])
    && AfterRounds(SplitState(group[..g], sorted[..g]), active, g - 1)
  }

  /** `st` is the state after `n` rounds. The quantifier has `Rounds` as its
      only trigger, so a proof unfolds the rounds only where it names them. */
  predicate AfterRounds(st: SplitState, active: seq<Entry>, n: nat)
  {
    forall m {:trigger Rounds(active, m)} :: m == n && DistinctColours(active) && m < |active| ==> st == Rounds(active, m)
  }

  /** The first round cuts the whole list, sorted on its widest channel, at
      the point `KeptFrom` gives for half that channel's total. */
  lemma FirstRound(active: seq<Entry>, k: Channel, h: seq<Entry>, n: nat)
    requires DistinctColours(active) && 1 < |active|
    requires k == WidestChannel(active) && h == CutOrder(active, k, -1)
    requires n == KeptFrom(h, k, HalfTowardZero(SumOf(active, k)), 1)
    ensures n < |h| && Rounds(active, 1) == SplitState([h[..n], h[n..]], [k, k])
  {
    var st := SplitState([active], [-1]);
    assert Rounds(active, 0) == st;
    assert Widths(st.groups) == [Widest(active)];
    assert FirstLargest([Widest(active)]) == 0;
    assert Rounds(active, 1) == Round(st, active);
  }

  /** `groups` are the groups left after `n` rounds on `active`. Like
      `AfterRounds`, it lets a proof unfold the rounds only where it names
      them. */
  ghost predicate SplitGroups(groups: seq<seq<Entry>>, active: seq<Entry>, n: nat)
  {
    forall m {:trigger Rounds(active, m)} :: m == n && DistinctColours(active) && m < |active| ==>
      groups == Rounds(active, m).groups
  }

  /** The groups of the state after `n` rounds are the groups left after
      `n` rounds. */
  lemma GroupsAfterRounds(st: SplitState, active: seq<Entry>, n: nat)
    requires AfterRounds(st, active, n)
    ensures SplitGroups(st.groups, active, n)
  {
    forall m | m == n && DistinctColours(active) && m < |active|
      ensures st.groups == Rounds(active, m).groups
    {
      assert st == Rounds(active, m);
    }
  }

  /** One more round, as `Round` describes it, takes the state after
      `g - 1` rounds, held in the first `g` places of the buffers, to the
      state after `g` rounds, held in the first `g + 1` places. */
  lemma NextRound(active: seq<Entry>, group: seq<seq<Entry>>, sorted: seq<int>, g: nat, i: nat,
                  kept: seq<Entry>, second: seq<Entry>, k: int)
    requires DistinctColours(active) && i < g < |group| && g < |sorted| && g < |active|
    requires AfterRounds(SplitState(group[..g], sorted[..g]), active, g - 1)
    requires Round(Rounds(active, g - 1), active) ==
             SplitState(group[..g][i := kept] + [second], sorted[..g][i := k] + [k])
    ensures AfterRounds(SplitState(group[i := kept][g := second][..g + 1],
                                   sorted[i := k][g := k][..g + 1]), active, g)
  {
    SliceAfterSplit(group, g, i, kept, second);
    SliceAfterSplit(sorted, g, i, k, k);
    assert Rounds(active, g) == Round(Rounds(active, g - 1), active);
  }

  /** The group `LargestGroup` picks among the first `g` can be cut: it is
      examined, ordered as marked, and, while there are fewer groups than
      distinct colours, it spreads. */
  lemma PickedGroup(active: seq<Entry>, group: seq<seq<Entry>>, component: seq<int>, size: seq<int>,
                    sum: seq<int>, sorted: seq<int>, g: nat, i: int)
    requires SplitInv(active, group, component, size, sum, sorted, g) && g < |active|
    requires 0 <= i < g && forall m :: 0 <= m < g ==> size[m] <= size[i]
    ensures Examined(group[i], component[i], size[i], sum[i]) && size[i] > 0
    ensures -1 <= sorted[i] < 3 && (sorted[i] >= 0 ==> NonDecreasing(group[i], sorted[i]))
  {
    var gs, comps, sizes, sums, orders := group[..g], component[..g], size[..g], sum[..g], sorted[..g];
    assert SplitState(gs, orders) == Rounds(active, g - 1);
    var j, k := SomeGroupSpreads(gs, active);
    assert GroupOk(gs[j], comps[j], sizes[j], sums[j], orders[j]);
    assert GroupOk(gs[i], comps[i], sizes[i], sums[i], orders[i]);
  }

  /** The groups and marks after one pass of the split loop's body are the
      state after one more round. */
  lemma StateAdvance(active: seq<Entry>, group: seq<seq<Entry>>, component: seq<int>, size: seq<int>,
                     sum: seq<int>, sorted: seq<int>, g: nat, i: nat, k: Channel,
                     kept: seq<Entry>, second: seq<Entry>)
    requires SplitInv(active, group, component, size, sum, sorted, g) && g < |active| && g < |group|
    requires i < g && i == FirstLargest(size[..g])
    requires k == component[i] && |kept| > 0 && kept + second == CutOrder(group[i], k, sorted[i])
    requires |kept| == KeptFrom(kept + second, k, HalfTowardZero(sum[i]), 1)
    ensures AfterRounds(SplitState(group[i := kept][g := second][..g + 1],
                                   sorted[i := k][g := k][..g + 1]), active, g)
  {
    var gs, comps, sizes, sums, orders := group[..g], component[..g], size[..g], sum[..g], sorted[..g];
    assert SplitState(gs, orders) == Rounds(active, g - 1);
    RoundStep(active, gs, comps, sizes, sums, orders, i, k, kept, second);
    NextRound(active, group, sorted, g, i, kept, second, k);
  }

  /** One pass of the split loop's body keeps `SplitInv`: with `g` groups
      so far, the picked group `i` is replaced by the kept part, the second
      part goes to place `g`, and both parts are recorded as examined and
      ordered. */
  lemma SplitAdvance(active: seq<Entry>, group: seq<seq<Entry>>, component: seq<int>, size: seq<int>,
                     sum: seq<int>, sorted: seq<int>, g: nat, i: nat, k: Channel,
                     kept: seq<Entry>, c1: int, z1: int, m1: int,
                     second: seq<Entry>, c2: int, z2: int, m2: int)
    requires SplitInv(active, group, component, size, sum, sorted, g) && g < |active| && g < |group|
    requires i < g && i == FirstLargest(size[..g])
    requires k == component[i] && |kept| > 0 && kept + second == CutOrder(group[i], k, sorted[i])
    requires |kept| == KeptFrom(kept + second, k, HalfTowardZero(sum[i]), 1)
    requires GroupOk(kept, c1, z1, m1, k) && GroupOk(second, c2, z2, m2, k)
    ensures SplitInv(active, group[i := kept][g := second], component[i := c1][g := c2],
                     size[i := z1][g := z2], sum[i := m1][g := m2], sorted[i := k][g := k], g + 1)
  {
    var gs, comps, sizes, sums, orders := group[..g], component[..g], size[..g], sum[..g], sorted[..g];
    StateAdvance(active, group, component, size, sum, sorted, g, i, k, kept, second);
    GroupsInvSplit(gs, comps, sizes, sums, orders, i, kept, c1, z1, m1, second, c2, z2, m2, k);
    SliceAfterSplit(group, g, i, kept, second);
    SliceAfterSplit(component, g, i, c1, c2);
    SliceAfterSplit(size, g, i, z1, z2);
    SliceAfterSplit(sum, g, i, m1, m2);
    SliceAfterSplit(sorted, g, i, k, k);
  }

  /** The split loop of `sq_reduce`. Starting from one group holding every
      active colour, it repeatedly takes the widest group, sorts it on its
      widest channel unless it is already ordered that way, cuts it at the
      median and examines both halves, until there are `palwid` groups.
      `sorted[j]` is the channel group `j` is ordered by, -1 for none. The
      five per-group buffers are sequences of length `palwid` written one
      element at a time. The result is the state `Rounds` describes after
      `palwid - 1` rounds. */
  method Split(active: seq<Entry>, palwid: int) returns (group: seq<seq<Entry>>, size: seq<int>, sorted: seq<int>)
    requires DistinctColours(active) && 1 <= palwid < |active|
    ensures AfterRounds(SplitState(group, sorted), active, palwid - 1)
    ensures |group| == palwid && |size| == palwid && |sorted| == palwid
    ensures Members(group) == multiset(active)
    ensures forall j :: 0 <= j < palwid ==> |group[j]| > 0 && size[j] == Widest(group[j])
    ensures forall j :: 0 <= j < palwid ==>
              -1 <= sorted[j] < 3 && (sorted[j] >= 0 ==> NonDecreasing(group[j], sorted[j]))
  {
    group := seq(palwid, _ => []);
    sorted := seq(palwid, _ => 0);
    var component := seq(palwid, _ => 0);
    size := seq(palwid, _ => 0);
    var sum := seq(palwid, _ => 0);
    var groups := 1;
    group := group[0 := active];
    var c, sz, sm := ExamineGroup(active);
    component, size, sum := component[0 := c], size[0 := sz], sum[0 := sm];
    sorted := sorted[0 := -1];
    SplitStart(active, group, component, size, sum, sorted);
    while groups < palwid
      invariant 1 <= groups <= palwid && |group| == palwid
      invariant SplitInv(active, group, component, size, sum, sorted, groups)
      decreases palwid - groups
    {
      group, component, size, sum, sorted := SplitOnce(active, group, component, size, sum, sorted, groups);
      groups := groups + 1;
    }
    SplitDone(active, group, component, size, sum, sorted, groups);
  }

  /** One pass of the split loop's body with `g` groups so far: the widest
      group is cut in two, its first part stays in place and its second part
      goes to place `g`, and both are examined. */
  method SplitOnce(active: seq<Entry>, group: seq<seq<Entry>>, component: seq<int>, size: seq<int>,
                   sum: seq<int>, sorted: seq<int>, g: nat)
    returns (group': seq<seq<Entry>>, component': seq<int>, size': seq<int>, sum': seq<int>, sorted': seq<int>)
    requires SplitInv(active, group, component, size, sum, sorted, g) && g < |active| && g < |group|
    ensures SplitInv(active, group', component', size', sum', sorted', g + 1) && |group'| == |group|
  {
    var i := LargestGroup(size, g);
    PickedGroup(active, group, component, size, sum, sorted, g, i);
    var kept, c1, z1, m1, second, c2, z2, m2, order :=
      CutWidest(group[i], component[i], size[i], sum[i], sorted[i]);
    SplitAdvance(active, group, component, size, sum, sorted, g, i, order,
                 kept, c1, z1, m1, second, c2, z2, m2);
    group' := group[i := kept][g := second];
    component' := component[i := c1][g := c2];
    size' := size[i := z1][g := z2];
    sum' := sum[i := m1][g := m2];
    sorted' := sorted[i := order][g := order];
  }

  /** The split loop starts from one unmarked group holding every active
      colour, examined. */
  lemma SplitStart(active: seq<Entry>, group: seq<seq<Entry>>, component: seq<int>, size: seq<int>,
                   sum: seq<int>, sorted: seq<int>)
    requires DistinctColours(active) && 0 < |active| && 0 < |group|
    requires |component| == |size| == |sum| == |sorted| == |group|
    requires group[0] == active && sorted[0] == -1 && Examined(active, component[0], size[0], sum[0])
    ensures SplitInv(active, group, component, size, sum, sorted, 1)
  {
    assert group[..1] == [active] && sorted[..1] == [-1];
    assert Rounds(active, 0) == SplitState([active], [-1]);
    assert GroupOk(group[..1][0], component[..1][0], size[..1][0], sum[..1][0], sorted[..1][0]);
  }

  /** When the buffers are full, `SplitInv` gives everything `Split`
      promises. */
  lemma SplitDone(active: seq<Entry>, group: seq<seq<Entry>>, component: seq<int>, size: seq<int>,
                  sum: seq<int>, sorted: seq<int>, g: nat)
    requires SplitInv(active, group, component, size, sum, sorted, g) && |group| == g
    ensures AfterRounds(SplitState(group, sorted), active, g - 1)
    ensures Members(group) == multiset(active)
    ensures forall j :: 0 <= j < |group| ==> |group[j]| > 0 && size[j] == Widest(group[j])
    ensures forall j :: 0 <= j < |group| ==>
              -1 <= sorted[j] < 3 && (sorted[j] >= 0 ==> NonDecreasing(group[j], sorted[j]))
  {
    assert group == group[..g] && size == size[..g] && sorted == sorted[..g];
    assert component == component[..g] && sum == sum[..g];
    assert SplitState(group, sorted) == Rounds(active, g - 1);
    forall j | 0 <= j < |group|
      ensures |group[j]| > 0 && size[j] == Widest(group[j])
      ensures -1 <= sorted[j] < 3 && (sorted[j] >= 0 ==> NonDecreasing(group[j], sorted[j]))
    {
      assert GroupOk(group[j], component[j], size[j], sum[j], sorted[j]);
      ExaminedWidest(group[j], component[j], size[j], sum[j]);
    }
  }

  /** The colour a group contributes to the palette: the rounded mean of each
      channel when the group spreads by more than 1, otherwise its head's
      colour. Either way it lies inside the group's bounding box. */
  function GroupColour(g: seq<Entry>, size: int): (c: Rgb)
    requires |g| > 0
    ensures forall k: Channel :: MinOf(g, k) <= Chan(c, k) <= MaxOf(g, k)
  {
    RangeOf(g, 0);
    RangeOf(g, 1);
    RangeOf(g, 2);
    if size > 1 then Rgb(RoundedMean(g, 0), RoundedMean(g, 1), RoundedMean(g, 2)) else g[0].rgb
  }

  /** The averaging walk of the palette build: the member count and the
      total of each channel. */
  method Totals(g: seq<Entry>) returns (count: int, s0: int, s1: int, s2: int)
    ensures count == |g|
    ensures s0 == SumOf(g, 0) && s1 == SumOf(g, 1) && s2 == SumOf(g, 2)
  {
    count, s0, s1, s2 := 0, 0, 0, 0;
    while count < |g|
      invariant 0 <= count <= |g|
      invariant s0 == SumOf(g[..count], 0) && s1 == SumOf(g[..count], 1) && s2 == SumOf(g[..count], 2)
    {
      assert g[..count + 1][..count] == g[..count];
      s0 := s0 + Key(g[count], 0);
      s1 := s1 + Key(g[count], 1);
      s2 := s2 + Key(g[count], 2);
      count := count + 1;
    }
    assert g[..count] == g;
  }

  /** The colour computation of the palette build: the rounded mean of each
      channel when `size` exceeds 1, otherwise the head's colour. */
  method AverageColour(g: seq<Entry>, size: int) returns (c: Rgb)
    requires |g| > 0
    ensures c == GroupColour(g, size)
  {
    var count, s0, s1, s2 := Totals(g);
    if size > 1 {
      assert (s0 + count / 2) / count == RoundedMean(g, 0);
      assert (s1 + count / 2) / count == RoundedMean(g, 1);
      assert (s2 + count / 2) / count == RoundedMean(g, 2);
      c := Rgb((s0 + count / 2) / count, (s1 + count / 2) / count, (s2 + count / 2) / count);
    } else {
      c := g[0].rgb;
    }
  }

  /** `m` is `m0` with the slot of the head of group `j` set to `j`. */
  predicate HeadsNumbered(group: seq<seq<Entry>>, m: seq<int>, m0: seq<int>)
  {
    && |m| == |m0|
    && (forall j :: 0 <= j < |group| ==> |group[j]| > 0 && group[j][0].coloridx < |m| && m[group[j][0].coloridx] == j)
    && (forall c :: 0 <= c < |m| && (forall j :: 0 <= j < |group| ==> group[j][0].coloridx != c) ==> m[c] == m0[c])
  }

  /** The palette build of `sq_reduce` as written: slot `i` gets the colour
      of group `i`, but only the head of group `i` has its index-map entry
      set to `i`; every other entry keeps what it held. */
  method BuildPalette(group: seq<seq<Entry>>, size: seq<int>, idxmap: array<Byte>, pal: array<Rgb>)
    requires |group| == |size| == pal.Length <= 256
    requires forall i :: 0 <= i < |group| ==> |group[i]| > 0
    requires forall i :: 0 <= i < |group| ==> group[i][0].coloridx < idxmap.Length
    requires DistinctIndices(Heads(group))
    modifies idxmap, pal
    ensures forall i :: 0 <= i < pal.Length ==> pal[i] == GroupColour(group[i], size[i])
    ensures HeadsNumbered(group, idxmap[..], old(idxmap[..]))
  {
    forall i | 0 <= i < |group|
      ensures Heads(group)[i] == group[i][0]
    {
      HeadAt(group, i);
    }
    for i := 0 to |group|
      invariant forall j :: 0 <= j < i ==> pal[j] == GroupColour(group[j], size[j])
      invariant forall j :: 0 <= j < i ==> idxmap[group[j][0].coloridx] == j
      invariant forall c :: 0 <= c < idxmap.Length && (forall j :: 0 <= j < i ==> group[j][0].coloridx != c) ==>
                  idxmap[c] == old(idxmap[c])
    {
      var g := group[i];
      idxmap[g[0].coloridx] := i;
      pal[i] := AverageColour(g, size[i]);
    }
  }

  /** Two different groups together lie within the members. */
  lemma {:induction false} PairWithin(gs: seq<seq<Entry>>, i: nat, j: nat)
    requires i < j < |gs|
    ensures multiset(gs[i]) + multiset(gs[j]) <= Members(gs)
    decreases |gs|
  {
    var n := |gs| - 1;
    if j < n {
      PairWithin(gs[..n], i, j);
    } else {
      GroupWithin(gs[..n], i);
    }
  }

  /** An entry found at two places of the groups is a member twice over. */
  lemma TwoPlaces(gs: seq<seq<Entry>>, i: nat, a: nat, j: nat, b: nat)
    requires i < |gs| && a < |gs[i]| && j < |gs| && b < |gs[j]| && (i != j || a != b)
    requires gs[i][a] == gs[j][b]
    ensures Members(gs)[gs[i][a]] >= 2
  {
    if i == j {
      GroupWithin(gs, i);
      if a < b {
        TwoPositions(gs[i], a, b);
      } else {
        TwoPositions(gs[i], b, a);
      }
    } else {
      assert gs[i][a] in multiset(gs[i]) && gs[j][b] in multiset(gs[j]);
      if i < j {
        PairWithin(gs, i, j);
      } else {
        PairWithin(gs, j, i);
      }
    }
  }

  /** No two places of the groups hold the same index-map slot. */
  predicate SlotsApart(group: seq<seq<Entry>>) {
    forall i, a, j, b ::
      (0 <= i < |group| && 0 <= a < |group[i]| && 0 <= j < |group| && 0 <= b < |group[j]| && (i != j || a != b)) ==>
        group[i][a].coloridx != group[j][b].coloridx
  }

  /** Groups that share out a list of entries in distinct slots keep their
      slots apart. */
  lemma GroupSlotsApart(s: seq<Entry>, group: seq<seq<Entry>>)
    requires DistinctIndices(s) && Members(group) == multiset(s)
    ensures SlotsApart(group)
  {
    forall i, a, j, b | 0 <= i < |group| && 0 <= a < |group[i]| && 0 <= j < |group| && 0 <= b < |group[j]| &&
      (i != j || a != b)
      ensures group[i][a].coloridx != group[j][b].coloridx
    {
      var x, y := group[i][a], group[j][b];
      GroupWithin(group, i);
      GroupWithin(group, j);
      assert x in multiset(group[i]) && y in multiset(group[j]);
      var p :| 0 <= p < |s| && s[p] == x;
      var q :| 0 <= q < |s| && s[q] == y;
      DistinctOnce(s, x);
      if x == y {
        TwoPlaces(group, i, a, j, b);
        assert false;
      }
      assert p != q;
    }
  }

  /** `m` is `m0` with the slot of every member of `g` set to `i`. */
  predicate GroupNumbered(g: seq<Entry>, i: int, m: seq<int>, m0: seq<int>) {
    && |m| == |m0|
    && (forall t :: 0 <= t < |g| ==> g[t].coloridx < |m| && m[g[t].coloridx] == i)
    && (forall c :: 0 <= c < |m| && (forall t :: 0 <= t < |g| ==> g[t].coloridx != c) ==> m[c] == m0[c])
  }

  /** `m` is `m0` with the slot of every member of group `j`, for `j < n`,
      set to `j`. */
  predicate NumberedBelow(group: seq<seq<Entry>>, n: int, m: seq<int>, m0: seq<int>)
    requires n <= |group|
  {
    && |m| == |m0|
    && (forall j, t :: 0 <= j < n && 0 <= t < |group[j]| ==>
          group[j][t].coloridx < |m| && m[group[j][t].coloridx] == j)
    && (forall c :: 0 <= c < |m| && (forall j, t :: 0 <= j < n && 0 <= t < |group[j]| ==> group[j][t].coloridx != c) ==>
          m[c] == m0[c])
  }

  /** `m` is `m0` with the slot of every member of group `j` set to `j`. */
  predicate MembersNumbered(group: seq<seq<Entry>>, m: seq<int>, m0: seq<int>) {
    NumberedBelow(group, |group|, m, m0)
  }

  /** The walk over one group in the corrected palette build: every member's
      slot gets the group's number. */
  method NumberMembers(g: seq<Entry>, i: Byte, idxmap: array<Byte>)
    requires forall t :: 0 <= t < |g| ==> g[t].coloridx < idxmap.Length
    modifies idxmap
    ensures GroupNumbered(g, i, idxmap[..], old(idxmap[..]))
  {
    for t := 0 to |g|
      invariant forall u :: 0 <= u < t ==> idxmap[g[u].coloridx] == i
      invariant forall c :: 0 <= c < idxmap.Length && (forall u :: 0 <= u < t ==> g[u].coloridx != c) ==>
                  idxmap[c] == old(idxmap[c])
    {
      idxmap[g[t].coloridx] := i;
    }
  }

  /** Numbering group `i` after the groups before it keeps their numbers, as
      no slot lies in two groups. */
  lemma NumberedStep(group: seq<seq<Entry>>, i: nat, m0: seq<int>, m1: seq<int>, m2: seq<int>)
    requires i < |group| && SlotsApart(group)
    requires NumberedBelow(group, i, m1, m0) && GroupNumbered(group[i], i, m2, m1)
    ensures NumberedBelow(group, i + 1, m2, m0)
  {
    forall j, t | 0 <= j < i && 0 <= t < |group[j]|
      ensures m2[group[j][t].coloridx] == j
    {
      forall u | 0 <= u < |group[i]|
        ensures group[i][u].coloridx != group[j][t].coloridx
      {
      }
    }
    forall c | 0 <= c < |m2| && (forall j, t :: 0 <= j < i + 1 && 0 <= t < |group[j]| ==> group[j][t].coloridx != c)
      ensures m2[c] == m0[c]
    {
      assert forall t :: 0 <= t < |group[i]| ==> group[i][t].coloridx != c;
    }
  }

  /** The palette build as evidently intended: as it walks group `i` to
      average it, it gives every member's slot the index `i`. */
  method BuildPaletteAll(group: seq<seq<Entry>>, size: seq<int>, idxmap: array<Byte>, pal: array<Rgb>)
    requires |group| == |size| == pal.Length <= 256
    requires forall i :: 0 <= i < |group| ==> |group[i]| > 0
    requires forall j, t :: 0 <= j < |group| && 0 <= t < |group[j]| ==> group[j][t].coloridx < idxmap.Length
    requires SlotsApart(group)
    modifies idxmap, pal
    ensures forall i :: 0 <= i < pal.Length ==> pal[i] == GroupColour(group[i], size[i])
    ensures MembersNumbered(group, idxmap[..], old(idxmap[..]))
  {
    for i := 0 to |group|
      invariant forall j :: 0 <= j < i ==> pal[j] == GroupColour(group[j], size[j])
      invariant NumberedBelow(group, i, idxmap[..], old(idxmap[..]))
    {
      var g := group[i];
      ghost var m1 := idxmap[..];
      NumberMembers(g, i, idxmap);
      NumberedStep(group, i, old(idxmap[..]), m1, idxmap[..]);
      pal[i] := AverageColour(g, size[i]);
    }
  }

  /** Four reds cut in two as the split loop cuts them: black and (200, 0, 0)
      in group 0, (210, 0, 0) and (220, 0, 0) in group 1. */
  function RedCut(): seq<seq<Entry>> {
    [[Entry(0, Rgb(0, 0, 0)), Entry(1, Rgb(200, 0, 0))], [Entry(2, Rgb(210, 0, 0)), Entry(3, Rgb(220, 0, 0))]]
  }

  /** The four colours the cut above comes from: black and three reds. */
  function RedActive(): seq<Entry> {
    [Entry(0, Rgb(0, 0, 0)), Entry(1, Rgb(200, 0, 0)), Entry(2, Rgb(210, 0, 0)), Entry(3, Rgb(220, 0, 0))]
  }

  /** `RedCut` is what the split loop makes of those four colours for two
      palette rows: red spreads widest (220), its total 630 puts the median
      at 315, the list is already ordered on red, and the first two members
      total 200 while the first three total 410. */
  lemma RedCutIsSplit()
    ensures DistinctColours(RedActive()) && Rounds(RedActive(), 1).groups == RedCut()
  {
    var a := RedActive();
    RedRound(a);
    FirstRound(a, 0, a, 2);
    RedHalves(a);
  }

  /** The two halves the cut leaves are the two groups of `RedCut`. */
  lemma RedHalves(a: seq<Entry>)
    requires a == RedActive()
    ensures [a[..2], a[2..]] == RedCut()
  {
    assert a[..2] == RedCut()[0] && a[2..] == RedCut()[1];
  }

  /** The round on the four colours: red spreads widest, the list is already
      ordered on red, and the cut leaves two members in front. */
  lemma RedRound(a: seq<Entry>)
    requires a == RedActive()
    ensures DistinctColours(a) && WidestChannel(a) == 0 && CutOrder(a, 0, -1) == a
    ensures KeptFrom(a, 0, HalfTowardZero(SumOf(a, 0)), 1) == 2
  {
    RedOrdered(a);
    RedStats(a);
    RadixSortedStrict(a, 0);
    KeptUnique(a, 0, 315, 2);
  }

  /** The four colours are distinct, and their reds strictly increase. */
  lemma RedOrdered(a: seq<Entry>)
    requires a == RedActive()
    ensures DistinctColours(a) && forall i, j :: 0 <= i < j < |a| ==> Key(a[i], 0) < Key(a[j], 0)
  {
  }

  /** The channel statistics of the four colours that decide their cut. */
  lemma RedStats(a: seq<Entry>)
    requires a == RedActive()
    ensures SumOf(a[..2], 0) == 200 && SumOf(a[..3], 0) == 410 && SumOf(a, 0) == 630
    ensures Spread(a, 0) == 220 && Spread(a, 1) == 0 && Spread(a, 2) == 0
  {
    var p1, p2, p3 := a[..1], a[..2], a[..3];
    assert a[0].rgb == Rgb(0, 0, 0);
    assert forall k: Channel :: Key(a[0], k) == 0;
    assert p1 == [a[0]] && p1[..0] == [];
    assert forall k: Channel :: MaxOf(p1, k) == 0;
    assert forall k: Channel :: MinOf(p1, k) == 0;
    assert forall k: Channel :: SumOf(p1, k) == 0;
    assert p2[..1] == p1 && p3[..2] == p2 && a[..3] == p3;
    forall k: Channel
      ensures SumOf(p2, k) == Key(a[0], k) + Key(a[1], k)
      ensures MinOf(p2, k) == 0 && MaxOf(p2, k) == Key(a[1], k)
    {
      assert SumOf(p1, k) == Key(a[0], k) && MinOf(p1, k) == 0 && MaxOf(p1, k) == 0;
    }
    forall k: Channel
      ensures SumOf(p3, k) == SumOf(p2, k) + Key(a[2], k)
      ensures MinOf(p3, k) == 0 && MaxOf(p3, k) == Key(a[2], k)
    {
    }
    forall k: Channel
      ensures SumOf(a, k) == SumOf(p3, k) + Key(a[3], k)
      ensures MinOf(a, k) == 0 && MaxOf(a, k) == Key(a[3], k)
    {
    }
  }

  /** The statistics of a two-entry group. */
  lemma PairStats(g: seq<Entry>, k: Channel)
    requires |g| == 2
    ensures SumOf(g, k) == Key(g[0], k) + Key(g[1], k)
    ensures MinOf(g, k) == if Key(g[0], k) <= Key(g[1], k) then Key(g[0], k) else Key(g[1], k)
    ensures MaxOf(g, k) == if Key(g[0], k) <= Key(g[1], k) then Key(g[1], k) else Key(g[0], k)
  {
    var h := g[..1];
    assert h == [g[0]] && h[..0] == [];
    assert SumOf(h, k) == SumOf([], k) + Key(g[0], k);
    assert SumOf(g, k) == SumOf(h, k) + Key(g[1], k);
  }

  /** As written, slot 3 lies in group 1, whose colour is (215, 0, 0), yet it
      keeps index 0, whose row holds (100, 0, 0). */
  lemma HeadsOnlyMisnumbers(m: seq<int>)
    requires HeadsNumbered(RedCut(), m, [0, 0, 0, 0])
    ensures RedCut()[1][1].coloridx == 3 && m[3] == 0
    ensures GroupColour(RedCut()[0], Widest(RedCut()[0])) == Rgb(100, 0, 0)
    ensures GroupColour(RedCut()[1], Widest(RedCut()[1])) == Rgb(215, 0, 0)
  {
    var g0, g1 := RedCut()[0], RedCut()[1];
    assert g0[0].coloridx == 0 && g1[0].coloridx == 2;
    PairStats(g0, 0);
    PairStats(g0, 1);
    PairStats(g0, 2);
    PairStats(g1, 0);
    PairStats(g1, 1);
    PairStats(g1, 2);
    assert Widest(g0) == 200 && Widest(g1) == 10;
    assert RoundedMean(g0, 0) == 100 && RoundedMean(g0, 1) == 0 && RoundedMean(g0, 2) == 0;
    assert RoundedMean(g1, 0) == 215 && RoundedMean(g1, 1) == 0 && RoundedMean(g1, 2) == 0;
  }

  /** Corrected, slot 3 gets index 1, the row of its own group. */
  lemma AllMembersNumbered(m: seq<int>)
    requires MembersNumbered(RedCut(), m, [0, 0, 0, 0])
    ensures m[3] == 1 && m[2] == 1 && m[1] == 0 && m[0] == 0
  {
    var g: seq<seq<Entry>> := RedCut();
    assert g[0][0].coloridx == 0 && g[0][1].coloridx == 1;
    assert g[1][0].coloridx == 2 && g[1][1].coloridx == 3;
  }
}
