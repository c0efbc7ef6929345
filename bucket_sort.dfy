/** The one-pass radix sort of `sqi_sort_group`: a group is dealt into 256
    buckets keyed on one channel, keeping arrival order inside each bucket,
    and the non-empty buckets are then linked in ascending key order. */
module BucketSort {
  import opened Bytes
  import opened Colors

  /** Bucket `v`: the members of `s` whose channel `k` holds `v`, in their
      original order. */
  function Bucket(s: seq<Entry>, k: Channel, v: int): seq<Entry>
  {
    if s == [] then []
    else Bucket(s[..|s| - 1], k, v) + (if Key(s[|s| - 1], k) == v then [s[|s| - 1]] else [])
  }

  /** Buckets 0 .. n-1, each linked after the one before. */
  function Buckets(s: seq<Entry>, k: Channel, n: nat): seq<Entry>
  {
    if n == 0 then [] else Buckets(s, k, n - 1) + Bucket(s, k, n - 1)
  }

  /** What the radix sort returns: all 256 buckets in ascending key order. */
  function RadixSorted(s: seq<Entry>, k: Channel): seq<Entry>
  {
    Buckets(s, k, 256)
  }

  predicate NonDecreasing(s: seq<Entry>, k: Channel) {
    forall i, j :: 0 <= i < j < |s| ==> Key(s[i], k) <= Key(s[j], k)
  }

  /** Dealing a concatenation into a bucket deals each part in turn. */
  lemma {:induction false} BucketAppend(s: seq<Entry>, t: seq<Entry>, k: Channel, v: int)
    ensures Bucket(s + t, k, v) == Bucket(s, k, v) + Bucket(t, k, v)
    decreases |t|
  {
    if t == [] {
      assert s + t == s;
    } else {
      var t' := t[..|t| - 1];
      assert (s + t)[..|s + t| - 1] == s + t';
      BucketAppend(s, t', k, v);
    }
  }

  /** Bucket `v` holds every member with key `v` as often as `s` does, and
      nothing else. */
  lemma {:induction false} BucketCounts(s: seq<Entry>, k: Channel, v: int, e: Entry)
    ensures multiset(Bucket(s, k, v))[e] == if Key(e, k) == v then multiset(s)[e] else 0
    decreases |s|
  {
    if s != [] {
      var s' := s[..|s| - 1];
      assert s == s' + [s[|s| - 1]];
      BucketCounts(s', k, v, e);
    }
  }

  /** Every member of bucket `v` comes from `s` and holds `v`. */
  lemma BucketMember(s: seq<Entry>, k: Channel, v: int, e: Entry)
    requires e in Bucket(s, k, v)
    ensures e in s && Key(e, k) == v
  {
    BucketCounts(s, k, v, e);
    assert e in multiset(Bucket(s, k, v));
  }

  /** Re-dealing one bucket keeps it whole under its own key and empties it
      under every other. */
  lemma {:induction false} BucketOfBucket(s: seq<Entry>, k: Channel, w: int, v: int)
    ensures Bucket(Bucket(s, k, w), k, v) == if v == w then Bucket(s, k, w) else []
    decreases |s|
  {
    if s != [] {
      var s' := s[..|s| - 1];
      var x := s[|s| - 1];
      var tail := if Key(x, k) == w then [x] else [];
      BucketOfBucket(s', k, w, v);
      BucketAppend(Bucket(s', k, w), tail, k, v);
      assert [x][..0] == [];
    }
  }

  /** Linking one more bucket, with key `n - 1`, leaves every other bucket as it was. */
  lemma BucketPastLast(s: seq<Entry>, k: Channel, n: nat, v: int)
    requires 0 < n && v != n - 1
    ensures Bucket(Buckets(s, k, n), k, v) == Bucket(Buckets(s, k, n - 1), k, v)
  {
    var a := Buckets(s, k, n - 1);
    var b := Bucket(s, k, n - 1);
    BucketOfBucket(s, k, n - 1, v);
    BucketAppend(a, b, k, v);
    assert Buckets(s, k, n) == a + b;
    assert Bucket(a, k, v) + [] == Bucket(a, k, v);
  }

  /** Bucket `v` of the linked buckets 0 .. n-1 is empty when `v >= n`. */
  lemma {:induction false} BucketOfBucketsAbove(s: seq<Entry>, k: Channel, n: nat, v: int)
    requires n <= v
    ensures Bucket(Buckets(s, k, n), k, v) == []
    decreases n
  {
    if n > 0 {
      BucketOfBucketsAbove(s, k, n - 1, v);
      BucketPastLast(s, k, n, v);
    }
  }

  /** Bucket `n - 1` of the linked buckets 0 .. n-1 is bucket `n - 1` of the input. */
  lemma BucketOfLast(s: seq<Entry>, k: Channel, n: nat)
    requires 0 < n
    ensures Bucket(Buckets(s, k, n), k, n - 1) == Bucket(s, k, n - 1)
  {
    var a := Buckets(s, k, n - 1);
    var b := Bucket(s, k, n - 1);
    BucketOfBucket(s, k, n - 1, n - 1);
    BucketAppend(a, b, k, n - 1);
    BucketOfBucketsAbove(s, k, n - 1, n - 1);
    assert Buckets(s, k, n) == a + b;
    assert [] + b == b;
  }

  /** Bucket `v` of the linked buckets 0 .. n-1 is bucket `v` of the input
      when `v < n`. */
  lemma {:induction false} BucketOfBucketsBelow(s: seq<Entry>, k: Channel, n: nat, v: int)
    requires 0 <= v < n
    ensures Bucket(Buckets(s, k, n), k, v) == Bucket(s, k, v)
    decreases n
  {
    if v < n - 1 {
      BucketOfBucketsBelow(s, k, n - 1, v);
      BucketPastLast(s, k, n, v);
    } else {
      BucketOfLast(s, k, n);
    }
  }

  /** Linking buckets 0 .. n-1 gives a list ordered by key, all keys below n. */
  lemma {:induction false} BucketsOrdered(s: seq<Entry>, k: Channel, n: nat)
    ensures NonDecreasing(Buckets(s, k, n), k)
    ensures forall i :: 0 <= i < |Buckets(s, k, n)| ==> Key(Buckets(s, k, n)[i], k) < n
    decreases n
  {
    if n > 0 {
      BucketsOrdered(s, k, n - 1);
      var a := Buckets(s, k, n - 1);
      var b := Bucket(s, k, n - 1);
      var c := a + b;
      assert Buckets(s, k, n) == c;
      forall i | 0 <= i < |c|
        ensures Key(c[i], k) == if i < |a| then Key(a[i], k) else n - 1
      {
        if i >= |a| {
          assert c[i] == b[i - |a|] && b[i - |a|] in b;
          BucketMember(s, k, n - 1, b[i - |a|]);
        } else {
          assert c[i] == a[i];
        }
      }
      forall i, j | 0 <= i < j < |c|
        ensures Key(c[i], k) <= Key(c[j], k)
      {
        if j < |a| {
          assert Key(a[i], k) <= Key(a[j], k);
        }
      }
    }
  }

  /** Linking buckets 0 .. n-1 keeps exactly the members whose key is below n. */
  lemma {:induction false} BucketsCounts(s: seq<Entry>, k: Channel, n: nat, e: Entry)
    ensures multiset(Buckets(s, k, n))[e] == if Key(e, k) < n then multiset(s)[e] else 0
    decreases n
  {
    if n > 0 {
      var a := Buckets(s, k, n - 1);
      var b := Bucket(s, k, n - 1);
      BucketsCounts(s, k, n - 1, e);
      BucketCounts(s, k, n - 1, e);
      assert Buckets(s, k, n) == a + b;
      assert multiset(a + b) == multiset(a) + multiset(b);
    }
  }

  /** The radix sort returns a permutation of its input, ordered by the key,
      and stable: for every key value the members holding it appear in their
      original order. */
  lemma RadixSortCorrect(s: seq<Entry>, k: Channel)
    ensures NonDecreasing(RadixSorted(s, k), k)
    ensures multiset(RadixSorted(s, k)) == multiset(s)
    ensures forall v :: 0 <= v < 256 ==> Bucket(RadixSorted(s, k), k, v) == Bucket(s, k, v)
  {
    BucketsOrdered(s, k, 256);
    forall e
      ensures multiset(RadixSorted(s, k))[e] == multiset(s)[e]
    {
      BucketsCounts(s, k, 256, e);
    }
    forall v | 0 <= v < 256
      ensures Bucket(RadixSorted(s, k), k, v) == Bucket(s, k, v)
    {
      BucketOfBucketsBelow(s, k, 256, v);
    }
  }

  /** A list ordered on channel `k` with no key repeated is the only
      ordering of its members on `k`. */
  lemma {:induction false} StrictlyOrderedUnique(s: seq<Entry>, t: seq<Entry>, k: Channel)
    requires forall i, j :: 0 <= i < j < |s| ==> Key(s[i], k) < Key(s[j], k)
    requires NonDecreasing(t, k) && multiset(t) == multiset(s)
    ensures t == s
    decreases |s|
  {
    assert |t| == |multiset(t)| == |s|;
    if s != [] {
      var n := |s| - 1;
      LastOfOrdering(s, t, k);
      DropLast(s, t);
      var s', t' := s[..n], t[..n];
      assert forall i, j :: 0 <= i < j < |s'| ==> Key(s'[i], k) < Key(s'[j], k) by {
        forall i, j | 0 <= i < j < |s'|
          ensures Key(s'[i], k) < Key(s'[j], k)
        {
          assert s'[i] == s[i] && s'[j] == s[j];
        }
      }
      assert NonDecreasing(t', k) by {
        forall i, j | 0 <= i < j < |t'|
          ensures Key(t'[i], k) <= Key(t'[j], k)
        {
          assert t'[i] == t[i] && t'[j] == t[j];
        }
      }
      StrictlyOrderedUnique(s', t', k);
      assert s == s' + [s[n]] && t == t' + [t[n]];
    }
  }

  /** The member with the largest key ends both orderings. */
  lemma LastOfOrdering(s: seq<Entry>, t: seq<Entry>, k: Channel)
    requires forall i, j :: 0 <= i < j < |s| ==> Key(s[i], k) < Key(s[j], k)
    requires NonDecreasing(t, k) && multiset(t) == multiset(s) && |s| == |t| > 0
    ensures t[|t| - 1] == s[|s| - 1]
  {
    var n := |s| - 1;
    assert t[n] in multiset(s);
    var q :| 0 <= q < |s| && s[q] == t[n];
    assert s[n] in multiset(t);
    var r :| 0 <= r < |t| && t[r] == s[n];
    assert Key(s[n], k) <= Key(s[q], k) by {
      assert r < n ==> Key(t[r], k) <= Key(t[n], k);
    }
    assert q == n;
  }

  /** Dropping an equal last member keeps two lists' members equal. */
  lemma DropLast(s: seq<Entry>, t: seq<Entry>)
    requires multiset(t) == multiset(s) && |s| == |t| > 0 && t[|t| - 1] == s[|s| - 1]
    ensures multiset(t[..|t| - 1]) == multiset(s[..|s| - 1])
  {
    var n := |s| - 1;
    FrontMembers(s);
    FrontMembers(t);
    assert multiset(s[..n]) == multiset(s) - multiset{s[n]};
    assert multiset(t[..n]) == multiset(t) - multiset{s[n]};
  }

  /** A list's members are those of its front and its last element. */
  lemma FrontMembers<T>(s: seq<T>)
    requires |s| > 0
    ensures multiset(s[..|s| - 1]) + multiset{s[|s| - 1]} == multiset(s)
  {
    assert s == s[..|s| - 1] + [s[|s| - 1]];
  }

  /** Radix-sorting a list whose keys already strictly increase leaves it
      as it is. */
  lemma RadixSortedStrict(s: seq<Entry>, k: Channel)
    requires forall i, j :: 0 <= i < j < |s| ==> Key(s[i], k) < Key(s[j], k)
    ensures RadixSorted(s, k) == s
  {
    RadixSortCorrect(s, k);
    StrictlyOrderedUnique(s, RadixSorted(s, k), k);
  }

  /** A bucket of an ordered list is ordered the same way. */
  lemma {:induction false} BucketKeepsOrder(s: seq<Entry>, k: Channel, v: int, keys: seq<Channel>)
    requires SortedBy(s, keys)
    ensures SortedBy(Bucket(s, k, v), keys)
    decreases |s|
  {
    if s != [] {
      var s' := s[..|s| - 1];
      var x := s[|s| - 1];
      BucketKeepsOrder(s', k, v, keys);
      var b := Bucket(s', k, v);
      if Key(x, k) == v {
        forall i | 0 <= i < |b|
          ensures LexLe(b[i].rgb, x.rgb, keys)
        {
          assert b[i] in b;
          BucketMember(s', k, v, b[i]);
          var p :| 0 <= p < |s'| && s'[p] == b[i];
        }
      }
    }
  }

  /** Sorting stably on channel `k` a list already ordered by `keys` orders it
      by `k` first and by `keys` among equal `k`; this is why successive sorts
      on single channels leave a lexicographic order, the last channel sorted
      being the most significant. */
  lemma {:induction false} RadixSortRefines(s: seq<Entry>, k: Channel, keys: seq<Channel>)
    requires SortedBy(s, keys)
    ensures SortedBy(RadixSorted(s, k), [k] + keys)
  {
    BucketsRefine(s, k, keys, 256);
  }

  lemma {:induction false} BucketsRefine(s: seq<Entry>, k: Channel, keys: seq<Channel>, n: nat)
    requires SortedBy(s, keys)
    ensures SortedBy(Buckets(s, k, n), [k] + keys)
    decreases n
  {
    if n > 0 {
      BucketsRefine(s, k, keys, n - 1);
      BucketsOrdered(s, k, n - 1);
      BucketKeepsOrder(s, k, n - 1, keys);
      var a := Buckets(s, k, n - 1);
      var b := Bucket(s, k, n - 1);
      var c := a + b;
      assert ([k] + keys)[0] == k && ([k] + keys)[1..] == keys;
      forall i, j | 0 <= i < j < |c|
        ensures LexLe(c[i].rgb, c[j].rgb, [k] + keys)
      {
        if j < |a| {
          assert c[i] == a[i] && c[j] == a[j];
        } else if i >= |a| {
          assert c[i] == b[i - |a|] && c[j] == b[j - |a|];
          assert c[i] in b && c[j] in b;
          BucketMember(s, k, n - 1, c[i]);
          BucketMember(s, k, n - 1, c[j]);
        } else {
          assert c[i] == a[i] && c[j] == b[j - |a|];
          assert c[j] in b;
          BucketMember(s, k, n - 1, c[j]);
        }
      }
    }
  }

  /** Three stable sorts on channels `a`, `b`, then `c` leave the list in
      the lexicographic order `c`, `b`, `a`. */
  lemma ThreeSorts(s: seq<Entry>, a: Channel, b: Channel, c: Channel)
    ensures SortedBy(RadixSorted(RadixSorted(RadixSorted(s, a), b), c), [c, b, a])
  {
    var none: seq<Channel> := [];
    var s0 := RadixSorted(s, a);
    RadixSortRefines(s, a, none);
    assert [a] + none == [a];
    var s1 := RadixSorted(s0, b);
    RadixSortRefines(s0, b, [a]);
    assert [b] + [a] == [b, a];
    RadixSortRefines(s1, c, [b, a]);
    assert [c] + [b, a] == [c, b, a];
  }

  /** The head of a list lies in the bucket of its own key. */
  lemma HeadInItsBucket(col: seq<Entry>, k: Channel)
    requires |col| > 0
    ensures Bucket(col, k, Key(col[0], k)) != []
  {
    BucketCounts(col, k, Key(col[0], k), col[0]);
    assert col[0] in multiset(col);
  }

  /** Step 1 of `sqi_sort_group`: cut the list into 256 lists, appending
      each member to the bucket of its key. */
  method Deal(col: seq<Entry>, component: Channel) returns (bucket: array<seq<Entry>>)
    ensures fresh(bucket) && bucket.Length == 256
    ensures forall v :: 0 <= v < 256 ==> bucket[v] == Bucket(col, component, v)
  {
    bucket := new seq<Entry>[256](_ => []);
    var i := 0;
    while i < |col|
      invariant 0 <= i <= |col|
      invariant forall v :: 0 <= v < 256 ==> bucket[v] == Bucket(col[..i], component, v)
    {
      var a := Key(col[i], component);
      bucket[a] := bucket[a] + [col[i]];
      assert col[..i + 1][..i] == col[..i];
      i := i + 1;
    }
    assert col[..i] == col;
  }

  /** `sqi_sort_group`: deal the group into 256 buckets on `component`, then
      link the non-empty buckets in ascending order. The result is the input
      reordered by that channel, stably. */
  method SortGroup(col: seq<Entry>, component: Channel) returns (r: seq<Entry>)
    requires |col| > 0
    ensures r == RadixSorted(col, component)
    ensures NonDecreasing(r, component)
    ensures multiset(r) == multiset(col)
    ensures forall v :: 0 <= v < 256 ==> Bucket(r, component, v) == Bucket(col, component, v)
  {
    var bucket := Deal(col, component);
    r := Link(col, component, bucket);
    RadixSortCorrect(col, component);
  }

  /** Step 2 of `sqi_sort_group`: find the first non-empty bucket, then link
      every later non-empty bucket after it in ascending order. */
  method Link(col: seq<Entry>, component: Channel, bucket: array<seq<Entry>>) returns (r: seq<Entry>)
    requires |col| > 0 && bucket.Length == 256
    requires forall v :: 0 <= v < 256 ==> bucket[v] == Bucket(col, component, v)
    ensures r == RadixSorted(col, component)
  {
    var s := 0;
    HeadInItsBucket(col, component);
    while bucket[s] == []
      invariant 0 <= s <= Key(col[0], component)
      invariant Buckets(col, component, s) == []
      decreases Key(col[0], component) - s
    {
      s := s + 1;
    }
    r := bucket[s];
    assert Buckets(col, component, s + 1) == Buckets(col, component, s) + bucket[s];
    var a := s + 1;
    while a < 256
      invariant s < a <= 256
      invariant r == Buckets(col, component, a)
    {
      assert Buckets(col, component, a + 1) == r + bucket[a];
      if bucket[a] != [] {
        r := r + bucket[a];
      }
      a := a + 1;
    }
  }

  /** Three successive calls of `sqi_sort_group`, on channels `a`, `b`, then
      `c`: the list comes back rearranged in the lexicographic order that
      compares `c` first, then `b`, then `a`. */
  method SortThrice(col: seq<Entry>, a: Channel, b: Channel, c: Channel) returns (r: seq<Entry>)
    requires |col| > 0
    ensures multiset(r) == multiset(col)
    ensures SortedBy(r, [c, b, a])
  {
    var r0 := SortGroup(col, a);
    var r1 := SortGroup(r0, b);
    r := SortGroup(r1, c);
    ThreeSorts(col, a, b, c);
  }
}
