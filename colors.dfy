/** Colours as the quantizer sees them: three channel bytes, the registered
    entry that carries a colour's slot in the index map, and the lexicographic
    orders that successive stable sorts on single channels produce. */
module Colors {
  import opened Bytes

  /** A channel number: 0 is red, 1 green, 2 blue. */
  type Channel = k: int | 0 <= k < 3

  datatype Rgb = Rgb(r: Byte, g: Byte, b: Byte)

  /** One registered colour: its slot in the index map and its channel values. */
  datatype Entry = Entry(coloridx: nat, rgb: Rgb)

  function Chan(c: Rgb, k: Channel): Byte {
    if k == 0 then c.r else if k == 1 then c.g else c.b
  }

  function Key(e: Entry, k: Channel): Byte {
    Chan(e.rgb, k)
  }

  /** `a` comes no later than `b` when channels are compared in the order
      `keys`, the first channel of `keys` being the most significant. */
  predicate LexLe(a: Rgb, b: Rgb, keys: seq<Channel>)
    decreases |keys|
  {
    || keys == []
    || Chan(a, keys[0]) < Chan(b, keys[0])
    || (Chan(a, keys[0]) == Chan(b, keys[0]) && LexLe(a, b, keys[1..]))
  }

  predicate SortedBy(s: seq<Entry>, keys: seq<Channel>) {
    forall i, j :: 0 <= i < j < |s| ==> LexLe(s[i].rgb, s[j].rgb, keys)
  }

  /** No two entries of `s` carry the same colour. */
  predicate DistinctColours(s: seq<Entry>) {
    forall i, j :: 0 <= i < j < |s| ==> s[i].rgb != s[j].rgb
  }

  /** The order left by stable sorts on red, then green, then blue. */
  const BlueGreenRed: seq<Channel> := [2, 1, 0]
  /** The order left by stable sorts on red, then blue, then green. */
  const GreenBlueRed: seq<Channel> := [1, 2, 0]

  lemma {:induction false} LexLeTransitive(a: Rgb, b: Rgb, c: Rgb, keys: seq<Channel>)
    requires LexLe(a, b, keys) && LexLe(b, c, keys)
    ensures LexLe(a, c, keys)
    decreases |keys|
  {
    if keys != [] && Chan(a, keys[0]) == Chan(c, keys[0]) {
      LexLeTransitive(a, b, c, keys[1..]);
    }
  }

  lemma {:induction false} LexLeTotal(a: Rgb, b: Rgb, keys: seq<Channel>)
    ensures LexLe(a, b, keys) || LexLe(b, a, keys)
    decreases |keys|
  {
    if keys != [] {
      LexLeTotal(a, b, keys[1..]);
    }
  }

  /** Two colours that are each no later than the other agree on every
      compared channel. */
  lemma {:induction false} LexLeBothWays(a: Rgb, b: Rgb, keys: seq<Channel>)
    requires LexLe(a, b, keys) && LexLe(b, a, keys)
    ensures forall i :: 0 <= i < |keys| ==> Chan(a, keys[i]) == Chan(b, keys[i])
    decreases |keys|
  {
    if keys != [] {
      LexLeBothWays(a, b, keys[1..]);
      forall i | 1 <= i < |keys|
        ensures Chan(a, keys[i]) == Chan(b, keys[i])
      {
        assert keys[i] == keys[1..][i - 1];
      }
    }
  }

  /** An order that compares all three channels is antisymmetric. */
  lemma LexLeAntisymmetric(a: Rgb, b: Rgb, keys: seq<Channel>)
    requires 0 in keys && 1 in keys && 2 in keys
    requires LexLe(a, b, keys) && LexLe(b, a, keys)
    ensures a == b
  {
    LexLeBothWays(a, b, keys);
    forall k: Channel
      ensures Chan(a, k) == Chan(b, k)
    {
      var i :| 0 <= i < |keys| && keys[i] == k;
    }
    assert Chan(a, 0) == Chan(b, 0) && Chan(a, 1) == Chan(b, 1) && Chan(a, 2) == Chan(b, 2);
  }

  /** A sorted list whose colours are pairwise distinct stays so when a colour
      strictly after its last one is appended. */
  lemma AppendAfterLast(s: seq<Entry>, x: Entry, keys: seq<Channel>)
    requires 0 in keys && 1 in keys && 2 in keys
    requires |s| > 0 && SortedBy(s, keys) && DistinctColours(s)
    requires LexLe(s[|s| - 1].rgb, x.rgb, keys) && s[|s| - 1].rgb != x.rgb
    ensures SortedBy(s + [x], keys) && DistinctColours(s + [x])
  {
    var last := s[|s| - 1];
    var t := s + [x];
    forall i | 0 <= i < |s|
      ensures LexLe(s[i].rgb, x.rgb, keys) && s[i].rgb != x.rgb
    {
      if i < |s| - 1 {
        LexLeTransitive(s[i].rgb, last.rgb, x.rgb, keys);
        if s[i].rgb == x.rgb {
          LexLeAntisymmetric(last.rgb, x.rgb, keys);
        }
      }
    }
    forall i, j | 0 <= i < j < |t|
      ensures LexLe(t[i].rgb, t[j].rgb, keys) && t[i].rgb != t[j].rgb
    {
      if j < |s| {
        assert t[i] == s[i] && t[j] == s[j];
      } else {
        assert t[j] == x && t[i] == s[i];
      }
    }
  }

  /** Different occurrences of one value in a sequence make its multiplicity at
      least two. */
  lemma TwoPositions<T>(s: seq<T>, i: int, j: int)
    requires 0 <= i < j < |s| && s[i] == s[j]
    ensures multiset(s)[s[i]] >= 2
  {
    assert s == s[..j] + [s[j]] + s[j + 1..];
    assert s[..j][i] == s[i];
    assert multiset(s) == multiset(s[..j]) + multiset{s[j]} + multiset(s[j + 1..]);
  }

  /** In a sequence of pairwise different values every value occurs at most once. */
  lemma {:induction false} DistinctOnce<T>(s: seq<T>, x: T)
    requires forall i, j :: 0 <= i < j < |s| ==> s[i] != s[j]
    ensures multiset(s)[x] <= 1
  {
    if s != [] {
      var p := s[..|s| - 1];
      assert s == p + [s[|s| - 1]];
      DistinctOnce(p, x);
      if x in p {
        var i :| 0 <= i < |p| && p[i] == x;
        assert s[i] != s[|s| - 1];
      }
    }
  }

  /** Pairwise distinct colours survive any rearrangement of the entries and
      the removal of any of them. */
  lemma DistinctColoursWithin(s: seq<Entry>, t: seq<Entry>)
    requires DistinctColours(s) && multiset(t) <= multiset(s)
    ensures DistinctColours(t)
  {
    forall i, j | 0 <= i < j < |t|
      ensures t[i].rgb != t[j].rgb
    {
      assert t[i] in multiset(s) && t[j] in multiset(s);
      var p :| 0 <= p < |s| && s[p] == t[i];
      var q :| 0 <= q < |s| && s[q] == t[j];
      if p == q {
        TwoPositions(t, i, j);
        DistinctOnce(s, t[i]);
      }
    }
  }

  /** No two entries of `s` carry the same index-map slot. */
  predicate DistinctIndices(s: seq<Entry>) {
    forall i, j :: 0 <= i < j < |s| ==> s[i].coloridx != s[j].coloridx
  }

  /** Distinct slots survive any rearrangement of the entries and the removal
      of any of them. */
  lemma DistinctIndicesWithin(s: seq<Entry>, t: seq<Entry>)
    requires DistinctIndices(s) && multiset(t) <= multiset(s)
    ensures DistinctIndices(t)
  {
    forall i, j | 0 <= i < j < |t|
      ensures t[i].coloridx != t[j].coloridx
    {
      assert t[i] in multiset(s) && t[j] in multiset(s);
      var p :| 0 <= p < |s| && s[p] == t[i];
      var q :| 0 <= q < |s| && s[q] == t[j];
      if p == q {
        TwoPositions(t, i, j);
        DistinctOnce(s, t[i]);
      }
    }
  }
}
