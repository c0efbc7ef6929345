/** The quantizer object `SQ` of sol_qmedian.h: colour registration
    (`sq_alloc`, `sqi_add_color`, `sq_addcolormap`), duplicate removal
    (`sqi_dupenuke`) and the reduction driver `sq_reduce`. */
module QMedian {
  import opened Bytes
  import opened Colors
  import opened BucketSort
  import opened Groups
  import opened MedianCut

  /** A duplicate moved off the active list by `sqi_dupenuke`: its own
      index-map slot, and the slot of the surviving entry of the same colour
      (the source stores that slot over the duplicate's colour bytes). */
  datatype Zero = Zero(coloridx: nat, rep: nat)

  /** The entries registered for the colours `cols`, numbered from `base`. */
  function Catalog(cols: seq<Rgb>, base: nat): seq<Entry> {
    seq(|cols|, i requires 0 <= i < |cols| => Entry(base + i, cols[i]))
  }

  predicate ZerosWithin(zs: seq<Zero>, n: nat) {
    forall p :: 0 <= p < |zs| ==> zs[p].coloridx < n && zs[p].rep < n
  }

  /** The entries the zero list stands for, with their registered colours. */
  function ZeroEntries(zs: seq<Zero>, reg: seq<Rgb>): seq<Entry>
    requires ZerosWithin(zs, |reg|)
  {
    seq(|zs|, p requires 0 <= p < |zs| => Entry(zs[p].coloridx, reg[zs[p].coloridx]))
  }

  /** Every entry of `s` carries the colour registered for its slot. */
  predicate Registered(s: seq<Entry>, reg: seq<Rgb>) {
    forall i :: 0 <= i < |s| ==> s[i].coloridx < |reg| && s[i].rgb == reg[s[i].coloridx]
  }

  /** The distinct colours carried by `s`. */
  function Colours(s: seq<Entry>): set<Rgb> {
    set e | e in s :: e.rgb
  }

  /** The distinct colours of a colour table. */
  function TableColours(t: seq<Rgb>): set<Rgb> {
    set c | c in t
  }

  /** Entries taken from a list whose entries are registered are registered. */
  lemma RegisteredWithin(s: seq<Entry>, t: seq<Entry>, reg: seq<Rgb>)
    requires Registered(s, reg) && multiset(t) <= multiset(s)
    ensures Registered(t, reg)
  {
    forall i | 0 <= i < |t|
      ensures t[i].coloridx < |reg| && t[i].rgb == reg[t[i].coloridx]
    {
      assert t[i] in multiset(s);
      var p :| 0 <= p < |s| && s[p] == t[i];
    }
  }

  /** What the quantizer's bookkeeping implies once the active list and the
      zero list together hold exactly the registered entries: every active
      entry carries its registered colour, all slots are different, the two
      lists share out the registered slots, and the active list carries every
      registered colour that is not on the zero list. */
  lemma CatalogFacts(first: seq<Entry>, zs: seq<Zero>, reg: seq<Rgb>)
    requires ZerosWithin(zs, |reg|)
    requires multiset(first) + multiset(ZeroEntries(zs, reg)) == multiset(Catalog(reg, 0))
    ensures Registered(first, reg)
    ensures DistinctIndices(first + ZeroEntries(zs, reg))
    ensures |first| + |zs| == |reg|
  {
    var all := first + ZeroEntries(zs, reg);
    var cat := Catalog(reg, 0);
    assert multiset(all) == multiset(cat);
    assert Registered(cat, reg);
    RegisteredWithin(cat, first, reg);
    assert DistinctIndices(cat);
    DistinctIndicesWithin(cat, all);
    assert |multiset(all)| == |multiset(cat)|;
  }

  /** Registering one more colour appends one entry to the catalogue. */
  lemma CatalogSnoc(cols: seq<Rgb>, base: nat, c: Rgb)
    ensures Catalog(cols + [c], base) == Catalog(cols, base) + [Entry(base + |cols|, c)]
  {
  }

  /** Registering colour `a` of the map extends both the table and the
      active list by one more colour of the map. */
  lemma MapStep(colmap: seq<Byte>, count: nat, stride: nat, a: nat, reg0: seq<Rgb>, first0: seq<Entry>, base: nat)
    requires a < count && (count - 1) * stride + 2 < |colmap| && a * stride <= (count - 1) * stride
    ensures var cols := MapColours(colmap, count, stride);
            var c := Rgb(colmap[a * stride], colmap[a * stride + 1], colmap[a * stride + 2]);
            && reg0 + cols[..a] + [c] == reg0 + cols[..a + 1]
            && first0 + Catalog(cols[..a], base) + [Entry(base + a, c)] == first0 + Catalog(cols[..a + 1], base)
  {
    var cols := MapColours(colmap, count, stride);
    assert cols[..a + 1] == cols[..a] + [cols[a]];
    CatalogSnoc(cols[..a], base, cols[a]);
  }

  /** Every registered slot is either an active entry with its registered
      colour or a slot of the zero list. */
  lemma SlotCovered(first: seq<Entry>, zs: seq<Zero>, reg: seq<Rgb>, c: nat) returns (p: nat, active: bool)
    requires ZerosWithin(zs, |reg|)
    requires multiset(first) + multiset(ZeroEntries(zs, reg)) == multiset(Catalog(reg, 0))
    requires c < |reg|
    ensures active ==> p < |first| && first[p] == Entry(c, reg[c])
    ensures !active ==> p < |zs| && zs[p].coloridx == c
  {
    var cat := Catalog(reg, 0);
    assert cat[c] == Entry(c, reg[c]);
    assert Entry(c, reg[c]) in multiset(cat);
    if Entry(c, reg[c]) in multiset(first) {
      var i :| 0 <= i < |first| && first[i] == Entry(c, reg[c]);
      p, active := i, true;
    } else {
      var ze := ZeroEntries(zs, reg);
      assert Entry(c, reg[c]) in multiset(ze);
      var i :| 0 <= i < |ze| && ze[i] == Entry(c, reg[c]);
      p, active := i, false;
    }
  }

  /** Appending an entry adds its colour. */
  lemma ColoursAppend(s: seq<Entry>, x: Entry)
    ensures Colours(s + [x]) == Colours(s) + {x.rgb}
  {
    forall c | c in Colours(s + [x])
      ensures c in Colours(s) + {x.rgb}
    {
      var e :| e in s + [x] && e.rgb == c;
      if e != x {
        assert e in s;
      }
    }
    forall c | c in Colours(s)
      ensures c in Colours(s + [x])
    {
      var e :| e in s && e.rgb == c;
      assert e in s + [x];
    }
    assert x in s + [x];
  }

  /** A list of pairwise distinct colours carries as many colours as entries. */
  lemma {:induction false} DistinctColoursCount(s: seq<Entry>)
    requires DistinctColours(s)
    ensures |Colours(s)| == |s|
    decreases |s|
  {
    if s == [] {
      assert Colours(s) == {};
    } else {
      var s' := s[..|s| - 1];
      var x := s[|s| - 1];
      assert s == s' + [x];
      DistinctColoursCount(s');
      ColoursAppend(s', x);
      forall e | e in s'
        ensures e.rgb != x.rgb
      {
        var i :| 0 <= i < |s'| && s'[i] == e;
        assert s[i] == e;
      }
    }
  }

  /** Two lists holding the same entries carry the same colours. */
  lemma ColoursPermutation(s: seq<Entry>, t: seq<Entry>)
    requires multiset(s) == multiset(t)
    ensures Colours(s) == Colours(t)
  {
    forall c | c in Colours(s)
      ensures c in Colours(t)
    {
      var e :| e in s && e.rgb == c;
      assert e in multiset(t);
    }
    forall c | c in Colours(t)
      ensures c in Colours(s)
    {
      var e :| e in t && e.rgb == c;
      assert e in multiset(s);
    }
  }

  /** The colours of a catalogue are those of its colour table. */
  lemma CatalogColours(cols: seq<Rgb>, base: nat)
    ensures Colours(Catalog(cols, base)) == TableColours(cols)
  {
    var cat := Catalog(cols, base);
    forall c | c in TableColours(cols)
      ensures c in Colours(cat)
    {
      var i :| 0 <= i < |cols| && cols[i] == c;
      assert cat[i] in cat;
    }
  }

  /** A table holds no more distinct colours than it has rows. */
  lemma {:induction false} TableColoursBound(t: seq<Rgb>)
    ensures |TableColours(t)| <= |t|
    decreases |t|
  {
    if t != [] {
      var t' := t[..|t| - 1];
      assert t == t' + [t[|t| - 1]];
      assert TableColours(t) == TableColours(t') + {t[|t| - 1]};
      TableColoursBound(t');
    }
  }

  /** `a * stride` stays within the last colour's offset. */
  lemma StrideBound(a: nat, count: nat, stride: nat)
    requires a < count
    ensures a * stride <= (count - 1) * stride
  {
    var d := count - 1 - a;
    assert (count - 1) * stride == a * stride + d * stride;
  }

  /** The colours `sq_addcolormap` reads: `count` colours whose three bytes
      start every `stride` bytes of `colmap`. */
  function MapColours(colmap: seq<Byte>, count: nat, stride: nat): (cols: seq<Rgb>)
    requires count == 0 || (count - 1) * stride + 2 < |colmap|
    ensures |cols| == count
  {
    seq(count, a requires 0 <= a < count =>
      StrideBound(a, count, stride);
      Rgb(colmap[a * stride], colmap[a * stride + 1], colmap[a * stride + 2]))
  }

  /** A palette as the three-bytes-per-colour table the source stores. */
  function Pack(pal: seq<Rgb>): (bytes: seq<Byte>)
    ensures |bytes| == 3 * |pal|
  {
    seq(3 * |pal|, i requires 0 <= i < 3 * |pal| => Chan(pal[i / 3], i % 3))
  }

  /** Reading a packed palette back with stride 3 gives the palette again;
      this is how the re-sort hands the palette to a fresh quantizer. */
  lemma PackRoundTrip(pal: seq<Rgb>)
    requires |pal| > 0
    ensures MapColours(Pack(pal), |pal|, 3) == pal
  {
    var m := MapColours(Pack(pal), |pal|, 3);
    forall a | 0 <= a < |pal|
      ensures m[a] == pal[a]
    {
      assert (a * 3) / 3 == a && (a * 3) % 3 == 0;
      assert (a * 3 + 1) / 3 == a && (a * 3 + 1) % 3 == 1;
      assert (a * 3 + 2) / 3 == a && (a * 3 + 2) % 3 == 2;
    }
  }

  /** What holds after the walk of `sqi_dupenuke` has looked at `s[..i]`:
      the kept entries are ordered and of distinct colours, the last of them
      is `s[lastpos]`, they carry every colour seen so far, and together with
      the zero list they are exactly the entries seen, each duplicate
      pointing at a kept entry of its own colour. */
  ghost predicate ScanInv(s: seq<Entry>, i: int, kept: seq<Entry>, zs: seq<Zero>, lastpos: int,
                          keys: seq<Channel>, reg: seq<Rgb>)
  {
    && 1 <= i <= |s| && 0 <= lastpos < i && |kept| > 0 && kept[|kept| - 1] == s[lastpos]
    && SortedBy(kept, keys) && DistinctColours(kept)
    && Colours(kept) == Colours(s[..i])
    && ZerosWithin(zs, |reg|)
    && multiset(kept) + multiset(ZeroEntries(zs, reg)) == multiset(s[..i])
    && (forall p :: 0 <= p < |zs| ==>
          reg[zs[p].rep] == reg[zs[p].coloridx] && Entry(zs[p].rep, reg[zs[p].rep]) in kept)
  }

  lemma ScanStart(s: seq<Entry>, keys: seq<Channel>, reg: seq<Rgb>)
    requires s != []
    ensures ScanInv(s, 1, [s[0]], [], 0, keys, reg)
  {
    assert s[..1] == [s[0]];
    ColoursAppend([], s[0]);
    assert [] + [s[0]] == [s[0]];
    assert ZeroEntries([], reg) == [];
  }

  /** An entry of the last kept colour moves to the zero list. */
  lemma ScanDuplicate(s: seq<Entry>, i: int, kept: seq<Entry>, zs: seq<Zero>, lastpos: int,
                      keys: seq<Channel>, reg: seq<Rgb>)
    requires ScanInv(s, i, kept, zs, lastpos, keys, reg) && Registered(s, reg)
    requires i < |s| && s[i].rgb == s[lastpos].rgb
    ensures ScanInv(s, i + 1, kept, zs + [Zero(s[i].coloridx, s[lastpos].coloridx)], lastpos, keys, reg)
  {
    var col := s[i];
    var zs' := zs + [Zero(col.coloridx, s[lastpos].coloridx)];
    assert s[..i + 1] == s[..i] + [col];
    ColoursAppend(s[..i], col);
    assert ZeroEntries(zs', reg) == ZeroEntries(zs, reg) + [col];
    assert kept[|kept| - 1] == Entry(s[lastpos].coloridx, reg[s[lastpos].coloridx]);
  }

  /** An entry of a new colour is kept; the order puts it after the last
      kept one. */
  lemma ScanKeep(s: seq<Entry>, i: int, kept: seq<Entry>, zs: seq<Zero>, lastpos: int,
                 keys: seq<Channel>, reg: seq<Rgb>)
    requires 0 in keys && 1 in keys && 2 in keys && SortedBy(s, keys)
    requires ScanInv(s, i, kept, zs, lastpos, keys, reg)
    requires i < |s| && s[i].rgb != s[lastpos].rgb
    ensures ScanInv(s, i + 1, kept + [s[i]], zs, i, keys, reg)
  {
    var col := s[i];
    assert s[..i + 1] == s[..i] + [col];
    ColoursAppend(s[..i], col);
    assert LexLe(s[lastpos].rgb, col.rgb, keys);
    AppendAfterLast(kept, col, keys);
    ColoursAppend(kept, col);
  }

  /** The walk of `sqi_dupenuke` over a list sorted by an order that compares
      all three channels (blue, green, red in the source): an entry whose
      colour equals that of the last kept entry goes to the zero list,
      pointing at the kept entry; any other entry is kept. */
  method MoveDuplicates(s: seq<Entry>, ghost keys: seq<Channel>, ghost reg: seq<Rgb>) returns (kept: seq<Entry>, zs: seq<Zero>)
    requires 0 in keys && 1 in keys && 2 in keys
    requires s != [] && SortedBy(s, keys) && Registered(s, reg)
    ensures kept != [] && SortedBy(kept, keys) && DistinctColours(kept)
    ensures Colours(kept) == Colours(s)
    ensures ZerosWithin(zs, |reg|)
    ensures multiset(kept) + multiset(ZeroEntries(zs, reg)) == multiset(s)
    ensures forall p :: 0 <= p < |zs| ==>
      reg[zs[p].rep] == reg[zs[p].coloridx] && Entry(zs[p].rep, reg[zs[p].rep]) in kept
  {
    kept := [s[0]];
    var lastidx := s[0].coloridx;
    var lastcol := s[0].rgb;
    zs := [];
    ghost var lastpos := 0;
    ScanStart(s, keys, reg);
    var i := 1;
    while i < |s|
      invariant ScanInv(s, i, kept, zs, lastpos, keys, reg)
      invariant lastidx == s[lastpos].coloridx && lastcol == s[lastpos].rgb
    {
      var col := s[i];
      if col.rgb == lastcol {
        // duplicate: off the active list, onto the zero list
        ScanDuplicate(s, i, kept, zs, lastpos, keys, reg);
        zs := zs + [Zero(col.coloridx, lastidx)];
      } else {
        ScanKeep(s, i, kept, zs, lastpos, keys, reg);
        kept := kept + [col];
        lastidx := col.coloridx;
        lastcol := col.rgb;
        lastpos := i;
      }
      i := i + 1;
    }
    assert s[..i] == s;
  }

  /** The active list and the entries of the zero list are, together, the
      registered entries, each once. */
  ghost predicate Accounted(first: seq<Entry>, zs: seq<Zero>, reg: seq<Rgb>)
    requires ZerosWithin(zs, |reg|)
  {
    multiset(first) + multiset(ZeroEntries(zs, reg)) == multiset(Catalog(reg, 0))
  }

  /** Every duplicate points at an entry of `first` carrying its colour. */
  ghost predicate RepsKept(first: seq<Entry>, zs: seq<Zero>, reg: seq<Rgb>)
    requires ZerosWithin(zs, |reg|)
  {
    forall p :: 0 <= p < |zs| ==>
      reg[zs[p].rep] == reg[zs[p].coloridx] && Entry(zs[p].rep, reg[zs[p].rep]) in first
  }

  /** The slots of the zero list are pairwise different, none of them is a
      slot a duplicate points at, and none is the slot of an active entry. */
  lemma ZeroSlotsApart(first: seq<Entry>, zs: seq<Zero>, reg: seq<Rgb>)
    requires ZerosWithin(zs, |reg|) && Accounted(first, zs, reg) && RepsKept(first, zs, reg)
    ensures forall p, q :: 0 <= p < q < |zs| ==> zs[p].coloridx != zs[q].coloridx
    ensures forall p, q :: 0 <= p < |zs| && 0 <= q < |zs| ==> zs[p].rep != zs[q].coloridx
    ensures forall p, i :: 0 <= p < |zs| && 0 <= i < |first| ==> zs[p].coloridx != first[i].coloridx
  {
    CatalogFacts(first, zs, reg);
    var all := first + ZeroEntries(zs, reg);
    forall p, q | 0 <= p < q < |zs|
      ensures zs[p].coloridx != zs[q].coloridx
    {
      assert all[|first| + p].coloridx == zs[p].coloridx;
      assert all[|first| + q].coloridx == zs[q].coloridx;
    }
    forall p, i | 0 <= p < |zs| && 0 <= i < |first|
      ensures zs[p].coloridx != first[i].coloridx
    {
      assert all[|first| + p].coloridx == zs[p].coloridx;
      assert all[i] == first[i];
    }
    forall p, q | 0 <= p < |zs| && 0 <= q < |zs|
      ensures zs[p].rep != zs[q].coloridx
    {
      var i :| 0 <= i < |first| && first[i] == Entry(zs[p].rep, reg[zs[p].rep]);
      assert zs[q].coloridx != first[i].coloridx;
    }
  }

  /** A registered slot and the active entry that answers for it: the slot
      itself when it is active, the entry its duplicate points at when it is
      on the zero list. Any map that gives each duplicate the value of the
      entry it points at gives both the same value. */
  lemma Owner(first: seq<Entry>, zs: seq<Zero>, reg: seq<Rgb>, m: seq<int>, c: nat) returns (o: nat)
    requires ZerosWithin(zs, |reg|) && Accounted(first, zs, reg) && RepsKept(first, zs, reg)
    requires |m| == |reg| && forall p :: 0 <= p < |zs| ==> m[zs[p].coloridx] == m[zs[p].rep]
    requires c < |reg|
    ensures o < |reg| && Entry(o, reg[c]) in first && m[c] == m[o]
  {
    var p, active := SlotCovered(first, zs, reg, c);
    if active {
      o := c;
    } else {
      o := zs[p].rep;
    }
  }

  /** Slots of one colour share their value under any map that gives each
      duplicate the value of the entry it points at, once the active list
      carries each colour once. */
  lemma SameColourSameValue(first: seq<Entry>, zs: seq<Zero>, reg: seq<Rgb>, m: seq<int>, c: nat, d: nat)
    requires ZerosWithin(zs, |reg|) && Accounted(first, zs, reg) && RepsKept(first, zs, reg)
    requires DistinctColours(first)
    requires |m| == |reg| && forall p :: 0 <= p < |zs| ==> m[zs[p].coloridx] == m[zs[p].rep]
    requires c < |reg| && d < |reg| && reg[c] == reg[d]
    ensures m[c] == m[d]
  {
    var oc := Owner(first, zs, reg, m, c);
    var od := Owner(first, zs, reg, m, d);
    var i :| 0 <= i < |first| && first[i] == Entry(oc, reg[c]);
    var j :| 0 <= j < |first| && first[j] == Entry(od, reg[d]);
    assert first[i].rgb == first[j].rgb;
    assert i == j;
  }

  /** The numbering loop of the fits path of `sq_reduce`: entry i of the
      list gets palette index i, and its colour goes to palette row i. */
  method NumberEntries(s: seq<Entry>, idxmap: array<Byte>, pal: array<Rgb>)
    requires DistinctIndices(s) && |s| <= pal.Length <= 256
    requires forall i :: 0 <= i < |s| ==> s[i].coloridx < idxmap.Length
    modifies idxmap, pal
    ensures forall j :: 0 <= j < |s| ==> pal[j] == s[j].rgb && idxmap[s[j].coloridx] == j
    ensures forall j :: |s| <= j < pal.Length ==> pal[j] == old(pal[j])
    ensures forall c :: 0 <= c < idxmap.Length && (forall j :: 0 <= j < |s| ==> s[j].coloridx != c) ==>
              idxmap[c] == old(idxmap[c])
  {
    for i := 0 to |s|
      invariant forall j :: 0 <= j < i ==> pal[j] == s[j].rgb && idxmap[s[j].coloridx] == j
      invariant forall j :: i <= j < pal.Length ==> pal[j] == old(pal[j])
      invariant forall c :: 0 <= c < idxmap.Length && (forall j :: 0 <= j < i ==> s[j].coloridx != c) ==>
                  idxmap[c] == old(idxmap[c])
    {
      idxmap[s[i].coloridx] := i;
      pal[i] := s[i].rgb;
    }
  }

  /** The fits path numbers the active list: every registered slot then
      maps to a palette row holding exactly its colour, and slots of one
      colour map to one row. */
  lemma FitsFacts(first: seq<Entry>, zs: seq<Zero>, reg: seq<Rgb>, m: seq<int>, pal: seq<Rgb>)
    requires ZerosWithin(zs, |reg|) && Accounted(first, zs, reg) && RepsKept(first, zs, reg)
    requires DistinctColours(first) && Registered(first, reg)
    requires |m| == |reg| && |first| <= |pal|
    requires forall i :: 0 <= i < |first| ==> pal[i] == first[i].rgb && m[first[i].coloridx] == i
    requires forall p :: 0 <= p < |zs| ==> m[zs[p].coloridx] == m[zs[p].rep]
    ensures forall c :: 0 <= c < |reg| ==> 0 <= m[c] < |first| && pal[m[c]] == reg[c]
    ensures forall c, d :: 0 <= c < |reg| && 0 <= d < |reg| && reg[c] == reg[d] ==> m[c] == m[d]
  {
    forall c | 0 <= c < |reg|
      ensures 0 <= m[c] < |first| && pal[m[c]] == reg[c]
    {
      var o := Owner(first, zs, reg, m, c);
      var i :| 0 <= i < |first| && first[i] == Entry(o, reg[c]);
    }
    forall c, d | 0 <= c < |reg| && 0 <= d < |reg| && reg[c] == reg[d]
      ensures m[c] == m[d]
    {
      SameColourSameValue(first, zs, reg, m, c, d);
    }
  }

  /** The heads of a cut of the active list are active entries: they sit
      in distinct registered slots, and an active entry that is not a head
      shares its slot with none of them. */
  lemma HeadsOfFirst(first: seq<Entry>, group: seq<seq<Entry>>, reg: seq<Rgb>)
    requires Registered(first, reg) && DistinctIndices(first)
    requires forall j :: 0 <= j < |group| ==> |group[j]| > 0
    requires Members(group) == multiset(first)
    ensures DistinctIndices(Heads(group)) && multiset(Heads(group)) <= multiset(first)
    ensures forall j :: 0 <= j < |group| ==>
              Heads(group)[j] == group[j][0] && group[j][0].coloridx < |reg| &&
              group[j][0].rgb == reg[group[j][0].coloridx]
    ensures forall i, j :: 0 <= i < |first| && 0 <= j < |group| && first[i] !in Heads(group) ==>
              group[j][0].coloridx != first[i].coloridx
  {
    var h := Heads(group);
    HeadsWithin(group);
    DistinctIndicesWithin(first, h);
    RegisteredWithin(first, h, reg);
    forall j | 0 <= j < |group|
      ensures h[j] == group[j][0]
    {
      HeadAt(group, j);
    }
  }

  /** Every slot holds zero. */
  predicate Zeroed(z: seq<int>) {
    forall c :: 0 <= c < |z| ==> z[c] == 0
  }

  /** `m` is `m0` with every duplicate slot of the zero list given the value
      of the slot it points at. */
  predicate ZerosResolved(zs: seq<Zero>, m: seq<int>, m0: seq<int>) {
    && |m| == |m0| && ZerosWithin(zs, |m|)
    && (forall p :: 0 <= p < |zs| ==> m[zs[p].coloridx] == m0[zs[p].rep])
    && (forall c :: 0 <= c < |m| && (forall p :: 0 <= p < |zs| ==> zs[p].coloridx != c) ==> m[c] == m0[c])
  }

  /** An index map that gives the head of group j the index j and every
      other slot zero stays below the number of groups. */
  lemma IndexBound(group: seq<seq<Entry>>, m0: seq<int>, z: seq<int>)
    requires |group| > 0 && HeadsNumbered(group, m0, z) && Zeroed(z)
    ensures IndicesBelow(m0, |group|)
  {
    forall c | 0 <= c < |m0|
      ensures 0 <= m0[c] < |group|
    {
      if j :| 0 <= j < |group| && group[j][0].coloridx == c {
        assert m0[c] == j;
      }
    }
  }

  /** The zero-list pass changes only duplicate slots, each to the index of
      the entry it points at: active slots keep their index, bounds are kept,
      and every duplicate ends up with its entry's index. */
  lemma ResolvedIndex(first: seq<Entry>, zs: seq<Zero>, reg: seq<Rgb>, m0: seq<int>, m: seq<int>, n: int)
    requires ZerosWithin(zs, |reg|) && Accounted(first, zs, reg) && RepsKept(first, zs, reg)
    requires |m0| == |reg| && IndicesBelow(m0, n) && ZerosResolved(zs, m, m0)
    ensures IndicesBelow(m, n)
    ensures forall i :: 0 <= i < |first| ==> first[i].coloridx < |reg| && m[first[i].coloridx] == m0[first[i].coloridx]
    ensures forall p :: 0 <= p < |zs| ==> m[zs[p].coloridx] == m[zs[p].rep]
  {
    CatalogFacts(first, zs, reg);
    ZeroSlotsApart(first, zs, reg);
    forall c | 0 <= c < |reg|
      ensures 0 <= m[c] < n
    {
      if p :| 0 <= p < |zs| && zs[p].coloridx == c {
        assert m[c] == m0[zs[p].rep];
      }
    }
  }

  /** The index map of the median-cut path before the re-sort: the head of
      group j maps to j, every other slot starts at zero, and each duplicate
      takes the index of the entry it points at. Afterwards the heads still
      map to their groups, every other active entry maps to zero, and every
      index is below the number of groups. */
  lemma HeadsIndexed(first: seq<Entry>, zs: seq<Zero>, reg: seq<Rgb>, group: seq<seq<Entry>>,
                     z: seq<int>, m0: seq<int>, m: seq<int>)
    requires ZerosWithin(zs, |reg|) && Accounted(first, zs, reg) && RepsKept(first, zs, reg)
    requires |group| > 0 && (forall j :: 0 <= j < |group| ==> |group[j]| > 0)
    requires Members(group) == multiset(first)
    requires |m0| == |reg| && HeadsNumbered(group, m0, z) && Zeroed(z) && ZerosResolved(zs, m, m0)
    ensures Registered(first, reg) && IndicesBelow(m, |group|)
    ensures forall p :: 0 <= p < |zs| ==> m[zs[p].coloridx] == m[zs[p].rep]
    ensures forall j :: 0 <= j < |group| ==> m[group[j][0].coloridx] == j
    ensures forall i :: 0 <= i < |first| && first[i] !in Heads(group) ==> m[first[i].coloridx] == 0
    ensures HeadsRecorded(group, first, zs, m)
  {
    CatalogFacts(first, zs, reg);
    var all := first + ZeroEntries(zs, reg);
    assert multiset(first) <= multiset(all);
    DistinctIndicesWithin(all, first);
    HeadsOfFirst(first, group, reg);
    IndexBound(group, m0, z);
    ResolvedIndex(first, zs, reg, m0, m, |group|);
    var h := Heads(group);
    forall j | 0 <= j < |group|
      ensures m[group[j][0].coloridx] == j
    {
      assert h[j] in multiset(h);
      var i :| 0 <= i < |first| && first[i] == group[j][0];
    }
  }

  /** What the palette build as written leaves in the index map: the head of
      group `j` maps to row `j`, every other active entry to row 0, and every
      duplicate to where the entry it points at maps. */
  ghost predicate HeadsRecorded(groups: seq<seq<Entry>>, first: seq<Entry>, zs: seq<Zero>, m: seq<int>) {
    && (forall j :: 0 <= j < |groups| ==> |groups[j]| > 0 && groups[j][0].coloridx < |m| && m[groups[j][0].coloridx] == j)
    && (forall i :: 0 <= i < |first| && first[i] !in Heads(groups) ==> first[i].coloridx < |m| && m[first[i].coloridx] == 0)
    && (forall p :: 0 <= p < |zs| ==> zs[p].coloridx < |m| && zs[p].rep < |m| && m[zs[p].coloridx] == m[zs[p].rep])
  }

  /** Every member of a cut of the active list is an active entry. */
  lemma MemberOfFirst(first: seq<Entry>, group: seq<seq<Entry>>, j: nat, t: nat) returns (i: nat)
    requires Members(group) == multiset(first)
    requires j < |group| && t < |group[j]|
    ensures i < |first| && first[i] == group[j][t]
  {
    GroupWithin(group, j);
    assert group[j][t] in multiset(group[j]);
    var k :| 0 <= k < |first| && first[k] == group[j][t];
    i := k;
  }

  /** A map that numbers every member of the groups over an all-zero map
      stays below the number of groups. */
  lemma MembersIndexBound(group: seq<seq<Entry>>, m0: seq<int>, z: seq<int>)
    requires |group| > 0 && MembersNumbered(group, m0, z) && Zeroed(z)
    ensures IndicesBelow(m0, |group|)
  {
    forall c | 0 <= c < |m0|
      ensures 0 <= m0[c] < |group|
    {
      if j, t :| 0 <= j < |group| && 0 <= t < |group[j]| && group[j][t].coloridx == c {
        assert m0[c] == j;
      }
    }
  }

  /** The index map of the corrected median-cut path before the re-sort:
      every member of group j still maps to j after the zero-list pass,
      every index is below the number of groups, and each duplicate has the
      index of the entry it points at. */
  lemma MembersIndexed(first: seq<Entry>, zs: seq<Zero>, reg: seq<Rgb>, group: seq<seq<Entry>>,
                       z: seq<int>, m0: seq<int>, m: seq<int>)
    requires ZerosWithin(zs, |reg|) && Accounted(first, zs, reg) && RepsKept(first, zs, reg)
    requires |group| > 0 && Members(group) == multiset(first)
    requires |m0| == |reg| && MembersNumbered(group, m0, z) && Zeroed(z) && ZerosResolved(zs, m, m0)
    ensures Registered(first, reg) && IndicesBelow(m, |group|)
    ensures forall p :: 0 <= p < |zs| ==> m[zs[p].coloridx] == m[zs[p].rep]
    ensures forall j, t :: 0 <= j < |group| && 0 <= t < |group[j]| ==> m[group[j][t].coloridx] == j
  {
    CatalogFacts(first, zs, reg);
    MembersIndexBound(group, m0, z);
    ResolvedIndex(first, zs, reg, m0, m, |group|);
    forall j, t | 0 <= j < |group| && 0 <= t < |group[j]|
      ensures m[group[j][t].coloridx] == j
    {
      var i := MemberOfFirst(first, group, j, t);
    }
  }

  /** What the index map of the median-cut path amounts to before the
      re-sort: it records the cut, keeps every index below the number of
      groups and gives slots of one colour one index. */
  lemma CutIndexFacts(first: seq<Entry>, zs: seq<Zero>, reg: seq<Rgb>, group: seq<seq<Entry>>, pal: seq<Rgb>,
                      z: seq<int>, m0: seq<int>, m: seq<int>)
    requires ZerosWithin(zs, |reg|) && Accounted(first, zs, reg) && RepsKept(first, zs, reg)
    requires DistinctColours(first)
    requires |group| > 0 && (forall j :: 0 <= j < |group| ==> |group[j]| > 0)
    requires Members(group) == multiset(first)
    requires |pal| == |group| && forall j :: 0 <= j < |group| ==> pal[j] == GroupColour(group[j], Widest(group[j]))
    requires |m0| == |reg| && MembersNumbered(group, m0, z) && Zeroed(z) && ZerosResolved(zs, m, m0)
    ensures CutRecorded(group, first, reg, m, pal)
    ensures IndicesBelow(m, |group|) && SameColourSameIndex(m, reg)
  {
    MembersIndexed(first, zs, reg, group, z, m0, m);
    forall c, d | 0 <= c < |reg| && 0 <= d < |reg| && reg[c] == reg[d]
      ensures m[c] == m[d]
    {
      SameColourSameValue(first, zs, reg, m, c, d);
    }
    forall c, j, t | 0 <= c < |m| && 0 <= j < |group| && 0 <= t < |group[j]| && reg[c] == group[j][t].rgb
      ensures m[c] == m[group[j][0].coloridx]
    {
      var o := Owner(first, zs, reg, m, c);
      var i := MemberOfFirst(first, group, j, t);
      var k :| 0 <= k < |first| && first[k] == Entry(o, reg[c]);
      assert first[i].rgb == first[k].rgb;
      assert i == k;
    }
  }

  /** The first `width` rows of a palette are in strictly increasing green,
      blue, red order, and the remaining rows are black. */
  predicate OrderedPalette(pal: seq<Rgb>, width: int) {
    && 0 <= width <= |pal|
    && (forall i, j :: 0 <= i < j < width ==> LexLe(pal[i], pal[j], GreenBlueRed) && pal[i] != pal[j])
    && (forall i :: width <= i < |pal| ==> pal[i] == Rgb(0, 0, 0))
  }

  /** Every slot of an index map names one of the first `width` rows. */
  predicate IndicesBelow(m: seq<int>, width: int) {
    forall c :: 0 <= c < |m| ==> 0 <= m[c] < width
  }

  /** Each of the first `width` rows is the index of some slot. */
  predicate RowsUsed(m: seq<int>, width: int) {
    forall r :: 0 <= r < width ==> r in m
  }

  /** The colour of each group, in group order. */
  function GroupPalette(groups: seq<seq<Entry>>): (pal: seq<Rgb>)
    requires forall j :: 0 <= j < |groups| ==> |groups[j]| > 0
    ensures |pal| == |groups|
  {
    seq(|groups|, j requires 0 <= j < |groups| => GroupColour(groups[j], Widest(groups[j])))
  }

  /** A palette whose row `j` holds the colour of group `j` is the group
      palette. */
  lemma BuiltPalette(pal: seq<Rgb>, groups: seq<seq<Entry>>)
    requires forall j :: 0 <= j < |groups| ==> |groups[j]| > 0
    requires |pal| == |groups| && forall j :: 0 <= j < |groups| ==> pal[j] == GroupColour(groups[j], Widest(groups[j]))
    ensures pal == GroupPalette(groups)
  {
  }

  /** Slots registered with the same colour share their palette index. */
  predicate SameColourSameIndex(m: seq<int>, reg: seq<Rgb>) {
    && |m| == |reg|
    && forall c, d :: 0 <= c < |m| && 0 <= d < |m| && reg[c] == reg[d] ==> m[c] == m[d]
  }

  /** Every slot's palette row holds exactly the slot's registered colour. */
  predicate ExactColours(m: seq<int>, pal: seq<Rgb>, reg: seq<Rgb>) {
    && |m| == |reg|
    && forall c :: 0 <= c < |m| ==> 0 <= m[c] < |pal| && pal[m[c]] == reg[c]
  }

  /** `m2` and `pal2` renumber `m` and `pal`: every slot still shows the same
      colour, and slots that shared an index still do. */
  predicate Renumbering(m: seq<int>, pal: seq<Rgb>, m2: seq<int>, pal2: seq<Rgb>) {
    && |m2| == |m|
    && (forall c :: 0 <= c < |m| ==> 0 <= m[c] < |pal| && 0 <= m2[c] < |pal2| && pal2[m2[c]] == pal[m[c]])
    && (forall c, d :: 0 <= c < |m| && 0 <= d < |m| && m[c] == m[d] ==> m2[c] == m2[d])
  }

  /** The outcome of the median-cut path: the active list, of distinct
      registered colours, is shared out among the groups; the head of each
      group maps to a row holding the group's colour; and every slot whose
      colour lies in a group maps where that group's head does. */
  ghost predicate CutRecorded(groups: seq<seq<Entry>>, first: seq<Entry>, reg: seq<Rgb>, m: seq<int>, pal: seq<Rgb>) {
    && |groups| > 0 && (forall j :: 0 <= j < |groups| ==> |groups[j]| > 0)
    && Members(groups) == multiset(first) && DistinctColours(first) && Registered(first, reg)
    && |m| == |reg|
    && (forall j :: 0 <= j < |groups| ==>
          groups[j][0].coloridx < |m| && 0 <= m[groups[j][0].coloridx] < |pal| &&
          pal[m[groups[j][0].coloridx]] == GroupColour(groups[j], Widest(groups[j])))
    && (forall c, j, t :: 0 <= c < |m| && 0 <= j < |groups| && 0 <= t < |groups[j]| && reg[c] == groups[j][t].rgb ==>
          m[c] == m[groups[j][0].coloridx])
  }

  /** Once every registered colour is active, every slot shows the colour of
      the group its colour fell into. */
  lemma SlotShowsItsGroup(groups: seq<seq<Entry>>, first: seq<Entry>, reg: seq<Rgb>, m: seq<int>, pal: seq<Rgb>,
                          c: nat) returns (j: nat, t: nat)
    requires CutRecorded(groups, first, reg, m, pal) && Colours(first) == TableColours(reg)
    requires c < |reg|
    ensures j < |groups| && t < |groups[j]| && groups[j][t].rgb == reg[c]
    ensures 0 <= m[c] < |pal| && pal[m[c]] == GroupColour(groups[j], Widest(groups[j]))
  {
    assert reg[c] in TableColours(reg);
    var e :| e in first && e.rgb == reg[c];
    assert e in multiset(first);
    j, t := GroupOf(groups, e);
  }

  /** Renumbering keeps what the median-cut path recorded. */
  lemma RenumberedCut(groups: seq<seq<Entry>>, first: seq<Entry>, reg: seq<Rgb>,
                      m: seq<int>, pal: seq<Rgb>, m2: seq<int>, pal2: seq<Rgb>)
    requires CutRecorded(groups, first, reg, m, pal) && Renumbering(m, pal, m2, pal2)
    ensures CutRecorded(groups, first, reg, m2, pal2)
  {
    forall c, j, t | 0 <= c < |m2| && 0 <= j < |groups| && 0 <= t < |groups[j]| && reg[c] == groups[j][t].rgb
      ensures m2[c] == m2[groups[j][0].coloridx]
    {
      assert m[c] == m[groups[j][0].coloridx];
    }
  }

  /** Renumbering keeps slots of one colour together. */
  lemma RenumberedSameColour(m: seq<int>, pal: seq<Rgb>, m2: seq<int>, pal2: seq<Rgb>, reg: seq<Rgb>)
    requires SameColourSameIndex(m, reg) && Renumbering(m, pal, m2, pal2)
    ensures SameColourSameIndex(m2, reg)
  {
  }

  /** When every slot shows exactly its colour and the first `width` rows
      are distinct and hold exactly the registered colours, every one of
      those rows is used by some slot. */
  lemma ExactRowsUsed(m: seq<int>, pal: seq<Rgb>, reg: seq<Rgb>, width: int)
    requires ExactColours(m, pal, reg) && OrderedPalette(pal, width) && IndicesBelow(m, width)
    requires TableColours(pal[..width]) == TableColours(reg)
    ensures RowsUsed(m, width)
  {
    forall r | 0 <= r < width
      ensures r in m
    {
      assert pal[..width][r] in TableColours(pal[..width]);
      var c :| 0 <= c < |reg| && reg[c] == pal[r];
      assert pal[m[c]] == pal[r];
      assert m[c] == r;
    }
  }

  /** After the re-sort of the median-cut path, every row in use is the
      index of some slot: each row holds the colour of some group, and the
      slot of that group's head maps to the one row holding that colour. */
  lemma CutRowsUsed(groups: seq<seq<Entry>>, first: seq<Entry>, reg: seq<Rgb>, mid: seq<int>, built: seq<Rgb>,
                    m: seq<int>, sorted: seq<Rgb>, width: int)
    requires CutRecorded(groups, first, reg, mid, built) && built == GroupPalette(groups)
    requires Renumbering(mid, built, m, sorted) && OrderedPalette(sorted, width) && IndicesBelow(m, width)
    requires TableColours(sorted[..width]) == TableColours(built)
    ensures RowsUsed(m, width)
  {
    forall r | 0 <= r < width
      ensures r in m
    {
      assert sorted[..width][r] in TableColours(sorted[..width]);
      var j :| 0 <= j < |built| && built[j] == sorted[r];
      var h := groups[j][0].coloridx;
      assert built[mid[h]] == built[j];
      assert sorted[m[h]] == sorted[r];
      assert m[h] == r;
    }
  }

  /** On the fits path the rows in use hold exactly the registered colours,
      and each is the index of some slot. */
  lemma FitsRowsUsed(first: seq<Entry>, reg: seq<Rgb>, m: seq<int>, pal: seq<Rgb>, width: int)
    requires Colours(first) == TableColours(reg) && width == |first| <= |pal|
    requires forall i :: 0 <= i < width ==> pal[i] == first[i].rgb
    requires ExactColours(m, pal, reg) && OrderedPalette(pal, width) && IndicesBelow(m, width)
    ensures TableColours(pal[..width]) == TableColours(reg) && RowsUsed(m, width)
  {
    forall x | x in TableColours(reg)
      ensures x in TableColours(pal[..width])
    {
      var e :| e in first && e.rgb == x;
      var i :| 0 <= i < |first| && first[i] == e;
      assert pal[..width][i] == x;
    }
    ExactRowsUsed(m, pal, reg, width);
  }

  /** The re-sort keeps what the median-cut path recorded, and its rows in
      use are the distinct group colours, each the index of some slot. */
  lemma ReSortedCut(groups: seq<seq<Entry>>, first: seq<Entry>, reg: seq<Rgb>, mid: seq<int>, built: seq<Rgb>,
                    m: seq<int>, sorted: seq<Rgb>, width: int)
    requires CutRecorded(groups, first, reg, mid, built) && SameColourSameIndex(mid, reg)
    requires |built| == |groups| && forall j :: 0 <= j < |groups| ==> built[j] == GroupColour(groups[j], Widest(groups[j]))
    requires Renumbering(mid, built, m, sorted) && OrderedPalette(sorted, width) && IndicesBelow(m, width)
    requires width == |TableColours(built)| && TableColours(sorted[..width]) == TableColours(built)
    ensures CutRecorded(groups, first, reg, m, sorted) && SameColourSameIndex(m, reg) && RowsUsed(m, width)
    ensures width == |TableColours(GroupPalette(groups))|
    ensures TableColours(sorted[..width]) == TableColours(GroupPalette(groups))
  {
    BuiltPalette(built, groups);
    RenumberedCut(groups, first, reg, mid, built, m, sorted);
    RenumberedSameColour(mid, built, m, sorted, reg);
    CutRowsUsed(groups, first, reg, mid, built, m, sorted, width);
  }

  /** The re-sort that ends the median-cut path of `sq_reduce`: the palette
      is put through `SortPalette`, and the index map is then renumbered
      through the map that run returns. */
  method ReSort(pal: array<Rgb>, idxmap: array<Byte>) returns (width: int, sorted: array<Rgb>)
    requires 1 <= pal.Length <= 256
    requires IndicesBelow(idxmap[..], pal.Length)
    modifies idxmap
    decreases 2
    ensures fresh(sorted) && sorted.Length == pal.Length && 1 <= width <= pal.Length
    ensures OrderedPalette(sorted[..], width) && IndicesBelow(idxmap[..], width)
    ensures width == |TableColours(pal[..])| && TableColours(sorted[..width]) == TableColours(pal[..])
    ensures Renumbering(old(idxmap[..]), pal[..], idxmap[..], sorted[..])
  {
    ghost var mid := idxmap[..];
    var remap;
    width, remap, sorted := SortPalette(pal);
    Renumber(idxmap, remap);
    Composed(mid, pal[..], remap[..], sorted[..], idxmap[..], width);
  }

  /** A fresh quantizer registers the palette three bytes per row and reduces
      it to the same width: as the rows always fit, this orders them, merges
      equal ones, and maps every row to where its colour went. */
  method SortPalette(pal: array<Rgb>) returns (width: int, remap: array<Byte>, sorted: array<Rgb>)
    requires 1 <= pal.Length <= 256
    decreases 1
    ensures fresh(remap) && fresh(sorted) && sorted.Length == pal.Length
    ensures 1 <= width <= pal.Length && OrderedPalette(sorted[..], width)
    ensures IndicesBelow(remap[..], width) && ExactColours(remap[..], sorted[..], pal[..])
    ensures width == |TableColours(pal[..])| && TableColours(sorted[..width]) == TableColours(pal[..])
    ensures RowsUsed(remap[..], width)
  {
    var palwid := pal.Length;
    var reorder := new Quantizer();
    PackRoundTrip(pal[..]);
    var _ := reorder.AddColorMap(Pack(pal[..]), palwid, 3);
    assert reorder.reg == pal[..];
    TableColoursBound(pal[..]);
    var n: nat;
    ghost var regroup: seq<seq<Entry>>;
    width, remap, sorted, n, regroup := reorder.Reduce(palwid);
  }

  /** The renumbering loop that ends `sq_reduce`: every slot's index is sent
      through `remap`. */
  method Renumber(idxmap: array<Byte>, remap: array<Byte>)
    requires idxmap != remap && IndicesBelow(idxmap[..], remap.Length)
    modifies idxmap
    ensures forall c :: 0 <= c < idxmap.Length ==> idxmap[c] == remap[old(idxmap[c])]
  {
    for i := 0 to idxmap.Length
      invariant forall j :: 0 <= j < i ==> idxmap[j] == remap[old(idxmap[j])]
      invariant forall j :: i <= j < idxmap.Length ==> idxmap[j] == old(idxmap[j])
    {
      idxmap[i] := remap[idxmap[i]];
    }
  }

  /** Sending an index map through the index map of a run over its own
      palette renumbers it onto that run's palette. */
  lemma Composed(m: seq<int>, pal: seq<Rgb>, remap: seq<int>, sorted: seq<Rgb>, m2: seq<int>, width: int)
    requires IndicesBelow(m, |pal|) && ExactColours(remap, sorted, pal) && IndicesBelow(remap, width)
    requires |m2| == |m| && forall c :: 0 <= c < |m| ==> m2[c] == remap[m[c]]
    ensures Renumbering(m, pal, m2, sorted) && IndicesBelow(m2, width)
  {
  }

  /** The state `SQ`: the active list, the zero list of removed duplicates
      and the two counters. `reg` is the table of every registered colour by
      slot; the source keeps it only implicitly, in the list nodes. */
  class Quantizer {
    var first: seq<Entry>
    var zeromap: seq<Zero>
    var colors: nat
    var zeros: nat
    ghost var reg: seq<Rgb>

    /** The active list and the zero list together hold exactly one entry per
        registered slot, and each duplicate points at an active entry of its
        own colour. */
    ghost predicate Valid()
      reads this
    {
      && colors == |reg|
      && zeros == |zeromap|
      && ZerosWithin(zeromap, |reg|)
      && Accounted(first, zeromap, reg)
      && RepsKept(first, zeromap, reg)
    }

    /** `sq_alloc`: an empty quantizer. */
    constructor ()
      ensures Valid() && reg == [] && first == [] && zeromap == []
    {
      first := [];
      zeromap := [];
      colors := 0;
      zeros := 0;
      reg := [];
    }

    /** `sqi_add_color`: register one colour in the next slot, at the end of
        the active list. */
    method AddColor(r: Byte, g: Byte, b: Byte)
      requires Valid()
      modifies this
      ensures Valid()
      ensures reg == old(reg) + [Rgb(r, g, b)] && colors == old(colors) + 1
      ensures first == old(first) + [Entry(old(colors), Rgb(r, g, b))]
      ensures zeromap == old(zeromap)
    {
      first := first + [Entry(colors, Rgb(r, g, b))];
      reg := reg + [Rgb(r, g, b)];
      colors := colors + 1;
      CatalogSnoc(old(reg), 0, Rgb(r, g, b));
      assert ZeroEntries(zeromap, reg) == ZeroEntries(zeromap, old(reg));
    }

    /** `sq_addcolormap`: register `count` colours read from `colmap` every
        `stride` bytes; the result is the slot of the first of them. */
    method AddColorMap(colmap: seq<Byte>, count: nat, stride: nat) returns (ret: nat)
      requires Valid()
      requires count == 0 || (count - 1) * stride + 2 < |colmap|
      modifies this
      ensures Valid() && ret == old(colors)
      ensures reg == old(reg) + MapColours(colmap, count, stride)
      ensures first == old(first) + Catalog(MapColours(colmap, count, stride), old(colors))
      ensures colors == old(colors) + count && zeromap == old(zeromap)
    {
      ret := colors;
      ghost var cols := MapColours(colmap, count, stride);
      ghost var reg0, first0 := reg, first;
      for a := 0 to count
        invariant Valid()
        invariant reg == reg0 + cols[..a] && colors == ret + a
        invariant first == first0 + Catalog(cols[..a], ret)
        invariant zeromap == old(zeromap)
      {
        StrideBound(a, count, stride);
        var i := a * stride;
        AddColor(colmap[i], colmap[i + 1], colmap[i + 2]);
        MapStep(colmap, count, stride, a, reg0, first0, ret);
      }
      assert cols[..count] == cols;
    }

    /** `sqi_dupenuke`: sort the active list by red, green and blue in turn,
        then move every entry whose colour repeats to the zero list, pointing
        at the kept entry of that colour. Afterwards the active list carries
        each registered colour exactly once. */
    method DupeNuke()
      requires Valid() && zeromap == [] && first != []
      modifies this
      ensures Valid() && reg == old(reg) && colors == old(colors)
      ensures first != [] && SortedBy(first, BlueGreenRed) && DistinctColours(first)
      ensures Colours(first) == Colours(old(first))
      ensures |first| + zeros == colors
    {
      CatalogFacts(first, zeromap, reg);
      var s := SortThrice(first, 0, 1, 2);
      assert [2, 1, 0] == BlueGreenRed;
      RegisteredWithin(first, s, reg);
      var kept, zs := MoveDuplicates(s, BlueGreenRed, reg);
      ColoursPermutation(s, first);
      assert ZeroEntries(zeromap, reg) == [];
      CatalogFacts(kept, zs, reg);
      first, zeromap, zeros := kept, zs, |zs|;
    }

    /** The zero-list pass of `sq_reduce`: the slot of every duplicate gets
        the palette index already given to the entry it points at. */
    method ResolveZeros(idxmap: array<Byte>)
      requires ZerosWithin(zeromap, idxmap.Length)
      requires forall p, q :: 0 <= p < q < |zeromap| ==> zeromap[p].coloridx != zeromap[q].coloridx
      requires forall p, q :: 0 <= p < |zeromap| && 0 <= q < |zeromap| ==> zeromap[p].rep != zeromap[q].coloridx
      modifies idxmap
      ensures ZerosResolved(zeromap, idxmap[..], old(idxmap[..]))
    {
      for p := 0 to |zeromap|
        invariant forall q :: 0 <= q < p ==> idxmap[zeromap[q].coloridx] == old(idxmap[zeromap[q].rep])
        invariant forall c :: 0 <= c < idxmap.Length && (forall q :: 0 <= q < p ==> zeromap[q].coloridx != c) ==>
          idxmap[c] == old(idxmap[c])
      {
        idxmap[zeromap[p].coloridx] := idxmap[zeromap[p].rep];
      }
    }

    /** The path of `sq_reduce` taken when the distinct colours fit in the
        palette: sort the active list by red, blue and green in turn, then
        give the i-th entry palette index i and store its colour there. */
    method PaletteAsIs(idxmap: array<Byte>, pal: array<Rgb>)
      requires Valid() && first != [] && DistinctColours(first)
      requires idxmap.Length == colors && |first| <= pal.Length <= 256
      modifies this, idxmap, pal
      ensures Valid() && reg == old(reg) && zeromap == old(zeromap)
      ensures multiset(first) == multiset(old(first)) && |first| == |old(first)|
      ensures SortedBy(first, GreenBlueRed) && DistinctColours(first)
      ensures Registered(first, reg) && colors == old(colors)
      ensures forall i :: 0 <= i < |first| ==> pal[i] == first[i].rgb && idxmap[first[i].coloridx] == i
      ensures forall i :: |first| <= i < pal.Length ==> pal[i] == old(pal[i])
      ensures forall c :: 0 <= c < idxmap.Length && (forall i :: 0 <= i < |first| ==> first[i].coloridx != c) ==>
                idxmap[c] == old(idxmap[c])
    {
      CatalogFacts(first, zeromap, reg);
      var all := first + ZeroEntries(zeromap, reg);
      assert multiset(first) <= multiset(all);
      DistinctIndicesWithin(all, first);
      var s := SortThrice(first, 0, 2, 1);
      assert [1, 2, 0] == GreenBlueRed;
      DistinctColoursWithin(first, s);
      DistinctIndicesWithin(first, s);
      RegisteredWithin(first, s, reg);
      forall x | x in first
        ensures x in s
      {
        assert x in multiset(s);
      }
      first := s;
      NumberEntries(s, idxmap, pal);
    }

    /** The median-cut path of `sq_reduce`, up to the re-sort: cut the active
        list into `palwid` groups, give every member of each group the
        group's index and the group's colour, then resolve the zero list.
        This uses the corrected palette build, which numbers every member
        rather than only each group's head. */
    method CutPalette(palwid: int, idxmap: array<Byte>, pal: array<Rgb>) returns (ghost groups: seq<seq<Entry>>)
      requires Valid() && DistinctColours(first) && 1 <= palwid < |first|
      requires idxmap.Length == colors && pal.Length == palwid <= 256
      requires forall c :: 0 <= c < idxmap.Length ==> idxmap[c] == 0
      modifies idxmap, pal
      ensures |groups| == palwid && SplitGroups(groups, first, palwid - 1)
      ensures CutRecorded(groups, first, reg, idxmap[..], pal[..])
      ensures forall j :: 0 <= j < palwid ==> pal[j] == GroupColour(groups[j], Widest(groups[j]))
      ensures IndicesBelow(idxmap[..], palwid) && SameColourSameIndex(idxmap[..], reg)
    {
      CatalogFacts(first, zeromap, reg);
      var all := first + ZeroEntries(zeromap, reg);
      assert multiset(first) <= multiset(all);
      DistinctIndicesWithin(all, first);
      var group, size, sorted := Split(first, palwid);
      groups := group;
      GroupsAfterRounds(SplitState(group, sorted), first, palwid - 1);
      GroupSlotsApart(first, group);
      forall j, t | 0 <= j < |group| && 0 <= t < |group[j]|
        ensures group[j][t].coloridx < idxmap.Length
      {
        var i := MemberOfFirst(first, group, j, t);
      }
      ghost var z := idxmap[..];
      BuildPaletteAll(group, size, idxmap, pal);
      ghost var m0 := idxmap[..];
      ZeroSlotsApart(first, zeromap, reg);
      ResolveZeros(idxmap);
      CutIndexFacts(first, zeromap, reg, group, pal[..], z, m0, idxmap[..]);
    }

    /** The median-cut path of `sq_reduce` up to the re-sort, as written:
        the palette build gives its group's index to each group's head only,
        so every other active member keeps the 0 it was allocated with, and
        each duplicate then copies the index of the entry it points at. */
    method CutPaletteAsWritten(palwid: int, idxmap: array<Byte>, pal: array<Rgb>) returns (ghost groups: seq<seq<Entry>>)
      requires Valid() && DistinctColours(first) && 1 <= palwid < |first|
      requires idxmap.Length == colors && pal.Length == palwid <= 256
      requires forall c :: 0 <= c < idxmap.Length ==> idxmap[c] == 0
      modifies idxmap, pal
      ensures |groups| == palwid && SplitGroups(groups, first, palwid - 1)
      ensures Members(groups) == multiset(first) && HeadsRecorded(groups, first, zeromap, idxmap[..])
      ensures forall j :: 0 <= j < palwid ==> pal[j] == GroupColour(groups[j], Widest(groups[j]))
      ensures IndicesBelow(idxmap[..], palwid)
    {
      CatalogFacts(first, zeromap, reg);
      var all := first + ZeroEntries(zeromap, reg);
      assert multiset(first) <= multiset(all);
      DistinctIndicesWithin(all, first);
      var group, size, sorted := Split(first, palwid);
      groups := group;
      GroupsAfterRounds(SplitState(group, sorted), first, palwid - 1);
      HeadsOfFirst(first, group, reg);
      ghost var z := idxmap[..];
      BuildPalette(group, size, idxmap, pal);
      ghost var m0 := idxmap[..];
      ZeroSlotsApart(first, zeromap, reg);
      ResolveZeros(idxmap);
      HeadsIndexed(first, zeromap, reg, group, z, m0, idxmap[..]);
    }

    /** The median-cut path of `sq_reduce`: cut the active list into
        `palwid` groups and build their palette and index map, then re-sort
        the palette through a fresh quantizer and renumber the index map. */
    method CutPath(palwid: int, idxmap: array<Byte>, pal: array<Rgb>)
      returns (width: int, sorted: array<Rgb>, ghost groups: seq<seq<Entry>>)
      requires Valid() && DistinctColours(first) && 1 <= palwid < |first|
      requires idxmap.Length == colors && pal.Length == palwid <= 256
      requires forall c :: 0 <= c < idxmap.Length ==> idxmap[c] == 0
      modifies idxmap, pal
      decreases 3
      ensures fresh(sorted) && sorted.Length == palwid && 1 <= width <= palwid
      ensures OrderedPalette(sorted[..], width) && IndicesBelow(idxmap[..], width) && RowsUsed(idxmap[..], width)
      ensures SameColourSameIndex(idxmap[..], reg)
      ensures |groups| == palwid && SplitGroups(groups, first, palwid - 1)
      ensures CutRecorded(groups, first, reg, idxmap[..], sorted[..])
      ensures width == |TableColours(GroupPalette(groups))|
      ensures TableColours(sorted[..width]) == TableColours(GroupPalette(groups))
    {
      groups := CutPalette(palwid, idxmap, pal);
      ghost var mid, built := idxmap[..], pal[..];
      width, sorted := ReSort(pal, idxmap);
      ReSortedCut(groups, first, reg, mid, built, idxmap[..], sorted[..], width);
    }

    /** The path of `sq_reduce` taken when the distinct colours fit in the
        palette: number the active list as it is, then resolve the zero
        list. Every slot then maps to a row holding exactly its colour. */
    method FitsPath(idxmap: array<Byte>, pal: array<Rgb>) returns (width: int)
      requires Valid() && first != [] && DistinctColours(first)
      requires idxmap.Length == colors && |first| <= pal.Length <= 256
      requires forall i :: 0 <= i < pal.Length ==> pal[i] == Rgb(0, 0, 0)
      modifies this, idxmap, pal
      ensures Valid() && reg == old(reg) && colors == old(colors)
      ensures width == |first| == |old(first)| && Colours(first) == Colours(old(first))
      ensures SortedBy(first, GreenBlueRed) && DistinctColours(first)
      ensures forall i :: 0 <= i < width ==> pal[i] == first[i].rgb
      ensures OrderedPalette(pal[..], width) && IndicesBelow(idxmap[..], width)
      ensures ExactColours(idxmap[..], pal[..], reg) && SameColourSameIndex(idxmap[..], reg)
    {
      ghost var first0 := first;
      PaletteAsIs(idxmap, pal);
      ColoursPermutation(first, first0);
      width := |first|;
      ZeroSlotsApart(first, zeromap, reg);
      ResolveZeros(idxmap);
      forall i | 0 <= i < |first|
        ensures idxmap[first[i].coloridx] == i
      {
      }
      FitsFacts(first, zeromap, reg, idxmap[..], pal[..]);
    }

    /** `sq_reduce`: remove duplicates, then either number the distinct
        colours as they are (when they fit in `palwid` rows) or cut them into
        `palwid` groups by median cut and re-sort the resulting palette by
        running a fresh quantizer over it, renumbering the index map to
        match. `width` is the number of palette rows in use, `total` the
        number of registered slots; `groups` records the cut. */
    method Reduce(palwid: int) returns (width: int, idxmap: array<Byte>, pal: array<Rgb>, total: nat,
                                       ghost groups: seq<seq<Entry>>)
      requires Valid() && zeromap == [] && first != [] && 1 <= palwid <= 256
      modifies this
      decreases if colors <= palwid then 0 else 4
      ensures Valid() && reg == old(reg)
      ensures fresh(idxmap) && fresh(pal)
      ensures total == |reg| && idxmap.Length == total && pal.Length == palwid
      ensures 1 <= width <= palwid && width <= |TableColours(reg)|
      ensures OrderedPalette(pal[..], width) && IndicesBelow(idxmap[..], width) && RowsUsed(idxmap[..], width)
      ensures SameColourSameIndex(idxmap[..], reg) && DistinctColours(first)
      ensures |TableColours(reg)| <= palwid ==>
                width == |TableColours(reg)| && TableColours(pal[..width]) == TableColours(reg) &&
                ExactColours(idxmap[..], pal[..], reg)
      ensures |TableColours(reg)| > palwid ==>
                palwid < |first| && SplitGroups(groups, first, palwid - 1) &&
                SortedBy(first, BlueGreenRed) && Colours(first) == TableColours(reg) && CutRecorded(groups, first, reg, idxmap[..], pal[..]) &&
                width == |TableColours(GroupPalette(groups))| &&
                TableColours(pal[..width]) == TableColours(GroupPalette(groups))
    {
      total := colors;
      pal := new Rgb[palwid](_ => Rgb(0, 0, 0));
      idxmap := new Byte[total](_ => 0);
      groups := [];
      ghost var first0 := first;
      assert ZeroEntries(zeromap, reg) == [];
      ColoursPermutation(first0, Catalog(reg, 0));
      CatalogColours(reg, 0);
      DupeNuke();
      DistinctColoursCount(first);
      if colors - zeros <= palwid {
        width := FitsPath(idxmap, pal);
        FitsRowsUsed(first, reg, idxmap[..], pal[..], width);
      } else {
        width, pal, groups := CutPath(palwid, idxmap, pal);
      }
    }
  }
}
