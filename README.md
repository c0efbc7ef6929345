# Median-cut palette quantizer and Next sync helpers, in Dafny

This project models two C components of a ZX Spectrum Next toolset and proves
properties of the models.

**`spritetool/sol_qmedian.h`** is a median-cut colour quantizer. A caller
first registers colour maps (`sq_addcolormap`). Every colour gets a slot
number in registration order (`coloridx`). `sq_reduce` then reduces the
registered colours to a palette of at most `palwid` rows and produces an
index map from slots to palette rows. It works in these steps:

- Duplicates are removed (`sqi_dupenuke`). Three stable one-pass radix sorts
  (`sqi_sort_group`) order the list blue-major. Then every repeat is moved to
  a "zero list" that points back at the entry it repeats.
- If the distinct colours fit in the palette, they are sorted green-major and
  numbered in order. Each duplicate slot then takes its representative's row.
- Otherwise the colour space is split. The loop repeatedly takes the group
  with the widest channel spread, sorts it by that channel (unless it is
  already sorted that way) and cuts it at the median of the channel sum
  (`sqi_examine_group`, `sqi_cut_group`). It stops when there are `palwid`
  groups. Each group contributes its rounded mean colour, or its head's colour
  when the spread is at most 1. Finally the palette goes through the
  quantizer once more (`SQI_RE_SORT`) and the index map is renumbered to
  match.

**`sync/nextsync.c`** provides small helpers:

- `memcmp` and `memset`;
- `atoi`, which actually writes the decimal digits of an unsigned 32-bit
  value into a buffer;
- `strinstr`, a substring search;
- the text cursor logic of `print`, `printn` and `checkscroll` on a
  32-column, 24-row screen.

How the model is built:

- Linked lists are sequences of `Entry(coloridx, rgb)`.
- The zero list is a sequence of `Zero(coloridx, rep)`.
- The quantizer object `SQ` is the class `QMedian.Quantizer`, whose methods
  update its fields.
- The index map and the palette are arrays that the methods fill in place.
- Radix sorting is specified by `BucketSort.RadixSorted`, a concatenation of
  per-value buckets.
- `atoi`'s digit loop is specified by `NextSync.Decimal` and its inverse
  `NextSync.ValueOf`.

The palette build indexes only the head of each group (line 498). This is
logged under "## Findings". `QMedian.Quantizer.CutPaletteAsWritten` models
the split path with the build as written. `QMedian.Quantizer.CutPalette`
uses the corrected build, which numbers every member of each group. The
driver `QMedian.Quantizer.Reduce` composes the corrected one.

The split loop is specified twice. `MedianCut.Split` updates five per-group
buffers as the C loop does. `MedianCut.Rounds` is a reference definition:
it applies `MedianCut.Round` a given number of times. Each round takes the
first group of widest spread. It sorts that group on its widest channel
unless the group is already marked as sorted that way. It then cuts the
group where `sqi_cut_group` does, at half the channel total. `Split` proves
that its buffers are the state after `palwid - 1` rounds.

Some behaviour is kept exactly as written:

- `atoi(0, b)` writes the empty string. No digit is emitted because no place
  value is at most 0.
- The `break` in the split loop (line 485) cannot be taken. While there are
  fewer groups than distinct colours, the widest group has a positive spread
  and therefore two or more members, so the cut always yields two non-empty
  halves. `MedianCut.Halve` proves this.
- One might expect the achieved width to fall short of `palwid` only when
  there are fewer distinct colours. On the split path, however, the code
  returns the width of the re-sort. That width is the number of distinct
  group colours, and it can be smaller than `palwid` because two group means
  may coincide and the re-sort merges them. The model follows the code. It
  proves that the width equals the number of distinct group colours and that
  the rows in use hold exactly those colours.
- `sqi_dupenuke` sorts by channels 0, 1, 2 in that order. The result is
  ordered blue, then green, then red. The fits path sorts 0, 2, 1, which
  gives green, then blue, then red. The model follows the code in both places.

## Model

| member | source | states |
|---|---|---|
| Colors.LexLeTransitive | spritetool/sol_qmedian.h:353-355 | the channel-priority order that successive stable sorts produce is transitive |
| Colors.LexLeTotal | spritetool/sol_qmedian.h:353-355 | any two colours are comparable in that order |
| Colors.LexLeAntisymmetric | spritetool/sol_qmedian.h:353-355 | over all three channels the order is antisymmetric, so colours equal in order are the same colour |
| Colors.AppendAfterLast | spritetool/sol_qmedian.h:380-384 | keeping an entry whose colour differs from the last kept one leaves the kept list sorted with distinct colours |
| Colors.DistinctColoursWithin | spritetool/sol_qmedian.h:481-486 | any sub-multiset of a list of distinct colours (a cut half, a group) still has distinct colours |
| Groups.RangeOf | spritetool/sol_qmedian.h:222-243 | the running minimum and maximum of a channel bound every member and are attained by some member |
| Groups.SumOfPermutation | spritetool/sol_qmedian.h:475-479 | reordering a group leaves each channel sum unchanged, so the sum recorded before a sort stays valid |
| Groups.RangePermutation | spritetool/sol_qmedian.h:475-479 | reordering a group leaves each channel's minimum and maximum unchanged |
| Groups.ExaminedPermutation | spritetool/sol_qmedian.h:475-479 | the examined component, spread and sum of a group still describe it after it is sorted |
| Groups.RoundedMean | spritetool/sol_qmedian.h:512-514 | the rounded mean `(sum + n/2) / n` of a channel lies between the group's minimum and maximum, so it fits in a byte |
| Groups.Widest | spritetool/sol_qmedian.h:244-257 | the widest spread is at least every channel's spread and equal to one of them |
| Groups.ExaminedWidest | spritetool/sol_qmedian.h:244-257 | a recorded group size is the group's widest spread |
| Groups.WidestChannel | spritetool/sol_qmedian.h:244-257 | the channel whose spread is the widest, with every lower-numbered channel spreading strictly less |
| Groups.ExaminedChannel | spritetool/sol_qmedian.h:220-258 | what the examination reports is fixed by the group: the first widest channel, its spread and that channel's total |
| Groups.DistinctPairSpread | spritetool/sol_qmedian.h:481-486 | a group of two or more distinct colours has a channel with a positive spread |
| Groups.WideGroup | spritetool/sol_qmedian.h:269-275 | a group with a positive spread on a channel has two members and a positive sum there, so the median walk of the cut stays inside the list |
| Groups.ExamineGroup | spritetool/sol_qmedian.h:220-258 | returns the channel with the widest spread, ties going to the lowest channel, with that spread and that channel's sum |
| Groups.CutGroup | spritetool/sol_qmedian.h:265-292 | splits the list into a prefix and the rest. A negative median cuts nothing. If the first entry already passes the median, only it is kept. Otherwise the kept prefix is the longest whose channel sum is at most half of `max`, which is the length `KeptFrom` gives |
| Groups.KeptFrom | spritetool/sol_qmedian.h:269-292 | the cut position: at least 1, the prefix up to it sums to at most the median unless it is the head alone, and the next member takes the sum past the median |
| Groups.KeptUnique | spritetool/sol_qmedian.h:269-292 | since running sums never decrease, only one position has those two properties |
| Groups.ScanEnd | spritetool/sol_qmedian.h:269-292 | when the scan stops after the first member that takes the running sum past the median, the cut keeps the head alone if that member is the head, and otherwise the members before it |
| BucketSort.BucketCounts | spritetool/sol_qmedian.h:304-318 | a bucket holds exactly the occurrences of the entries whose key is the bucket value |
| BucketSort.BucketKeepsOrder | spritetool/sol_qmedian.h:304-318 | dealing into a bucket keeps the list's existing order, so the sort is stable |
| BucketSort.BucketsOrdered | spritetool/sol_qmedian.h:324-340 | the concatenation of the first n buckets is non-decreasing in the key, and every key is below n |
| BucketSort.BucketsCounts | spritetool/sol_qmedian.h:324-340 | the first n buckets hold exactly the entries whose key is below n |
| BucketSort.RadixSortCorrect | spritetool/sol_qmedian.h:298-341 | the radix sort is non-decreasing in the key and is a permutation of the input, and each bucket keeps its entries' relative order |
| BucketSort.StrictlyOrderedUnique | spritetool/sol_qmedian.h:324-340 | two permutations of a list that are both strictly increasing in a key are the same list |
| BucketSort.RadixSortedStrict | spritetool/sol_qmedian.h:298-341 | a list strictly increasing in the key is left unchanged by the radix sort |
| BucketSort.RadixSortRefines | spritetool/sol_qmedian.h:298-341 | sorting a list already ordered by some channels gives a list ordered by the new channel first and then by those channels |
| BucketSort.ThreeSorts | spritetool/sol_qmedian.h:353-355 | three successive sorts by a, b, c order the list by c, then b, then a |
| BucketSort.HeadInItsBucket | spritetool/sol_qmedian.h:324-328 | a non-empty list fills some bucket, so the scan for the first full bucket stops |
| BucketSort.Deal | spritetool/sol_qmedian.h:304-318 | step 1 leaves in bucket v the entries with key v, in list order |
| BucketSort.Link | spritetool/sol_qmedian.h:324-340 | step 2 links the full buckets in increasing order, giving the radix-sorted list |
| BucketSort.SortGroup | spritetool/sol_qmedian.h:298-341 | returns the radix-sorted list. It is non-decreasing in the component, a permutation of the input, and keeps each bucket's order |
| BucketSort.SortThrice | spritetool/sol_qmedian.h:353-355 | the three sorts give a permutation ordered with the last-sorted channel most significant |
| MedianCut.MembersSplit | spritetool/sol_qmedian.h:481-486 | replacing a group by its two halves keeps the multiset of all grouped colours |
| MedianCut.SomeGroupLarge | spritetool/sol_qmedian.h:463-492 | with more colours than groups, some group has two or more members |
| MedianCut.SomeGroupSpreads | spritetool/sol_qmedian.h:463-492 | with fewer groups than distinct colours, some group has a positive spread |
| MedianCut.HeadsWithin | spritetool/sol_qmedian.h:497-498 | the group heads are among the grouped colours |
| MedianCut.GroupOf | spritetool/sol_qmedian.h:459-492 | every grouped colour sits at some place of some group |
| MedianCut.TwoPlaces | spritetool/sol_qmedian.h:459-492 | an entry at two places of the groups counts twice among the members |
| MedianCut.GroupSlotsApart | spritetool/sol_qmedian.h:459-492 | when the groups share out entries with distinct slots, no slot lies at two places of the groups |
| MedianCut.OrderedParts | spritetool/sol_qmedian.h:489-490 | both halves of a cut of a sorted group are still sorted, so the recorded sort order carries over |
| MedianCut.LargestGroup | spritetool/sol_qmedian.h:466-473 | returns the first place among the first `groups` holding the largest recorded size: no size exceeds it and every earlier one is strictly smaller, so it is `FirstLargest` of those sizes |
| MedianCut.FirstLargest | spritetool/sol_qmedian.h:466-473 | the place the scan settles on holds the maximum, and every earlier place holds strictly less |
| MedianCut.CutOrder | spritetool/sol_qmedian.h:474-479 | the list that gets cut is the group itself when it is marked as sorted on the channel, and otherwise its radix sort on that channel; either way it holds the same members |
| MedianCut.Round | spritetool/sol_qmedian.h:463-492 | reference definition of one round: cut the first widest group, sorted on its first widest channel unless already marked so, at half that channel's total; it keeps the groups non-empty and sharing out the colours, and adds one group |
| MedianCut.Rounds | spritetool/sol_qmedian.h:459-492 | reference definition of the loop: after `n` rounds from one unmarked group holding all the active colours there are `n + 1` groups that share out those colours |
| MedianCut.RoundCuts | spritetool/sol_qmedian.h:481-486 | while there are fewer groups than distinct colours, the cut of the widest group falls strictly inside it and the groups keep every colour |
| MedianCut.CutInside | spritetool/sol_qmedian.h:481-486 | the cut position of the first widest group, sorted or not, is strictly inside the group, so neither part is empty |
| MedianCut.CutKeepsMembers | spritetool/sol_qmedian.h:481-491 | replacing a group by the two parts of any cut of a reordering of it keeps the colours of all the groups |
| MedianCut.RoundStep | spritetool/sol_qmedian.h:463-492 | one pass of the loop body, with the group `LargestGroup` picks, the recorded channel and the cut `Halve` makes, is exactly `Round` |
| MedianCut.FirstRound | spritetool/sol_qmedian.h:459-492 | the first round cuts the whole list, sorted on its widest channel, at the position `KeptFrom` gives, and marks both parts with that channel |
| MedianCut.GroupsAfterRounds | spritetool/sol_qmedian.h:459-492 | the groups of the state after `n` rounds are the groups `Rounds` gives |
| MedianCut.Halve | spritetool/sol_qmedian.h:474-486 | sorts the group on its recorded widest channel unless it is already marked so, then cuts that list (`CutOrder`) at the position `KeptFrom` gives for half the channel total; both halves are non-empty, share out the group's members and are ordered on that channel, which becomes the new mark |
| MedianCut.CutWidest | spritetool/sol_qmedian.h:474-491 | one round on the chosen group: its two parts, concatenated, are `CutOrder` of the group, the first part ends where `KeptFrom` says, both are non-empty and examined, and both are marked with the group's widest channel |
| MedianCut.Split | spritetool/sol_qmedian.h:459-492 | the split loop ends with exactly `palwid` non-empty groups and marks that are the state `Rounds` gives after `palwid - 1` rounds; the groups share out the active colours, each recorded size is the widest spread, and each mark is correct |
| MedianCut.SplitOnce | spritetool/sol_qmedian.h:463-492 | one pass of the loop body with `g` groups keeps the loop invariant at `g + 1` groups: the buffers hold the state after one more round |
| MedianCut.SplitAdvance | spritetool/sol_qmedian.h:481-491 | placing the kept part at the picked place and the second part at place `g`, both examined and marked, gives the state after one more round and keeps every group examined |
| MedianCut.GroupColour | spritetool/sol_qmedian.h:509-524 | the group's palette colour lies channel by channel between the group's minimum and maximum |
| MedianCut.Totals | spritetool/sol_qmedian.h:499-508 | counts the group and sums each channel |
| MedianCut.AverageColour | spritetool/sol_qmedian.h:499-524 | computes the group's palette colour: the rounded channel means when the recorded size exceeds 1, the head's colour otherwise |
| MedianCut.BuildPalette | spritetool/sol_qmedian.h:494-525 | as written: row i of the palette is group i's colour, and the index map gives each group head its group number and is otherwise unchanged |
| MedianCut.HeadsOnlyMisnumbers | spritetool/sol_qmedian.h:498 | as written, in the cut {black, (200,0,0)}, {(210,0,0), (220,0,0)}, slot 3 keeps index 0. Row 0 holds (100,0,0), but its group's colour is (215,0,0) |
| MedianCut.NumberMembers | spritetool/sol_qmedian.h:501-508 | corrected: the walk over a group, which in the source only counts and sums, here also sets every member's slot to the group number and leaves other slots alone |
| MedianCut.NumberedStep | spritetool/sol_qmedian.h:495-508 | numbering one more group keeps the numbers of the groups before it, since no slot lies in two groups |
| MedianCut.BuildPaletteAll | spritetool/sol_qmedian.h:494-525 | corrected: row i of the palette is group i's colour, every member of group i maps to i, and all other slots are unchanged |
| MedianCut.AllMembersNumbered | spritetool/sol_qmedian.h:497-508 | corrected, in the same cut, slots 2 and 3 map to 1 and slots 0 and 1 map to 0 |
| MedianCut.RedCutIsSplit | spritetool/sol_qmedian.h:459-492 | the cut used by the two lemmas above is what one round of the split loop makes of those four colours |
| MedianCut.RedRound | spritetool/sol_qmedian.h:220-292 | on those four colours red is the widest channel, the list is already in red order, and the cut at half of the red total 630 keeps two members |
| QMedian.Quantizer.constructor | spritetool/sol_qmedian.h:140-143 | a new quantizer has no colours, no active entries and no zero list |
| QMedian.Quantizer.AddColor | spritetool/sol_qmedian.h:149-167 | appends the colour under the next slot number to the registry and to the active list |
| QMedian.Quantizer.AddColorMap | spritetool/sol_qmedian.h:174-196 | returns the first new slot number and appends the `count` colours read at the given stride, in order |
| QMedian.PackRoundTrip | spritetool/sol_qmedian.h:543-544 | reading a palette packed as 3-byte rows back as a colour map with stride 3 gives the same palette |
| QMedian.CatalogColours | spritetool/sol_qmedian.h:174-196 | the active list after registration holds exactly the registered colours |
| QMedian.CatalogFacts | spritetool/sol_qmedian.h:348-389 | when the active and zero lists together account for every slot once, active entries carry their registered colours, slots are distinct, and the two lists' lengths add up to the slot count |
| QMedian.SlotCovered | spritetool/sol_qmedian.h:362-377 | every registered slot is either an active entry or on the zero list |
| QMedian.MoveDuplicates | spritetool/sol_qmedian.h:356-388 | the scan keeps one entry per colour, still sorted, and moves every repeat to the zero list pointing at a kept entry of the same colour, losing nothing |
| QMedian.Quantizer.DupeNuke | spritetool/sol_qmedian.h:348-389 | afterwards the active list has the same colours, is ordered blue-major, has distinct colours, and active plus zero entries equal the colour count |
| QMedian.DistinctColoursCount | spritetool/sol_qmedian.h:418 | with distinct colours, `colors - zeros` is the number of distinct colours |
| QMedian.ColoursPermutation | spritetool/sol_qmedian.h:429-431 | reordering the active list keeps its set of colours |
| QMedian.TableColoursBound | spritetool/sol_qmedian.h:418-420 | a colour table has no more distinct colours than rows |
| QMedian.ZeroSlotsApart | spritetool/sol_qmedian.h:443-448 | zero-list slots are distinct, never a representative, and never active, so resolving them in any order gives the same map |
| QMedian.Owner | spritetool/sol_qmedian.h:443-448 | once zero slots are resolved, every slot shares its value with an active slot of its colour |
| QMedian.SameColourSameValue | spritetool/sol_qmedian.h:443-448 | after resolution, two slots of the same colour have the same value |
| QMedian.NumberEntries | spritetool/sol_qmedian.h:432-442 | row j holds the j-th active colour and that entry's slot maps to j; slots of no entry keep their index |
| QMedian.FitsFacts | spritetool/sol_qmedian.h:432-448 | on the fits path every slot maps to a row holding exactly its own colour, and equal colours share a row |
| QMedian.Quantizer.ResolveZeros | spritetool/sol_qmedian.h:526-531 | each zero-list slot takes the value of the slot it points at, and nothing else changes |
| QMedian.Quantizer.PaletteAsIs | spritetool/sol_qmedian.h:429-442 | orders the active list green-major, keeping its members, and numbers it into the palette and the index map; rows past the list and slots of no active entry are unchanged |
| QMedian.Quantizer.FitsPath | spritetool/sol_qmedian.h:418-456 | returns the number of distinct colours. The palette lists them in strictly increasing green-major order with black after them, and every slot maps to the row of its own colour |
| QMedian.HeadsOfFirst | spritetool/sol_qmedian.h:497-498 | group heads are distinct registered active entries, and no non-head entry shares a slot with a head |
| QMedian.IndexBound | spritetool/sol_qmedian.h:409 | starting from the zeroed allocation, the numbered index map stays below the group count |
| QMedian.ResolvedIndex | spritetool/sol_qmedian.h:526-531 | resolving the zero list keeps indices in range, leaves active slots alone and gives duplicates their representative's value |
| QMedian.HeadsIndexed | spritetool/sol_qmedian.h:494-531 | as written: after the palette build and the zero pass, head j maps to j, every non-head active slot maps to 0, and duplicates share their representative's value (`HeadsRecorded`) |
| QMedian.MemberOfFirst | spritetool/sol_qmedian.h:459-462 | every member of the cut is an entry of the active list the loop started from |
| QMedian.MembersIndexBound | spritetool/sol_qmedian.h:409 | numbering every member over the zeroed allocation keeps indices below the group count |
| QMedian.MembersIndexed | spritetool/sol_qmedian.h:494-531 | with the corrected build, after the zero pass every member of group j maps to j, indices are in range, and duplicates share their representative's value |
| QMedian.CutIndexFacts | spritetool/sol_qmedian.h:494-531 | with every member numbered, the cut is recorded. Each head's row holds its group's colour, and every slot whose colour lies in a group maps where that group's head does. Indices are in range and equal colours share a row |
| QMedian.SlotShowsItsGroup | spritetool/sol_qmedian.h:494-553 | on a recorded cut whose active colours are all the registered ones, every slot's row holds the colour of the group its colour fell into |
| QMedian.Quantizer.CutPalette | spritetool/sol_qmedian.h:459-531 | the split path with the corrected palette build: the `palwid` groups are those `Rounds` gives after `palwid - 1` rounds, row j holds group j's colour, the cut is recorded, indices are below `palwid` and equal colours share a row |
| QMedian.Quantizer.CutPaletteAsWritten | spritetool/sol_qmedian.h:459-531 | the split path as written: the same groups and palette rows, indices below `palwid`, but only each head maps to its group number; other active slots keep 0 and duplicates copy their representative |
| QMedian.Quantizer.CutPath | spritetool/sol_qmedian.h:459-553 | the split path followed by the re-sort: the width is the number of distinct group colours, the rows in use hold exactly those colours in order, every row in use is some slot's index, the cut stays recorded and equal colours share a row |
| QMedian.RenumberedCut | spritetool/sol_qmedian.h:542-553 | renumbering through the re-sort keeps the recorded cut: group colours stay on the heads' rows, and slots stay with their group's head |
| QMedian.RenumberedSameColour | spritetool/sol_qmedian.h:548-551 | renumbering keeps equal colours on equal rows |
| QMedian.SortPalette | spritetool/sol_qmedian.h:542-546 | quantizing the palette again yields an ordered palette whose width is the palette's number of distinct colours, whose rows in use hold exactly those colours, and a remap under which every old row still shows its colour and every new row is used |
| QMedian.Renumber | spritetool/sol_qmedian.h:548-551 | every slot's index is replaced by its image under the remap |
| QMedian.Composed | spritetool/sol_qmedian.h:546-551 | composing the index map with the remap is a renumbering that stays below the new width |
| QMedian.BuiltPalette | spritetool/sol_qmedian.h:494-525 | a palette whose row j holds group j's colour is the group palette |
| QMedian.ExactRowsUsed | spritetool/sol_qmedian.h:432-448 | when every slot shows exactly its colour and the rows in use hold exactly the registered colours, every such row is some slot's index |
| QMedian.FitsRowsUsed | spritetool/sol_qmedian.h:418-456 | on the fits path the rows in use hold exactly the registered colours and each is some slot's index |
| QMedian.CutRowsUsed | spritetool/sol_qmedian.h:542-553 | after the re-sort of the split path every row in use is the index of the slot of some group's head |
| QMedian.ReSortedCut | spritetool/sol_qmedian.h:494-553 | the re-sort keeps the recorded cut and equal colours on one row, its width is the number of distinct group colours, its rows in use hold exactly those, and each is used |
| QMedian.ReSort | spritetool/sol_qmedian.h:542-553 | the re-sorted palette is ordered, its width is the old palette's number of distinct colours and its rows in use hold exactly those colours, and the index map is a renumbering of the old one into it |
| QMedian.Quantizer.Reduce | spritetool/sol_qmedian.h:396-555 | corrected build: returns a width between 1 and `palwid`, an ordered palette and an index map of `total` slots in which every index is in range, every row in use is some slot's index, and equal colours share a row. If the colours fit, the width is the distinct colour count, the rows in use hold exactly the registered colours and each slot shows its own colour. Otherwise the groups are those `Rounds` gives on the active list, which holds the registered colours once each in blue-major order, the cut is recorded, and the width is the number of distinct group colours, held exactly by the rows in use |
| NextSync.Memcmp | sync/nextsync.c:34-44 | returns 0 exactly when the first `l` bytes agree; otherwise it returns the 8-bit difference at the first place they differ |
| NextSync.Memset | sync/nextsync.c:46-54 | the first `l` bytes become `b` and the rest are unchanged |
| NextSync.Decimal | sync/nextsync.c:146-175 | the digits `atoi` emits are decimal digits with no leading zero, and none at all for 0 |
| NextSync.DecimalRoundTrip | sync/nextsync.c:146-175 | reading the emitted digits back gives the value |
| NextSync.DecimalOfValue | sync/nextsync.c:146-175 | every digit string without a leading zero is what `atoi` emits for its value |
| NextSync.DecimalLength | sync/nextsync.c:149-162 | a value below 10^n has at most n digits, so a 32-bit value needs at most ten |
| NextSync.DecimalMonotone | sync/nextsync.c:146-175 | a larger value never has fewer digits |
| NextSync.CountDigit | sync/nextsync.c:168 | the inner loop counts how many times the place value fits, which is a digit below ten, and leaves the remainder |
| NextSync.DigitEmitted | sync/nextsync.c:168 | the counted digit extends the digits emitted so far |
| NextSync.Atoi | sync/nextsync.c:146-175 | writes the decimal digits of `v` followed by a NUL, returns their count, and leaves later bytes unchanged |
| NextSync.StrLen | sync/nextsync.c:109 | the length of a NUL-terminated string is the position of its first NUL |
| NextSync.Strinstr | sync/nextsync.c:241-257 | returns 1 exactly when the needle is empty or occurs at one of the first `len` positions, and 0 otherwise |
| NextSync.CheckScroll | sync/nextsync.c:96-105 | rows below 24 are kept and rows from 24 move up by 8, so a row below 32 ends on the screen |
| NextSync.CursorOnScreen | sync/nextsync.c:107-124 | a cursor that starts on the screen stays on it however many characters are drawn, and so does the returned row |
| NextSync.Print | sync/nextsync.c:107-124 | returns the row below the cursor after drawing the string, which is on the screen when the start is |
| NextSync.Printn | sync/nextsync.c:126-144 | returns the row below the cursor after drawing `n` characters, which is on the screen when the start is |

## Findings

| source | as written | input that shows it | evidently intended | confidence | as-written member | corrected member |
|---|---|---|---|---|---|---|
| spritetool/sol_qmedian.h:498 | the palette build sets only each group head's index-map slot to the group number; every other member keeps the 0 it was allocated with | register (0,0,0), (200,0,0), (210,0,0), (220,0,0) and reduce to 2 rows: the cut gives {black, (200,0,0)} and {(210,0,0), (220,0,0)}, and slot 3 ends on the row holding (100,0,0) instead of (215,0,0) | every member of group i gets index i, set during the walk over the group (lines 501-508) | high; not executed | MedianCut.HeadsOnlyMisnumbers | MedianCut.BuildPaletteAll |

`MedianCut.BuildPalette` and `QMedian.HeadsIndexed` model the code as written.
`QMedian.Quantizer.CutPaletteAsWritten` runs the split path with that build.
`MedianCut.HeadsOnlyMisnumbers` shows the discrepancy on the cut above, and
`MedianCut.RedCutIsSplit` proves that this cut is the one the split loop
makes of those four colours.
`MedianCut.BuildPaletteAll` numbers every member; `MedianCut.AllMembersNumbered`
shows the corrected numbering on the same cut. `QMedian.Quantizer.CutPalette`
and therefore `QMedian.Quantizer.Reduce` use the corrected build, and
`QMedian.SlotShowsItsGroup` states what the corrected build guarantees for
every slot.

## Left out

- Drawing and scrolling the screen (`drawchar`, `scrollup`): these are screen I/O. The model keeps only the cursor arithmetic.
- Memory management is not modelled: `sqi_calloc`'s exit on allocation failure, `free`, `sqi_free_colmaps`, and the freeing of the quantizer at the end of `sq_reduce`. The colour-map records `sq_addcolormap` keeps are left out too; only the colours they hold are kept.
- Linked-list relinking and aliasing: lists are sequences, so the model captures list contents and order but not the relinking of `next` fields in place.
- Union punning of `sqi_colorchunk`: a duplicate's back-reference is kept in a separate `rep` field, not in the colour bytes. The fourth "light" byte is always 0 and is left out, so comparing `block` words is comparing colours.
- Signedness of `char`: results are 8-bit patterns (`Byte`), which is what the callers compare against 0.
- NextSync.Strinstr: requires a needle shorter than 256 bytes, because the source's `unsigned char` index would wrap on a longer one. It also requires the haystack to be readable as far as the comparisons go.
- NextSync.Atoi: requires `v` below 2^32 (the width of `unsigned long` on the target) and a buffer with room for the digits and the NUL.
- QMedian.Quantizer.DupeNuke: requires an empty zero list, which holds at its only call site in `sq_reduce`.
- QMedian.Quantizer.Reduce: requires `palwid` between 1 and 256, because the index map stores palette rows in bytes. It returns the `outindices` value as the out-parameter `total` rather than through an output argument.
- QMedian.Quantizer.Reduce: on the split path it composes the corrected palette build (`QMedian.Quantizer.CutPalette`, `MedianCut.BuildPaletteAll`). The build as written is modelled by `QMedian.Quantizer.CutPaletteAsWritten`, which `Reduce` does not call, so the as-written effect of the re-sort and renumbering on a misnumbered map is not stated.
- Groups.SumOf: channel sums are unbounded integers, while the source keeps them in C `int`. The model does not prove that they stay below 2^31 - 1. They are only taken over distinct colours, and the largest such sum, one channel over all 2^24 colours, is 65536 * 32640 = 2,139,095,040.
- Groups.ExamineGroup: its running sums `rs`, `gs` and `bs` are C `int` in the source. The model does not capture their overflow, for the reason given for `Groups.SumOf`.
- MedianCut.Totals: `count` and the channel sums are unbounded here and C `int` in the source. Their overflow is not modelled. The rounded-mean numerator `comp + count / 2` could reach 2^31 only for one group holding all 2^24 colours.
- MedianCut.Split: the five group buffers of the split loop are sequences updated element by element, not calloc'd arrays.
- The palette is an array of `Rgb` rows rather than `3 * palwid` bytes. `QMedian.Pack` gives the byte layout where the re-sort reads the palette as a colour map.
- Several steps of `sq_reduce` and the helpers are factored into their own members with the same effect: `SortThrice`, `MoveDuplicates`, `NumberEntries`, `PaletteAsIs`, `FitsPath`, `CutPalette`, `CutPath`, `SortPalette`, `ReSort`, `Renumber`, `SplitOnce`, `CutWidest`, `Halve`, `Deal`, `Link` and `CountDigit`.
- The rest of `nextsync.c` is not part of this model: `printnum`, the UART and file I/O, `receive`, `send`, `bufinput`, `atcmd`, `cipxfer` and `main`. They are I/O built on the helpers above.
