/**
 Why one scan of a block pool finds its longest contiguous run
 (platform/centec/centec-dal/dal_kernel.c, `_dal_find_largest_segment`).
 */
module DmaAssembly {
  import opened DmaBlocks

  // What a scan knows after looking at the first `i` blocks: they all carry a final tag, and no
  // run around a finally tagged block is longer than `best`.
  ghost predicate Settled(a: seq<nat>, t: seq<nat>, i: nat, best: nat, size: nat)
    requires Fits(a, size)
  {
    && |t| == |a|
    && NoneTagged(t, CURRENT)
    && (forall j :: 0 <= j < i && j < |t| ==> t[j] != UNTAGGED)
    && (forall j :: 0 <= j < |t| && t[j] != UNTAGGED ==> Extent(a, a[j], size) <= best)
  }

  // `t` differs from `before` only in that some untagged blocks from `i` on are now current.
  ghost predicate Grown(before: seq<nat>, t: seq<nat>, i: nat) {
    && |t| == |before|
    && forall j :: 0 <= j < |t| ==> t[j] == before[j] || (i <= j && before[j] == UNTAGGED && t[j] == CURRENT)
  }

  // No untagged block after `i` and before `hi` touches the range.
  ghost predicate Stable(a: seq<nat>, t: seq<nat>, i: nat, hi: nat, begin: nat, end: nat, size: nat)
    requires |t| == |a|
  {
    forall j :: i < j < hi && j < |t| && t[j] == UNTAGGED ==> a[j] + size != begin && a[j] != end
  }

  lemma GrownOnce(before: seq<nat>, t: seq<nat>, i: nat, j: nat)
    requires Grown(before, t, i) && i <= j < |t| && t[j] == UNTAGGED
    ensures Grown(before, t[j := CURRENT], i)
  {
  }

  lemma StableOneMore(a: seq<nat>, t: seq<nat>, i: nat, j: nat, begin: nat, end: nat, size: nat)
    requires |t| == |a| && j < |t| && Stable(a, t, i, j, begin, end, size)
    requires t[j] == UNTAGGED ==> a[j] + size != begin && a[j] != end
    ensures Stable(a, t, i, j + 1, begin, end, size)
  {
  }

  lemma GrownMore(before: seq<nat>, mid: seq<nat>, t: seq<nat>, i: nat)
    requires Grown(before, mid, i) && Grown(mid, t, i)
    ensures Grown(before, t, i)
  {
  }

  // The blocks tagged CURRENT lie end to end between `begin` and `end`, and the range has not
  // outgrown the request by a whole block.
  ghost predicate Growing(a: seq<nat>, t: seq<nat>, idx: seq<nat>, begin: nat, end: nat, size: nat, req: nat) {
    && EndToEnd(a, idx, begin, end, size)
    && Lists(t, idx, CURRENT)
    && begin < end < WORD && end - begin < req + size
  }

  // Retagging after a current run became the longest so far.
  function Promoted(w: nat): nat {
    if Tag(w) == CURRENT then ClearLow(w) else if Tag(w) == MATCHED then FlipTag(w) else w
  }

  function PromotedTag(tag: nat): nat {
    if tag == CURRENT then MATCHED else if tag == MATCHED then DISCARDED else tag
  }

  // Retagging after a current run was not longer than the longest so far.
  function Dropped(w: nat): nat {
    if Tag(w) == CURRENT then ClearHigh(w) else w
  }

  function DroppedTag(tag: nat): nat {
    if tag == CURRENT then DISCARDED else tag
  }

  // A word is made of its address and its tag.
  lemma Word(q: nat, tag: nat)
    requires tag < 4
    ensures Tag(4 * q + tag) == tag && Addr(4 * q + tag) == 4 * q
  {
  }

  // Every address has its two low bits clear.
  ghost predicate Aligned(a: seq<nat>) {
    forall j :: 0 <= j < |a| ==> IsAligned(a[j])
  }

  ghost predicate IsAligned(x: nat) {
    exists q: nat :: x == 4 * q
  }

  // The bit operations of the retagging loops, read as tags.
  lemma AtWord(a: seq<nat>, t: seq<nat>, j: nat)
    requires Aligned(a) && j < |a| == |t| && t[j] < 4
    ensures Addr(a[j] + t[j]) == a[j] && Tag(a[j] + t[j]) == t[j]
    ensures MarkCurrent(a[j] + t[j]) == a[j] + CURRENT
    ensures Promoted(a[j] + t[j]) == a[j] + PromotedTag(t[j])
    ensures Dropped(a[j] + t[j]) == a[j] + DroppedTag(t[j])
  {
    var q: nat :| a[j] == 4 * q;
    Word(q, t[j]);
  }

  // ----- growing the current run -----

  lemma ExtendBelow(a: seq<nat>, idx: seq<nat>, begin: nat, end: nat, size: nat, j: nat)
    requires EndToEnd(a, idx, begin, end, size)
    requires j < |a| && a[j] + size == begin
    ensures EndToEnd(a, [j] + idx, a[j], end, size)
  {
    assert ([j] + idx)[1..] == idx;
  }

  lemma {:induction false} ExtendAbove(a: seq<nat>, idx: seq<nat>, begin: nat, end: nat, size: nat, j: nat)
    requires EndToEnd(a, idx, begin, end, size)
    requires j < |a| && a[j] == end
    ensures EndToEnd(a, idx + [j], begin, end + size, size)
  {
    if |idx| == 1 {
      assert (idx + [j])[1..] == [j];
    } else {
      ExtendAbove(a, idx[1..], begin + size, end, size, j);
      assert (idx + [j])[1..] == idx[1..] + [j];
    }
  }

  lemma ListOneMore(t: seq<nat>, idx: seq<nat>, tag: nat, j: nat)
    requires Lists(t, idx, tag) && j < |t| && t[j] != tag
    ensures Lists(t[j := tag], [j] + idx, tag) && Lists(t[j := tag], idx + [j], tag)
  {
    forall m | 0 <= m < |t| && t[j := tag][m] == tag
      ensures m in [j] + idx && m in idx + [j]
    {
      assert m == j || m in idx;
    }
  }

  // Adding a touching block keeps the current range in one piece.
  lemma Grow(a: seq<nat>, t: seq<nat>, idx: seq<nat>, begin: nat, end: nat, size: nat, req: nat, j: nat, begin': nat,
             end': nat)
    returns (idx': seq<nat>)
    requires Growing(a, t, idx, begin, end, size, req) && end - begin < req && Fits(a, size)
    requires j < |a| == |t| && t[j] == UNTAGGED && (a[j] + size == begin || a[j] == end)
    requires begin' == (if a[j] + size == begin then a[j] else begin)
    requires end' == (if a[j] + size == begin then end else end + size)
    ensures Growing(a, t[j := CURRENT], idx', begin', end', size, req)
  {
    ListOneMore(t, idx, CURRENT, j);
    if a[j] + size == begin {
      ExtendBelow(a, idx, begin, end, size, j);
      idx' := [j] + idx;
    } else {
      ExtendAbove(a, idx, begin, end, size, j);
      idx' := idx + [j];
    }
  }

  // A block in the same maximal run, but outside the range, would still be untagged and after `i`.
  lemma NeighbourFree(a: seq<nat>, before: seq<nat>, t: seq<nat>, idx: seq<nat>, i: nat, begin: nat, end: nat,
                      best: nat, size: nat, j: nat)
    requires Fits(a, size) && Settled(a, before, i, best, size)
    requires i < |t| && Grown(before, t, i) && t[i] == CURRENT
    requires EndToEnd(a, idx, begin, end, size) && Lists(t, idx, CURRENT)
    requires j < |t| && (a[j] + size == begin || a[j] == end)
    requires best < Extent(a, a[j], size)
    ensures i < j && t[j] == UNTAGGED
  {
    assert before[j] == UNTAGGED;
    if t[j] == CURRENT {
      var k :| 0 <= k < |idx| && idx[k] == j;
      BlockAt(a, idx, begin, end, size, k);
      assert false;
    }
  }

  // Such a block would have made the range grow.
  lemma NoNeighbour(a: seq<nat>, before: seq<nat>, t: seq<nat>, idx: seq<nat>, i: nat, begin: nat, end: nat,
                    best: nat, size: nat, x: nat)
    requires Fits(a, size) && Settled(a, before, i, best, size)
    requires i < |t| && Grown(before, t, i) && t[i] == CURRENT
    requires EndToEnd(a, idx, begin, end, size) && Lists(t, idx, CURRENT)
    requires Stable(a, t, i, |t|, begin, end, size)
    requires (x + size == begin || x == end) && (x in a ==> best < Extent(a, x, size))
    ensures x !in a
  {
    if x in a {
      var j :| 0 <= j < |a| && a[j] == x;
      NeighbourFree(a, before, t, idx, i, begin, end, best, size, j);
      assert false;
    }
  }

  // A run that can no longer grow is maximal, unless its neighbourhood was settled before.
  lemma StableIsMaximal(a: seq<nat>, before: seq<nat>, t: seq<nat>, idx: seq<nat>, i: nat, begin: nat, end: nat,
                        best: nat, size: nat)
    requires Fits(a, size) && Settled(a, before, i, best, size)
    requires i < |t| && Grown(before, t, i) && t[i] == CURRENT
    requires EndToEnd(a, idx, begin, end, size) && Lists(t, idx, CURRENT)
    requires Stable(a, t, i, |t|, begin, end, size)
    requires best < Extent(a, begin, size)
    ensures Extent(a, begin, size) == end - begin
  {
    OneExtent(a, idx, begin, end, size);
    NoNeighbour(a, before, t, idx, i, begin, end, best, size, end);
    if size <= begin {
      BelowExtent(a, begin, size);
      NoNeighbour(a, before, t, idx, i, begin, end, best, size, begin - size);
    }
    BareEnds(a, begin, end, size);
  }

  lemma BelowExtent(a: seq<nat>, begin: nat, size: nat)
    requires Fits(a, size) && size <= begin
    ensures begin - size in a ==> Extent(a, begin - size, size) == Extent(a, begin, size)
  {
  }

  lemma BareEnds(a: seq<nat>, begin: nat, end: nat, size: nat)
    requires Fits(a, size) && begin <= end && end !in a && (size <= begin ==> begin - size !in a)
    requires Top(a, begin, size) == Top(a, end, size)
    ensures Extent(a, begin, size) == end - begin
  {
  }

  // Once a stable run is retagged, one more block is settled.
  lemma Settle(a: seq<nat>, before: seq<nat>, t: seq<nat>, t': seq<nat>, idx: seq<nat>, i: nat, begin: nat, end: nat,
               best: nat, best': nat, size: nat)
    requires Fits(a, size) && Settled(a, before, i, best, size)
    requires i < |t| == |t'| && Grown(before, t, i) && t[i] == CURRENT
    requires EndToEnd(a, idx, begin, end, size) && Lists(t, idx, CURRENT)
    requires Stable(a, t, i, |t|, begin, end, size)
    requires Finished(t, t')
    requires best <= best' && end - begin <= best'
    ensures Settled(a, t', i + 1, best', size)
  {
    OneExtent(a, idx, begin, end, size);
    if best < Extent(a, begin, size) {
      StableIsMaximal(a, before, t, idx, i, begin, end, best, size);
    }
    forall j | 0 <= j < |t| && t'[j] != UNTAGGED
      ensures Extent(a, a[j], size) <= best'
    {
      if t[j] == CURRENT {
        var k :| 0 <= k < |idx| && idx[k] == j;
      } else {
        assert before[j] != UNTAGGED;
      }
    }
  }

  // What the tags MATCHED mean: the segment found by this scan, or nothing if the scan found no
  // run longer than the `best0` it started with.
  ghost predicate Winner(a: seq<nat>, t: seq<nat>, best0: nat, best: nat, begin: nat, end: nat, size: nat, req: nat) {
    && best0 <= best
    && (best == best0 ==> NoneTagged(t, MATCHED))
    && (best0 < best ==> Tiled(a, t, MATCHED, begin, end, size) && end - begin == best < req + size)
  }

  // `t'` is `t` with every tag changed by `f`.
  ghost predicate Retagged(t: seq<nat>, t': seq<nat>, f: nat -> nat) {
    |t'| == |t| && forall j :: 0 <= j < |t| ==> t'[j] == f(t[j])
  }

  // No block of `t'` is current any more, and none lost or gained a tag.
  ghost predicate Finished(t: seq<nat>, t': seq<nat>) {
    |t'| == |t| && forall j :: 0 <= j < |t| ==> t'[j] != CURRENT && (t'[j] == UNTAGGED <==> t[j] == UNTAGGED)
  }

  lemma NothingSettled(a: seq<nat>, t: seq<nat>, best: nat, begin: nat, end: nat, size: nat, req: nat)
    requires Fits(a, size) && |t| == |a| && forall j :: 0 <= j < |t| ==> t[j] == UNTAGGED
    ensures Settled(a, t, 0, best, size) && Winner(a, t, best, best, begin, end, size, req)
  {
  }

  lemma SettledAlready(a: seq<nat>, t: seq<nat>, i: nat, best: nat, size: nat)
    requires Fits(a, size) && Settled(a, t, i, best, size) && i < |t| && t[i] != UNTAGGED
    ensures Settled(a, t, i + 1, best, size)
  {
  }

  lemma PromoteWins(a: seq<nat>, t: seq<nat>, t': seq<nat>, idx: seq<nat>, begin: nat, end: nat, best0: nat, size: nat,
                    req: nat)
    requires Growing(a, t, idx, begin, end, size, req) && Retagged(t, t', PromotedTag)
    requires best0 < end - begin
    ensures Winner(a, t', best0, end - begin, begin, end, size, req) && Finished(t, t')
  {
    assert Lists(t', idx, MATCHED);
  }

  lemma DropKeepsWinner(a: seq<nat>, before: seq<nat>, t: seq<nat>, t': seq<nat>, i: nat,
                        best0: nat, best: nat, begin: nat, end: nat, size: nat, req: nat)
    requires Winner(a, before, best0, best, begin, end, size, req)
    requires Grown(before, t, i) && Retagged(t, t', DroppedTag)
    ensures Winner(a, t', best0, best, begin, end, size, req) && Finished(t, t')
  {
    if best0 < best {
      var idx: seq<nat> :| EndToEnd(a, idx, begin, end, size) && Lists(before, idx, MATCHED);
      assert Lists(t', idx, MATCHED);
    }
  }

  // No run of blocks is longer than `best` bytes.
  ghost predicate LongestRun(a: seq<nat>, best: nat, size: nat) {
    forall x: nat, count: nat :: IsRun(a, x, count, size) ==> count * size <= best
  }

  // Some run of blocks is `best` bytes long.
  ghost predicate RunExists(a: seq<nat>, best: nat, size: nat) {
    exists x: nat, count: nat :: IsRun(a, x, count, size) && count * size == best
  }

  lemma WinnerIsRun(a: seq<nat>, t: seq<nat>, best0: nat, best: nat, begin: nat, end: nat, size: nat, req: nat)
    requires Winner(a, t, best0, best, begin, end, size, req) && RunExists(a, best0, size) && 0 < size
    ensures RunExists(a, best, size)
  {
    if best0 < best {
      var idx: seq<nat> :| EndToEnd(a, idx, begin, end, size) && Lists(t, idx, MATCHED);
      RangeIsRun(a, idx, begin, end, size);
    }
  }

  // More blocks do not break a run.
  lemma RunPersists(a: seq<nat>, a': seq<nat>, best: nat, size: nat)
    requires RunExists(a, best, size) && a <= a'
    ensures RunExists(a', best, size)
  {
    var x: nat, count: nat :| IsRun(a, x, count, size) && count * size == best;
    assert forall y :: y in a ==> y in a';
    assert IsRun(a', x, count, size);
  }

  lemma SettledBoundsRuns(a: seq<nat>, t: seq<nat>, best: nat, size: nat)
    requires Fits(a, size) && Settled(a, t, |t|, best, size)
    ensures LongestRun(a, best, size)
  {
    forall x: nat, count: nat | IsRun(a, x, count, size)
      ensures count * size <= best
    {
      if count == 0 {
        assert count * size == 0;
      } else {
        assert x + 0 * size in a;
        var j :| 0 <= j < |a| && a[j] == x;
        RunBelowTop(a, x, count, size);
        assert Extent(a, a[j], size) <= best;
      }
    }
  }
}
