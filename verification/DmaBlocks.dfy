/**
 The vocabulary of the DMA block pool: a pool is a sequence of machine words, each the address
 of one block with a two-bit tag in its low bits.  A scan never changes the addresses `a` of a
 pool, only its tags `t`, so the definitions below take the two apart.
 */
module DmaBlocks {

  // One past the largest `unsigned long`.
  const WORD: nat := 0x1_0000_0000_0000_0000

  // The tags kept in the two low bits of a block word.
  const UNTAGGED: nat := 0
  const DISCARDED: nat := 1
  const MATCHED: nat := 2
  const CURRENT: nat := 3

  function Tag(w: nat): nat { w % 4 }

  // `w & ~3`
  function Addr(w: nat): nat { w - w % 4 }

  // `w | 3`
  function MarkCurrent(w: nat): nat { Addr(w) + 3 }

  // `w & ~1`
  function ClearLow(w: nat): nat { Addr(w) + Tag(w) - Tag(w) % 2 }

  // `w & ~2`
  function ClearHigh(w: nat): nat { Addr(w) + Tag(w) % 2 }

  // `w ^ 3`
  function FlipTag(w: nat): nat { Addr(w) + 3 - Tag(w) }

  // Unsigned subtraction and addition, which wrap.
  function Sub(x: nat, y: nat): nat
    requires x < WORD && y < WORD
  {
    if y <= x then x - y else x + WORD - y
  }

  function Add(x: nat, y: nat): nat
    requires x < WORD && y < WORD
  {
    if x + y < WORD then x + y else x + y - WORD
  }

  // No block of `size` bytes reaches the end of the address space.
  ghost predicate Fits(a: seq<nat>, size: nat) {
    0 < size < WORD && forall j :: 0 <= j < |a| ==> a[j] + size < WORD
  }

  // `count` blocks lie end to end from address `x` on.
  ghost predicate IsRun(a: seq<nat>, x: nat, count: nat, size: nat) {
    forall k :: 0 <= k < count ==> x + k * size in a
  }

  // The first address at or above `x`, in steps of `size`, where no block starts.
  ghost function Top(a: seq<nat>, x: nat, size: nat): (r: nat)
    requires Fits(a, size)
    ensures x <= r
    decreases WORD - x
  {
    if x in a then Top(a, x + size, size) else x
  }

  // The lowest address from which blocks lie end to end up to `x`.
  ghost function Bottom(a: seq<nat>, x: nat, size: nat): (r: nat)
    requires Fits(a, size)
    ensures r <= x
    decreases x
  {
    if size <= x && x - size in a then Bottom(a, x - size, size) else x
  }

  // The length in bytes of the maximal run around `x`.
  ghost function Extent(a: seq<nat>, x: nat, size: nat): nat
    requires Fits(a, size)
  {
    Top(a, x, size) - Bottom(a, x, size)
  }

  lemma {:induction false} RunBelowTop(a: seq<nat>, x: nat, count: nat, size: nat)
    requires Fits(a, size) && IsRun(a, x, count, size)
    ensures x + count * size <= Top(a, x, size)
    decreases count
  {
    if count == 0 {
    } else {
      assert x + 0 * size in a;
      forall k | 0 <= k < count - 1
        ensures x + size + k * size in a
      {
        assert x + (k + 1) * size in a;
        assert (k + 1) * size == k * size + size;
      }
      RunBelowTop(a, x + size, count - 1, size);
      assert (count - 1) * size + size == count * size;
    }
  }

  // The blocks at indexes `idx` lie end to end, in this order, from `begin` to `end`.
  ghost predicate EndToEnd(a: seq<nat>, idx: seq<nat>, begin: nat, end: nat, size: nat) {
    && 0 < |idx|
    && idx[0] < |a|
    && a[idx[0]] == begin
    && if |idx| == 1 then begin + size == end else EndToEnd(a, idx[1..], begin + size, end, size)
  }

  // `idx` lists all the blocks with tag `tag`, and no other.
  ghost predicate Lists(t: seq<nat>, idx: seq<nat>, tag: nat) {
    && (forall k :: 0 <= k < |idx| ==> idx[k] < |t| && t[idx[k]] == tag)
    && (forall j :: 0 <= j < |t| && t[j] == tag ==> j in idx)
  }

  // The blocks tagged `tag` tile the range from `begin` to `end` without gap or overlap.
  ghost predicate Tiled(a: seq<nat>, t: seq<nat>, tag: nat, begin: nat, end: nat, size: nat) {
    exists idx: seq<nat> :: EndToEnd(a, idx, begin, end, size) && Lists(t, idx, tag)
  }

  ghost predicate NoneTagged(t: seq<nat>, tag: nat) {
    forall j :: 0 <= j < |t| ==> t[j] != tag
  }

  lemma {:induction false} BlockAt(a: seq<nat>, idx: seq<nat>, begin: nat, end: nat, size: nat, k: nat)
    requires EndToEnd(a, idx, begin, end, size) && k < |idx|
    ensures idx[k] < |a| && a[idx[k]] == begin + k * size
    ensures begin <= a[idx[k]] <= end - size
  {
    if |idx| == 1 {
    } else if k == 0 {
      BlockAt(a, idx[1..], begin + size, end, size, 0);
    } else {
      BlockAt(a, idx[1..], begin + size, end, size, k - 1);
      assert (k - 1) * size + size == k * size;
    }
  }

  // An end-to-end range is a run.
  lemma RangeIsRun(a: seq<nat>, idx: seq<nat>, begin: nat, end: nat, size: nat)
    requires EndToEnd(a, idx, begin, end, size) && 0 < size
    ensures IsRun(a, begin, |idx|, size) && |idx| * size == end - begin
  {
    RangeLength(a, idx, begin, end, size);
    forall k | 0 <= k < |idx|
      ensures begin + k * size in a
    {
      BlockAt(a, idx, begin, end, size, k);
    }
  }

  // An end-to-end range is as long as its blocks together, and holds no block twice.
  lemma RangeLength(a: seq<nat>, idx: seq<nat>, begin: nat, end: nat, size: nat)
    requires EndToEnd(a, idx, begin, end, size) && 0 < size
    ensures end - begin == |idx| * size
    ensures forall k, l :: 0 <= k < l < |idx| ==> idx[k] != idx[l]
  {
    LastBlock(a, idx, begin, end, size);
    BlockAt(a, idx, begin, end, size, |idx| - 1);
    assert (|idx| - 1) * size + size == |idx| * size;
    forall k, l | 0 <= k < l < |idx|
      ensures idx[k] != idx[l]
    {
      BlockAt(a, idx, begin, end, size, k);
      BlockAt(a, idx, begin, end, size, l);
      assert (l - k) * size == l * size - k * size;
    }
  }

  lemma {:induction false} LastBlock(a: seq<nat>, idx: seq<nat>, begin: nat, end: nat, size: nat)
    requires EndToEnd(a, idx, begin, end, size)
    ensures idx[|idx| - 1] < |a| && a[idx[|idx| - 1]] + size == end
  {
    if |idx| == 1 {
    } else {
      LastBlock(a, idx[1..], begin + size, end, size);
    }
  }

  // All blocks of an end-to-end range, and the two ends, lie in one maximal run.
  lemma {:induction false} OneExtent(a: seq<nat>, idx: seq<nat>, begin: nat, end: nat, size: nat)
    requires Fits(a, size) && EndToEnd(a, idx, begin, end, size)
    ensures forall k :: 0 <= k < |idx| ==> idx[k] < |a| && Extent(a, a[idx[k]], size) == Extent(a, begin, size)
    ensures Bottom(a, end, size) == Bottom(a, begin, size)
    ensures Top(a, begin, size) == Top(a, end, size)
  {
    assert a[idx[0]] in a;
    if |idx| == 1 {
    } else {
      var rest := idx[1..];
      OneExtent(a, rest, begin + size, end, size);
      forall k | 0 <= k < |idx|
        ensures idx[k] < |a| && Extent(a, a[idx[k]], size) == Extent(a, begin, size)
      {
        if k > 0 {
          assert rest[k - 1] == idx[k];
        }
      }
    }
  }
}
