/**
 The DMA segment descriptor and its life: blocks are requested from the kernel, assembled in
 place into one contiguous segment, and given back
 (platform/centec/centec-dal/dal_kernel.c, lines 877-1118).
 */
module DmaSegment {
  import opened Powers
  import opened DmaBlocks
  import opened DmaAssembly

  const PAGE_SIZE: nat := 4096

  // The kernel's page allocator, seen from outside: `replies` is what it will answer to the
  // requests to come (0, or no answer left, is a refusal), and the other fields record the traffic.
  class PageAllocator {
    var replies: seq<nat>
    var obtained: multiset<nat>
    var released: multiset<nat>
    var refusals: nat

    constructor (replies: seq<nat>)
      ensures this.replies == replies && obtained == released == multiset{} && refusals == 0
    {
      this.replies, obtained, released, refusals := replies, multiset{}, multiset{}, 0;
    }

    // `__get_free_pages`
    method GetFreePages() returns (addr: nat)
      modifies this
      ensures addr == Reply(old(replies)) && replies == Later(old(replies))
      ensures obtained == if addr == 0 then old(obtained) else old(obtained) + multiset{addr}
      ensures refusals == if addr == 0 then old(refusals) + 1 else old(refusals)
      ensures released == old(released)
    {
      addr := 0;
      if replies != [] {
        addr, replies := replies[0], replies[1..];
      }
      if addr == 0 {
        refusals := refusals + 1;
      } else {
        obtained := obtained + multiset{addr};
      }
    }

    // `free_pages`, which ignores the null address
    method FreePages(addr: nat)
      modifies this`released
      ensures released == if addr == 0 then old(released) else old(released) + multiset{addr}
    {
      if addr != 0 {
        released := released + multiset{addr};
      }
    }
  }

  // The blocks of a pool, without the empty slots.
  ghost function Blocks(a: seq<nat>): multiset<nat> {
    multiset(a)[0 := 0]
  }

  lemma StoreOne(a: seq<nat>, j: nat, x: nat)
    requires j < |a|
    ensures x == 0 ==> Blocks(a[j := x]) + (if a[j] == 0 then multiset{} else multiset{a[j]}) == Blocks(a)
    ensures a[j] == 0 ==> Blocks(a[j := x]) == Blocks(a) + (if x == 0 then multiset{} else multiset{x})
  {
    assert a == a[..j] + [a[j]] + a[j + 1..];
    assert a[j := x] == a[..j] + [x] + a[j + 1..];
  }

  // Storing a granted block in an empty slot keeps the books balanced.
  lemma BookGrant(before: multiset<nat>, a: seq<nat>, j: nat, x: nat)
    requires j < |a| && a[j] == 0 && x != 0
    ensures before + Blocks(a) + multiset{x} == before + Blocks(a[j := x])
  {
    StoreOne(a, j, x);
  }

  // Freeing a block and emptying its slot keeps the books balanced.
  lemma BookRelease(total: multiset<nat>, now: multiset<nat>, a: seq<nat>, j: nat)
    requires now + Blocks(a) == total && j < |a| && a[j] != 0
    ensures now + multiset{a[j]} + Blocks(a[j := 0]) == total
  {
    StoreOne(a, j, 0);
  }

  lemma Balance(obtained0: multiset<nat>, obtained: multiset<nat>, released0: multiset<nat>, released: multiset<nat>,
                all: multiset<nat>, kept: multiset<nat>)
    requires obtained == obtained0 + all && released + kept == released0 + all
    ensures obtained + released0 == obtained0 + released + kept
  {
    calc {
      obtained + released0;
      obtained0 + (released0 + all);
      obtained0 + released + kept;
    }
  }

  lemma NoBlocks(before: multiset<nat>)
    ensures before == before + Blocks([])
  {
    assert Blocks([]) == multiset{};
  }

  lemma BlocksNext(a: seq<nat>, i: nat)
    requires i < |a|
    ensures Blocks(a[..i + 1]) == if a[i] == 0 then Blocks(a[..i]) else Blocks(a[..i]) + multiset{a[i]}
  {
    assert a[..i + 1] == a[..i] + [a[i]];
  }

  lemma {:induction false} EmptySlots(a: seq<nat>, b: seq<nat>)
    requires forall j :: 0 <= j < |b| ==> b[j] == 0
    ensures Blocks(a + b) == Blocks(a)
  {
    if b == [] {
      assert a + b == a;
    } else {
      var c := b[..|b| - 1];
      EmptySlots(a, c);
      assert a + b == a + c + [0];
    }
  }

  // The answer to the next request, and the answers to the later ones.
  function Reply(replies: seq<nat>): nat {
    if replies == [] then 0 else replies[0]
  }

  function Later(replies: seq<nat>): seq<nat> {
    if replies == [] then [] else replies[1..]
  }

  ghost predicate Among(xs: seq<nat>, ys: seq<nat>) {
    forall x :: x in xs ==> x in ys
  }

  // The slots after `n` requests: the first refusal ends them and leaves the rest empty.
  ghost function Granted(replies: seq<nat>, n: nat): (r: seq<nat>)
    ensures |r| == n && forall j :: 0 <= j < n ==> r[j] == 0 || r[j] in replies
    decreases n
  {
    if n == 0 then []
    else if Reply(replies) == 0 then seq(n, _ => 0)
    else [replies[0]] + Granted(replies[1..], n - 1)
  }

  // The slots from `i` on are empty; once the replies have come the slots are `all`, and none of the
  // new ones is empty if `fine`.
  ghost predicate Awaits(i: nat, a: seq<nat>, t: seq<nat>, all: seq<nat>, replies: seq<nat>, fine: bool) {
    && i <= |a| == |t| == |all| && (forall j :: i <= j < |a| ==> a[j] == t[j] == 0)
    && all[..i] == a[..i] && all[i..] == Granted(replies, |a| - i) && (fine <==> NoneEmpty(all[i..]))
  }

  // One request fills the next slot, or leaves it and all later ones empty.
  lemma AwaitsNext(i: nat, a: seq<nat>, a': seq<nat>, t: seq<nat>, all: seq<nat>, replies: seq<nat>, fine: bool)
    requires Awaits(i, a, t, all, replies, fine) && i < |a| && a' == a[i := Reply(replies)]
    ensures if Reply(replies) != 0 then Awaits(i + 1, a', t, all, Later(replies), fine) else a' == all && !fine
  {
    if Reply(replies) == 0 {
      assert a' == a;
      AwaitsRefused(i, a, t, all, replies, fine);
    } else {
      AwaitsGranted(i, a, t, all, replies, fine);
    }
  }

  lemma AwaitsRefused(i: nat, a: seq<nat>, t: seq<nat>, all: seq<nat>, replies: seq<nat>, fine: bool)
    requires Awaits(i, a, t, all, replies, fine) && i < |a| && Reply(replies) == 0
    ensures a == all && !fine
  {
    var rest := all[i..];
    assert rest == seq(|a| - i, _ => 0) && rest[0] == 0;
    assert a[i..] == rest;
    assert all == all[..i] + rest && a == a[..i] + a[i..];
  }

  lemma AwaitsGranted(i: nat, a: seq<nat>, t: seq<nat>, all: seq<nat>, replies: seq<nat>, fine: bool)
    requires Awaits(i, a, t, all, replies, fine) && i < |a| && Reply(replies) != 0
    ensures Awaits(i + 1, a[i := Reply(replies)], t, all, Later(replies), fine)
  {
    var rest, later := all[i..], Granted(Later(replies), |a| - i - 1);
    assert rest == [replies[0]] + later;
    assert all[i + 1..] == rest[1..] == later && all[i] == rest[0];
    FirstFull(rest);
    OneSlotMore(i, a, all, replies[0]);
  }

  lemma FirstFull(rest: seq<nat>)
    requires rest != []
    ensures NoneEmpty(rest) <==> rest[0] != 0 && NoneEmpty(rest[1..])
  {
    assert rest == [rest[0]] + rest[1..];
  }

  lemma OneSlotMore(i: nat, a: seq<nat>, all: seq<nat>, x: nat)
    requires i < |a| == |all| && all[..i] == a[..i] && all[i] == x
    ensures all[..i + 1] == a[i := x][..i + 1]
  {
    assert all[..i + 1] == all[..i] + [x] && a[i := x][..i + 1] == a[..i] + [x];
  }

  // Right after the slots were added.
  lemma AwaitsAll(a: seq<nat>, a': seq<nat>, t': seq<nat>, replies: seq<nat>, n: nat)
    requires a <= a' && |a'| == |t'| == |a| + n && forall j :: |a| <= j < |a'| ==> a'[j] == t'[j] == 0
    ensures Awaits(|a|, a', t', a + Granted(replies, n), replies, NoneEmpty(Granted(replies, n)))
  {
    var all := a + Granted(replies, n);
    assert all[..|a|] == a == a'[..|a|] && all[|a|..] == Granted(replies, n);
  }

  lemma AwaitsNone(a: seq<nat>, t: seq<nat>, all: seq<nat>, replies: seq<nat>, fine: bool)
    requires Awaits(|a|, a, t, all, replies, fine)
    ensures a == all && fine
  {
    assert a[..|a|] == a && all[..|a|] == all;
  }

  class Segment {
    var reqSize: nat
    var blkSize: nat
    var blkOrder: nat
    var segSize: nat
    var segBegin: nat
    var segEnd: nat
    const blkPtr: array<nat>
    var blkCnt: nat

    constructor (reqSize: nat, blkSize: nat, blkCntMax: nat)
      ensures this.reqSize == reqSize && this.blkSize == blkSize
      ensures blkOrder == segSize == segBegin == segEnd == blkCnt == 0
      ensures fresh(blkPtr) && blkPtr.Length == blkCntMax
      ensures forall j :: 0 <= j < blkCntMax ==> blkPtr[j] == 0
    {
      this.reqSize, this.blkSize := reqSize, blkSize;
      blkOrder, segSize, segBegin, segEnd, blkCnt := 0, 0, 0, 0, 0;
      blkPtr := new nat[blkCntMax](_ => 0);
    }

    ghost predicate Valid()
      reads this
    {
      blkCnt <= blkPtr.Length
    }

    ghost function Pool(): seq<nat>
      requires Valid()
      reads this, blkPtr
    {
      blkPtr[..blkCnt]
    }

    // The first `blkCnt` slots hold the addresses `a` tagged with `t`.
    ghost predicate Holds(a: seq<nat>, t: seq<nat>)
      reads this, blkPtr
    {
      && |a| == |t| == blkCnt <= blkPtr.Length
      && (forall j :: 0 <= j < blkCnt ==> blkPtr[j] == a[j] + t[j] && t[j] < 4)
    }

    // The slots from `blkCnt` on are empty.
    ghost predicate Spare()
      reads this, blkPtr
    {
      forall j :: blkCnt <= j < blkPtr.Length ==> blkPtr[j] == 0
    }

    // ----- _dal_find_largest_segment -----

    // Clears all block tags.
    method ClearTags(ghost a: seq<nat>, ghost t: seq<nat>) returns (ghost t': seq<nat>)
      requires Aligned(a) && Holds(a, t) && Spare()
      modifies blkPtr
      ensures Holds(a, t') && Spare()
      ensures t' == seq(|t|, _ => UNTAGGED)
    {
      for i := 0 to blkCnt
        invariant forall j :: 0 <= j < i ==> blkPtr[j] == a[j]
        invariant forall j :: i <= j < blkCnt ==> blkPtr[j] == a[j] + t[j]
        invariant Spare()
      {
        AtWord(a, t, i);
        blkPtr[i] := Addr(blkPtr[i]);
      }
      t' := seq(|t|, _ => UNTAGGED);
    }

    // The body of a sweep: adds the block at `j` to the current range if it is untagged and
    // touches the range.
    method TryAbsorb(j: nat, begin0: nat, end0: nat, ghost a: seq<nat>, ghost t: seq<nat>)
      returns (begin: nat, end: nat, grown: bool)
      requires Aligned(a) && Holds(a, t) && Spare() && j < blkCnt && Fits(a, blkSize) && begin0 < end0 < WORD
      modifies blkPtr
      ensures grown <==> t[j] == UNTAGGED && (a[j] + blkSize == begin0 || a[j] == end0)
      ensures Holds(a, if grown then t[j := CURRENT] else t) && Spare()
      ensures begin == if grown && a[j] + blkSize == begin0 then a[j] else begin0
      ensures end == if grown && a[j] + blkSize != begin0 then end0 + blkSize else end0
    {
      begin, end, grown := begin0, end0, false;
      var word := blkPtr[j];
      AtWord(a, t, j);
      if Tag(word) == UNTAGGED {
        if word == Sub(begin, blkSize) {
          blkPtr[j] := MarkCurrent(word);
          begin, grown := word, true;
        } else if word == end {
          blkPtr[j] := MarkCurrent(word);
          end, grown := Add(end, blkSize), true;
        }
      }
    }

    // One sweep over the blocks after `i`, adding those that touch the current range.
    method Sweep(i: nat, begin0: nat, end0: nat, ghost a: seq<nat>, ghost t: seq<nat>, ghost idx0: seq<nat>)
      returns (begin: nat, end: nat, found: bool, ghost t': seq<nat>, ghost idx: seq<nat>)
      requires Aligned(a) && Holds(a, t) && Spare() && i < blkCnt && Fits(a, blkSize)
      requires Growing(a, t, idx0, begin0, end0, blkSize, reqSize)
      modifies blkPtr
      ensures Holds(a, t') && Spare() && Growing(a, t', idx, begin, end, blkSize, reqSize) && Grown(t, t', i + 1)
      ensures found ==> end0 - begin0 + blkSize <= end - begin
      ensures !found ==> begin == begin0 && end == end0
      ensures !found && end - begin < reqSize ==> Stable(a, t', i, blkCnt, begin, end, blkSize)
    {
      begin, end, found, t', idx := begin0, end0, false, t, idx0;
      var j := i + 1;
      while j < blkCnt && end - begin < reqSize
        invariant i < j <= blkCnt
        invariant Holds(a, t') && Spare() && Growing(a, t', idx, begin, end, blkSize, reqSize) && Grown(t, t', i + 1)
        invariant found ==> end0 - begin0 + blkSize <= end - begin
        invariant !found ==> begin == begin0 && end == end0 && Stable(a, t', i, j, begin, end, blkSize)
      {
        var grown;
        ghost var oldBegin, oldEnd := begin, end;
        begin, end, grown := TryAbsorb(j, begin, end, a, t');
        if grown {
          idx := Grow(a, t', idx, oldBegin, oldEnd, blkSize, reqSize, j, begin, end);
          GrownOnce(t, t', i + 1, j);
          found, t' := true, t'[j := CURRENT];
        } else if !found {
          StableOneMore(a, t', i, j, begin, end, blkSize);
        }
        j := j + 1;
      }
    }

    // Grows the range around the untagged block `i` until it is large enough or nothing touches it.
    method GrowAround(i: nat, ghost a: seq<nat>, ghost t: seq<nat>)
      returns (begin: nat, end: nat, ghost t': seq<nat>, ghost idx: seq<nat>)
      requires Aligned(a) && Holds(a, t) && Spare() && i < blkCnt && Fits(a, blkSize)
      requires t[i] == UNTAGGED && NoneTagged(t, CURRENT) && 0 < reqSize
      modifies blkPtr
      ensures Holds(a, t') && Spare() && Growing(a, t', idx, begin, end, blkSize, reqSize)
      ensures Grown(t, t', i) && t'[i] == CURRENT
      ensures end - begin < reqSize ==> Stable(a, t', i, blkCnt, begin, end, blkSize)
    {
      AtWord(a, t, i);
      begin := blkPtr[i];
      end := Add(begin, blkSize);
      blkPtr[i] := MarkCurrent(blkPtr[i]);
      t', idx := t[i := CURRENT], [i];
      var found := true;
      while found
        invariant Holds(a, t') && Spare() && Growing(a, t', idx, begin, end, blkSize, reqSize)
        invariant Grown(t, t', i) && t'[i] == CURRENT
        invariant !found && end - begin < reqSize ==> Stable(a, t', i, blkCnt, begin, end, blkSize)
        decreases reqSize + blkSize - (end - begin), found
      {
        ghost var mid := t';
        begin, end, found, t', idx := Sweep(i, begin, end, a, mid, idx);
        GrownMore(t, mid, t', i);
      }
    }

    // The current range is the longest so far: it becomes the segment, and the former one is dropped.
    method Promote(ghost a: seq<nat>, ghost t: seq<nat>) returns (ghost t': seq<nat>)
      requires Aligned(a) && Holds(a, t) && Spare()
      modifies blkPtr
      ensures Holds(a, t') && Spare() && Retagged(t, t', PromotedTag)
    {
      t' := t;
      for j := 0 to blkCnt
        invariant Holds(a, t') && Spare()
        invariant forall k :: 0 <= k < j ==> t'[k] == PromotedTag(t[k])
        invariant forall k :: j <= k < blkCnt ==> t'[k] == t[k]
      {
        AtWord(a, t', j);
        if Tag(blkPtr[j]) == CURRENT {
          blkPtr[j] := ClearLow(blkPtr[j]);
        } else if Tag(blkPtr[j]) == MATCHED {
          blkPtr[j] := FlipTag(blkPtr[j]);
        }
        t' := t'[j := PromotedTag(t[j])];
      }
    }

    // The current range is not longer than the segment: its blocks are dropped.
    method Drop(ghost a: seq<nat>, ghost t: seq<nat>) returns (ghost t': seq<nat>)
      requires Aligned(a) && Holds(a, t) && Spare()
      modifies blkPtr
      ensures Holds(a, t') && Spare() && Retagged(t, t', DroppedTag)
    {
      t' := t;
      for j := 0 to blkCnt
        invariant Holds(a, t') && Spare()
        invariant forall k :: 0 <= k < j ==> t'[k] == DroppedTag(t[k])
        invariant forall k :: j <= k < blkCnt ==> t'[k] == t[k]
      {
        AtWord(a, t', j);
        if Tag(blkPtr[j]) == CURRENT {
          blkPtr[j] := ClearHigh(blkPtr[j]);
        }
        t' := t'[j := DroppedTag(t[j])];
      }
    }

    // Grows the range around block `i`, and keeps it if it is the longest so far.
    method SettleOne(i: nat, ghost a: seq<nat>, ghost before: seq<nat>, ghost best0: nat) returns (ghost t: seq<nat>)
      requires Aligned(a) && Holds(a, before) && Spare() && Fits(a, blkSize)
      requires i < blkCnt && segSize < reqSize && before[i] == UNTAGGED
      requires Settled(a, before, i, segSize, blkSize)
      requires Winner(a, before, best0, segSize, segBegin, segEnd, blkSize, reqSize)
      modifies this`segSize, this`segBegin, this`segEnd, blkPtr
      ensures Holds(a, t) && Spare()
      ensures Winner(a, t, best0, segSize, segBegin, segEnd, blkSize, reqSize)
      ensures old(segSize) <= segSize
      ensures segSize == old(segSize) ==> segBegin == old(segBegin) && segEnd == old(segEnd)
      ensures segSize < reqSize ==> Settled(a, t, i + 1, segSize, blkSize)
    {
      ghost var idx;
      ghost var grown;
      var begin, end;
      begin, end, grown, idx := GrowAround(i, a, before);
      if end - begin > segSize {
        segBegin := begin;
        segEnd := end;
        segSize := end - begin;
        t := Promote(a, grown);
        PromoteWins(a, grown, t, idx, begin, end, best0, blkSize, reqSize);
      } else {
        t := Drop(a, grown);
        DropKeepsWinner(a, before, grown, t, i, best0, segSize, segBegin, segEnd, blkSize, reqSize);
      }
      if segSize < reqSize {
        Settle(a, before, grown, t, idx, i, begin, end, old(segSize), segSize, blkSize);
      }
    }

    // Finds the longest contiguous segment of the pool, or one of the requested size.  The blocks
    // tagged MATCHED tile the segment, unless no run beats the size found by an earlier scan.
    method FindLargest(ghost a: seq<nat>, ghost t0: seq<nat>) returns (ghost t: seq<nat>)
      requires Aligned(a) && Holds(a, t0) && Spare() && Fits(a, blkSize)
      modifies this`segSize, this`segBegin, this`segEnd, blkPtr
      ensures Holds(a, t) && Spare()
      ensures Winner(a, t, old(segSize), segSize, segBegin, segEnd, blkSize, reqSize)
      ensures segSize == old(segSize) ==> segBegin == old(segBegin) && segEnd == old(segEnd)
      ensures segSize < reqSize ==> LongestRun(a, segSize, blkSize)
      ensures RunExists(a, old(segSize), blkSize) ==> RunExists(a, segSize, blkSize)
    {
      t := ClearTags(a, t0);
      NothingSettled(a, t, segSize, segBegin, segEnd, blkSize, reqSize);
      var i := 0;
      while i < blkCnt && segSize < reqSize
        invariant i <= blkCnt
        invariant Holds(a, t) && Spare()
        invariant Winner(a, t, old(segSize), segSize, segBegin, segEnd, blkSize, reqSize)
        invariant segSize == old(segSize) ==> segBegin == old(segBegin) && segEnd == old(segEnd)
        invariant segSize < reqSize ==> Settled(a, t, i, segSize, blkSize)
      {
        AtWord(a, t, i);
        if Tag(blkPtr[i]) == UNTAGGED {
          t := SettleOne(i, a, t, old(segSize));
        } else {
          SettledAlready(a, t, i, segSize, blkSize);
        }
        i := i + 1;
      }
      if segSize < reqSize {
        SettledBoundsRuns(a, t, segSize, blkSize);
      }
      LeavesRun(a, t, old(segSize));
    }

    lemma LeavesRun(a: seq<nat>, t: seq<nat>, best0: nat)
      requires Winner(a, t, best0, segSize, segBegin, segEnd, blkSize, reqSize) && 0 < blkSize
      ensures RunExists(a, best0, blkSize) ==> RunExists(a, segSize, blkSize)
    {
      if RunExists(a, best0, blkSize) {
        WinnerIsRun(a, t, best0, segSize, segBegin, segEnd, blkSize, reqSize);
      }
    }

    // ----- _dal_alloc_dma_blocks -----

    // Asks the kernel for one block, to be stored in the empty slot `i`.
    method Request(k: PageAllocator, i: nat, ghost a: seq<nat>, ghost t: seq<nat>, ghost before: multiset<nat>)
      returns (ok: bool, ghost a': seq<nat>)
      requires Aligned(a) && Holds(a, t) && Spare() && Fits(a, blkSize) && GoodReplies(k.replies, blkSize)
      requires i < blkCnt && a[i] == t[i] == 0 && k.obtained == before + Blocks(a)
      modifies blkPtr, k
      ensures Aligned(a') && Holds(a', t) && Spare() && Fits(a', blkSize) && GoodReplies(k.replies, blkSize)
      ensures a' == a[i := Reply(old(k.replies))] && (ok <==> Reply(old(k.replies)) != 0)
      ensures k.replies == Later(old(k.replies))
      ensures k.obtained == before + Blocks(a') && k.released == old(k.released)
      ensures k.refusals == if ok then old(k.refusals) else old(k.refusals) + 1
    {
      var addr := k.GetFreePages();
      if addr == 0 {
        return false, a;
      }
      BookGrant(before, a, i, addr);
      blkPtr[i] := addr;
      return true, a[i := addr];
    }

    // The pool holds `a`, and the allocator's books say so: what was obtained is what was `before`
    // and the blocks of the pool.
    ghost predicate Booked(k: PageAllocator, a: seq<nat>, t: seq<nat>, before: multiset<nat>, replies: seq<nat>)
      reads this, blkPtr, k
    {
      && Aligned(a) && Holds(a, t) && Spare() && Fits(a, blkSize) && GoodReplies(k.replies, blkSize)
      && k.obtained == before + Blocks(a) && Among(k.replies, replies)
    }

    // The slots up to `i` are filled, and no request was refused.
    ghost predicate Midway(k: PageAllocator, i: nat, a: seq<nat>, t: seq<nat>, before: multiset<nat>,
                           replies: seq<nat>, all: seq<nat>, fine: bool, released: multiset<nat>, refusals: nat)
      reads this, blkPtr, k
    {
      && Booked(k, a, t, before, replies) && |a| == blkCnt && Awaits(i, a, t, all, k.replies, fine)
      && k.released == released && k.refusals == refusals
    }

    // Fills the next slot, or finds out that the slots stay as they are.
    method FillSlot(k: PageAllocator, i: nat, ghost a: seq<nat>, ghost t: seq<nat>, ghost before: multiset<nat>,
                    ghost replies: seq<nat>, ghost all: seq<nat>, ghost fine: bool, ghost released: multiset<nat>,
                    ghost refusals: nat)
      returns (ok: bool, ghost a': seq<nat>)
      requires Midway(k, i, a, t, before, replies, all, fine, released, refusals) && i < blkCnt
      modifies blkPtr, k
      ensures if ok then Midway(k, i + 1, a', t, before, replies, all, fine, released, refusals)
              else Booked(k, a', t, before, replies) && a' == all && !fine && k.released == released
                   && k.refusals == refusals + 1
    {
      ghost var now := k.replies;
      ok, a' := Request(k, i, a, t, before);
      AwaitsNext(i, a, a', t, all, now, fine);
    }

    // Fills the slots from `start` on, up to the first refusal.
    method FillSlots(k: PageAllocator, start: nat, ghost a: seq<nat>, ghost t: seq<nat>, ghost before: multiset<nat>,
                     ghost replies: seq<nat>, ghost all: seq<nat>, ghost fine: bool)
      returns (ok: bool, ghost a': seq<nat>)
      requires Booked(k, a, t, before, replies) && |a| == blkCnt && Awaits(start, a, t, all, k.replies, fine)
      modifies blkPtr, k
      ensures Booked(k, a', t, before, replies) && k.released == old(k.released)
      ensures a' == all && ok == fine && k.refusals == old(k.refusals) + if ok then 0 else 1
    {
      a', ok := a, true;
      var i := start;
      while i < blkCnt
        invariant ok && i <= blkCnt
        invariant Midway(k, i, a', t, before, replies, all, fine, old(k.released), old(k.refusals))
      {
        ok, a' := FillSlot(k, i, a', t, before, replies, all, fine, old(k.released), old(k.refusals));
        if !ok {
          return;
        }
        i := i + 1;
      }
      AwaitsNone(a', t, all, k.replies, fine);
    }

    // Asks the kernel for `blks` more blocks.  A refusal leaves the rest of the new slots empty.
    method AllocBlocks(k: PageAllocator, blks: nat, ghost a: seq<nat>, ghost t: seq<nat>, ghost before: multiset<nat>)
      returns (ok: bool, ghost a': seq<nat>, ghost t': seq<nat>)
      requires Aligned(a) && Holds(a, t) && Spare() && Fits(a, blkSize) && GoodReplies(k.replies, blkSize)
      requires k.obtained == before + Blocks(a)
      modifies this`blkCnt, blkPtr, k
      ensures Aligned(a') && Holds(a', t') && Spare() && Fits(a', blkSize) && GoodReplies(k.replies, blkSize)
      ensures k.obtained == before + Blocks(a') && k.released == old(k.released)
      ensures a' == if old(blkCnt) + blks <= blkPtr.Length then a + Granted(old(k.replies), blks) else a
      ensures ok <==> old(blkCnt) + blks <= blkPtr.Length && NoneEmpty(Granted(old(k.replies), blks))
      ensures t <= t' && forall j :: |t| <= j < |t'| ==> t'[j] == 0
      ensures k.refusals == old(k.refusals) + if ok || blkPtr.Length < old(blkCnt) + blks then 0 else 1
      ensures Among(k.replies, old(k.replies))
    {
      if blkCnt + blks > blkPtr.Length {
        return false, a, t;
      }
      var start := blkCnt;
      a', t' := AddSlots(blks, a, t);
      AwaitsAll(a, a', t', k.replies, blks);
      ok, a' := FillSlots(k, start, a', t', before, k.replies, a + Granted(k.replies, blks),
                          NoneEmpty(Granted(k.replies, blks)));
    }

    // Counts `blks` more slots in, all of them empty.
    method AddSlots(blks: nat, ghost a: seq<nat>, ghost t: seq<nat>) returns (ghost a': seq<nat>, ghost t': seq<nat>)
      requires Aligned(a) && Holds(a, t) && Spare() && Fits(a, blkSize) && blkCnt + blks <= blkPtr.Length
      modifies this`blkCnt
      ensures blkCnt == old(blkCnt) + blks
      ensures Aligned(a') && Holds(a', t') && Spare() && Fits(a', blkSize) && Blocks(a') == Blocks(a)
      ensures a <= a' && t <= t' && forall j :: |a| <= j < |a'| ==> a'[j] == t'[j] == 0
    {
      blkCnt := blkCnt + blks;
      ghost var empty := seq(blks, _ => 0);
      EmptySlots(a, empty);
      a', t' := a + empty, t + empty;
      assert IsAligned(0) by { assert 0 == 4 * 0; }
    }

    // ----- _dal_dma_segment_alloc -----

    // The request is met by blocks that tile the segment, if it is met at all.
    ghost predicate MetByTiles(a: seq<nat>, t: seq<nat>)
      reads this
    {
      reqSize <= segSize ==>
        Tiled(a, t, MATCHED, segBegin, segEnd, blkSize) && segEnd - segBegin == segSize < reqSize + blkSize
    }

    // What holds between the scans: the pool holds what was obtained.
    ghost predicate Between(k: PageAllocator, a: seq<nat>, t: seq<nat>, replies: seq<nat>, before: multiset<nat>)
      reads this, blkPtr, k
    {
      Booked(k, a, t, before, replies) && 0 < reqSize && forall x :: x in a ==> x == 0 || x in replies
    }

    // The loop goes on: all blocks are scanned or new, and none but the first can be missing.
    ghost predicate Going(a: seq<nat>, first: seq<nat>)
      reads this
    {
      segSize < reqSize && FirstThenFull(a, first) && RunExists(a, segSize, blkSize)
      && Needed(a, first, reqSize, blkSize)
    }

    // The loop is over: the last scan saw the first `seen` blocks.
    ghost predicate Stopped(a: seq<nat>, t: seq<nat>, seen: nat, first: seq<nat>, refused: bool)
      reads this
    {
      && seen <= |a| && RunExists(a[..seen], segSize, blkSize) && Needed(a, first, reqSize, blkSize)
      && TiledOrNone(a, t, segBegin, segEnd, blkSize)
      && (segSize < reqSize ==> LongestRun(a[..seen], segSize, blkSize))
      && (segSize < reqSize ==> (seen == |a| && blkPtr.Length < |a| + 8) || (seen + 8 == |a| && refused))
      && (reqSize <= segSize ==> seen == |a| && MetByTiles(a, t) && FirstThenFull(a, first))
    }

    // The first request was refused and left one empty slot, which the first scan takes for a block.
    ghost predicate Misled(a: seq<nat>, first: seq<nat>, done: bool)
      reads this
    {
      reqSize == blkSize && first == [0] ==>
        if done then segSize == blkSize && segBegin == 0 else a == first && segSize == 0
    }

    // One scan, and if it does not find enough, a request for eight more blocks.
    method ScanAndAsk(k: PageAllocator, ghost a0: seq<nat>, ghost t0: seq<nat>, ghost first: seq<nat>,
                      ghost replies: seq<nat>,
                      ghost before: multiset<nat>, ghost refusals: nat)
      returns (done: bool, ghost a: seq<nat>, ghost t: seq<nat>, ghost seen: nat)
      requires Between(k, a0, t0, replies, before) && Going(a0, first) && Misled(a0, first, false)
      requires refusals <= k.refusals && (k.refusals == refusals ==> NoneEmpty(a0))
      modifies this`blkCnt, this`segSize, this`segBegin, this`segEnd, blkPtr, k
      ensures Between(k, a, t, replies, before) && k.released == old(k.released)
      ensures old(blkCnt) <= blkCnt && (!done ==> old(blkCnt) < blkCnt)
      ensures refusals <= k.refusals && (k.refusals == refusals ==> NoneEmpty(a))
      ensures Misled(a, first, done)
      ensures if done then Stopped(a, t, seen, first, refusals < k.refusals) else Going(a, first)
    {
      seen := |a0|;
      t := FindLargest(a0, t0);
      a := a0;
      assert a[..seen] == a0;
      if old(segSize) == 0 && reqSize == blkSize && a0 == [0] {
        OneEmptySlot(a0, t, old(segSize), segSize, segBegin, segEnd, blkSize);
      }
      done := segSize >= reqSize;
      if !done {
        done, a, t := AskMore(k, a0, t, first, replies, before, refusals);
      }
    }

    // After a scan of the blocks `a0` that did not find enough: eight more, or the end.
    method AskMore(k: PageAllocator, ghost a0: seq<nat>, ghost t0: seq<nat>, ghost first: seq<nat>,
                   ghost replies: seq<nat>,
                   ghost before: multiset<nat>, ghost refusals: nat)
      returns (done: bool, ghost a: seq<nat>, ghost t: seq<nat>)
      requires Between(k, a0, t0, replies, before) && Going(a0, first) && LongestRun(a0, segSize, blkSize)
      requires TiledOrNone(a0, t0, segBegin, segEnd, blkSize)
      requires refusals <= k.refusals && (k.refusals == refusals ==> NoneEmpty(a0))
      modifies this`blkCnt, blkPtr, k
      ensures Between(k, a, t, replies, before) && k.released == old(k.released)
      ensures old(blkCnt) <= blkCnt && (!done ==> old(blkCnt) < blkCnt)
      ensures refusals <= k.refusals && (k.refusals == refusals ==> NoneEmpty(a))
      ensures if done then Stopped(a, t, |a0|, first, refusals < k.refusals) else Going(a, first)
    {
      var ok;
      ghost var now := k.replies;
      ok, a, t := AllocBlocks(k, 8, a0, t0, before);
      done := !ok;
      Asked(a0, t0, a, t, first, Granted(now, 8), ok, refusals < k.refusals);
    }

    // What the request for eight more blocks leaves.
    lemma Asked(a0: seq<nat>, t0: seq<nat>, a: seq<nat>, t: seq<nat>, first: seq<nat>, more: seq<nat>, ok: bool,
                refused: bool)
      requires Going(a0, first) && LongestRun(a0, segSize, blkSize) && TiledOrNone(a0, t0, segBegin, segEnd, blkSize)
      requires |more| == 8 && a == if |a0| + 8 <= blkPtr.Length then a0 + more else a0
      requires t0 <= t && forall j :: |t0| <= j < |t| ==> t[j] == 0
      requires ok <==> |a0| + 8 <= blkPtr.Length && NoneEmpty(more)
      requires !ok && |a0| + 8 <= blkPtr.Length ==> refused
      ensures if ok then Going(a, first) else Stopped(a, t, |a0|, first, refused)
    {
      assert a[..|a0|] == a0;
      NeededMore(a0, a, first, segSize, reqSize, blkSize);
      StillTiled(a0, t0, a, t, segBegin, segEnd, blkSize);
      if ok {
        RunPersists(a0, a, segSize, blkSize);
      }
    }

    // The minimum number of blocks; its outcome is not looked at.
    method AllocMinimum(k: PageAllocator) returns (ghost a: seq<nat>, ghost t: seq<nat>)
      requires blkCnt == 0 && segSize == 0 && 0 < reqSize && Spare()
      requires 0 < blkSize < WORD && GoodReplies(k.replies, blkSize)
      modifies this`blkCnt, blkPtr, k
      ensures Between(k, a, t, old(k.replies), old(k.obtained)) && k.released == old(k.released)
      ensures old(k.refusals) <= k.refusals && (k.refusals == old(k.refusals) ==> NoneEmpty(a))
      ensures a == First(old(k.replies), blkPtr.Length, reqSize, blkSize) && Going(a, a) && Misled(a, a, false)
    {
      NoBlocks(k.obtained);
      var ok;
      ok, a, t := AllocBlocks(k, reqSize / blkSize, [], [], k.obtained);
      FirstFacts(a, old(k.replies), blkPtr.Length, reqSize, blkSize);
    }

    // Allocates the minimum number of blocks, and more until there is a complete segment.
    method Assemble(k: PageAllocator) returns (ghost a: seq<nat>, ghost t: seq<nat>, ghost seen: nat)
      requires blkCnt == 0 && segSize == 0 && 0 < reqSize && Spare()
      requires 0 < blkSize < WORD && GoodReplies(k.replies, blkSize)
      modifies this`blkCnt, this`segSize, this`segBegin, this`segEnd, blkPtr, k
      ensures Aligned(a) && Holds(a, t)
      ensures k.released == old(k.released) && k.obtained == old(k.obtained) + Blocks(a)
      ensures k.refusals == old(k.refusals) ==> NoneEmpty(a)
      ensures Stopped(a, t, seen, First(old(k.replies), blkPtr.Length, reqSize, blkSize), old(k.refusals) < k.refusals)
      ensures forall x :: x in a ==> x == 0 || x in old(k.replies)
      ensures Misled(a, First(old(k.replies), blkPtr.Length, reqSize, blkSize), true)
    {
      ghost var first := First(k.replies, blkPtr.Length, reqSize, blkSize);
      a, t := AllocMinimum(k);
      seen := |a|;
      var done := false;
      while !done
        invariant Between(k, a, t, old(k.replies), old(k.obtained)) && k.released == old(k.released)
        invariant old(k.refusals) <= k.refusals && (k.refusals == old(k.refusals) ==> NoneEmpty(a))
        invariant Misled(a, first, done)
        invariant if done then Stopped(a, t, seen, first, old(k.refusals) < k.refusals) else Going(a, first)
        decreases blkPtr.Length - blkCnt, !done
      {
        done, a, t, seen := ScanAndAsk(k, a, t, first, old(k.replies), old(k.obtained), old(k.refusals));
      }
    }

    // Keeps the block in slot `i` if it is part of the segment, and gives it back otherwise.
    method ReleaseOne(k: PageAllocator, i: nat, ghost a: seq<nat>, ghost t: seq<nat>, ghost rest: seq<nat>,
                      ghost total: multiset<nat>)
      returns (ghost rest': seq<nat>)
      requires Aligned(a) && i < |a| == |t| == |rest| <= blkPtr.Length
      requires blkPtr[i] == a[i] + t[i] && t[i] < 4 && rest[i] == a[i] && k.released + Blocks(rest) == total
      modifies blkPtr, k`released
      ensures rest' == rest[i := if t[i] == MATCHED then a[i] else 0] && blkPtr[i] == rest'[i]
      ensures forall j :: 0 <= j < blkPtr.Length && j != i ==> blkPtr[j] == old(blkPtr[j])
      ensures k.released + Blocks(rest') == total
    {
      AtWord(a, t, i);
      rest' := rest;
      if Tag(blkPtr[i]) == MATCHED {
        blkPtr[i] := Addr(blkPtr[i]);
      } else if blkPtr[i] != 0 {
        blkPtr[i] := Addr(blkPtr[i]);
        k.FreePages(blkPtr[i]);
        blkPtr[i] := 0;
        if a[i] != 0 {
          BookRelease(total, old(k.released), rest, i);
          rest' := rest[i := 0];
        }
      }
    }

    // Keeps the blocks of the segment and gives all others back.
    method ReleaseUnused(k: PageAllocator, ghost a: seq<nat>, ghost t: seq<nat>)
      requires Aligned(a) && Holds(a, t)
      modifies blkPtr, k`released
      ensures Pool() == Kept(a, t)
      ensures k.released + Blocks(Pool()) == old(k.released) + Blocks(a)
    {
      ghost var rest, total := a, k.released + Blocks(a);
      for i := 0 to blkCnt
        invariant |rest| == blkCnt
        invariant forall j :: 0 <= j < i ==> blkPtr[j] == rest[j] == Kept(a, t)[j]
        invariant forall j :: i <= j < blkCnt ==> rest[j] == a[j] && blkPtr[j] == a[j] + t[j]
        invariant k.released + Blocks(rest) == total
      {
        rest := ReleaseOne(k, i, a, t, rest, total);
      }
      assert Pool() == rest == Kept(a, t);
    }

    // ----- _dal_dma_segment_free -----

    // Gives back every block the descriptor still holds.
    method Free(k: PageAllocator)
      requires Valid()
      modifies k`released
      ensures k.released == old(k.released) + Blocks(Pool())
    {
      ghost var pool := Pool();
      assert pool[..0] == [];
      for i := 0 to blkCnt
        invariant k.released == old(k.released) + Blocks(pool[..i])
      {
        if blkPtr[i] != 0 {
          k.FreePages(blkPtr[i]);
        }
        BlocksNext(pool, i);
      }
      assert pool[..blkCnt] == pool;
    }

    // The blocks held tile the segment from `segBegin` to `segEnd`.
    ghost predicate Assembled()
      requires Valid()
      reads this, blkPtr
    {
      segEnd - segBegin == segSize && HeldTogether(Pool(), segBegin, segEnd, blkSize)
    }
  }

  // What the first request for blocks leaves in the pool.
  ghost function First(replies: seq<nat>, capacity: nat, req: nat, size: nat): seq<nat>
    requires 0 < size
  {
    if req / size <= capacity then Granted(replies, req / size) else []
  }

  // The blocks of the last scan's segment are marked, or none is when it found no longer one.
  ghost predicate TiledOrNone(a: seq<nat>, t: seq<nat>, begin: nat, end: nat, size: nat) {
    NoneTagged(t, MATCHED) || Tiled(a, t, MATCHED, begin, end, size)
  }

  lemma StillTiled(a0: seq<nat>, t0: seq<nat>, a: seq<nat>, t: seq<nat>, begin: nat, end: nat, size: nat)
    requires TiledOrNone(a0, t0, begin, end, size) && a0 <= a && t0 <= t && forall j :: |t0| <= j < |t| ==> t[j] == 0
    ensures TiledOrNone(a, t, begin, end, size)
  {
    if Tiled(a0, t0, MATCHED, begin, end, size) {
      var idx: seq<nat> :| EndToEnd(a0, idx, begin, end, size) && Lists(t0, idx, MATCHED);
      StillEndToEnd(a0, a, idx, begin, end, size);
      assert Lists(t, idx, MATCHED);
    }
  }

  lemma {:induction false} StillEndToEnd(a0: seq<nat>, a: seq<nat>, idx: seq<nat>, begin: nat, end: nat, size: nat)
    requires EndToEnd(a0, idx, begin, end, size) && a0 <= a
    ensures EndToEnd(a, idx, begin, end, size)
  {
    if 1 < |idx| {
      StillEndToEnd(a0, a, idx[1..], begin + size, end, size);
    }
  }

  // What is kept lies in the segment.
  lemma KeptInside(a: seq<nat>, t: seq<nat>, begin: nat, end: nat, size: nat)
    requires |a| == |t| && TiledOrNone(a, t, begin, end, size)
    ensures forall j :: 0 <= j < |a| && Kept(a, t)[j] != 0 ==> begin <= Kept(a, t)[j] && Kept(a, t)[j] + size <= end
  {
    if Tiled(a, t, MATCHED, begin, end, size) {
      var idx: seq<nat> :| EndToEnd(a, idx, begin, end, size) && Lists(t, idx, MATCHED);
      forall j | 0 <= j < |a| && Kept(a, t)[j] != 0 ensures begin <= a[j] && a[j] + size <= end {
        var k :| 0 <= k < |idx| && idx[k] == j;
        BlockAt(a, idx, begin, end, size, k);
      }
    }
  }

  // No run of blocks is as long as the request.
  ghost predicate Lacking(a: seq<nat>, req: nat, size: nat) {
    forall x: nat, count: nat :: IsRun(a, x, count, size) ==> count * size < req
  }

  // The first request was made, and eight blocks more were asked for only when there was no run as
  // long as the request.
  ghost predicate Needed(a: seq<nat>, first: seq<nat>, req: nat, size: nat) {
    first <= a && (a == first || (|first| + 8 <= |a| && Lacking(a[..|a| - 8], req, size)))
  }

  lemma NeededMore(a0: seq<nat>, a: seq<nat>, first: seq<nat>, best: nat, req: nat, size: nat)
    requires Needed(a0, first, req, size) && LongestRun(a0, best, size) && best < req
    requires a == a0 || (a0 <= a && |a| == |a0| + 8)
    ensures Needed(a, first, req, size)
  {
    if a != a0 {
      assert a[..|a| - 8] == a0;
    }
  }

  // The first slots, and after them none that is empty.
  ghost predicate FirstThenFull(a: seq<nat>, first: seq<nat>) {
    first <= a && forall j :: |first| <= j < |a| ==> a[j] != 0
  }

  lemma FirstFacts(a: seq<nat>, replies: seq<nat>, capacity: nat, req: nat, size: nat)
    requires 0 < size && a == if req / size <= capacity then [] + Granted(replies, req / size) else []
    ensures a == First(replies, capacity, req, size) && FirstThenFull(a, a) && RunExists(a, 0, size)
    ensures forall x :: x in a ==> x == 0 || x in replies
  {
    assert [] + Granted(replies, req / size) == Granted(replies, req / size);
    NoRunNeeded(a, size);
  }

  lemma NoRunNeeded(a: seq<nat>, size: nat)
    ensures RunExists(a, 0, size)
  {
    assert IsRun(a, 0, 0, size) && 0 * size == 0;
  }

  // A scan of one empty slot takes it for a block at address 0.
  lemma OneEmptySlot(a: seq<nat>, t: seq<nat>, size0: nat, size: nat, begin: nat, end: nat, blk: nat)
    requires a == [0] && 0 < blk && size0 == 0 && Winner(a, t, size0, size, begin, end, blk, blk)
    requires size < blk ==> LongestRun(a, size, blk)
    ensures size == blk && begin == 0
  {
    assert IsRun(a, 0, 1, blk) by {
      assert 0 + 0 * blk in a;
    }
    assert 1 * blk == blk;
    var idx: seq<nat> :| EndToEnd(a, idx, begin, end, blk) && Lists(t, idx, MATCHED);
    RangeLength(a, idx, begin, end, blk);
    if 1 < |idx| {
      BlockAt(a, idx, begin, end, blk, 1);
    }
  }

  ghost predicate NoneEmpty(a: seq<nat>) {
    forall j :: 0 <= j < |a| ==> a[j] != 0
  }

  // `idx` lists the slots that are not empty.
  ghost predicate Occupied(pool: seq<nat>, idx: seq<nat>) {
    forall j :: 0 <= j < |pool| ==> (j in idx <==> pool[j] != 0)
  }

  // The blocks held lie end to end from `begin` to `end`.
  ghost predicate HeldTogether(pool: seq<nat>, begin: nat, end: nat, size: nat) {
    exists idx: seq<nat> :: EndToEnd(pool, idx, begin, end, size) && Occupied(pool, idx)
  }

  // The addresses tagged MATCHED; the other slots are empty.
  ghost function Kept(a: seq<nat>, t: seq<nat>): (r: seq<nat>)
    requires |a| == |t|
    ensures |r| == |a| && forall j :: 0 <= j < |a| ==> r[j] == if t[j] == MATCHED then a[j] else 0
  {
    seq(|a|, j requires 0 <= j < |a| => if t[j] == MATCHED then a[j] else 0)
  }

  // What the kernel promises of the pages it grants: they are aligned, and a block never reaches
  // the end of the address space.
  ghost predicate GoodReplies(replies: seq<nat>, size: nat) {
    forall j :: 0 <= j < |replies| ==> IsAligned(replies[j]) && replies[j] + size < WORD
  }

  // `PAGE_ALIGN`
  function PageAlign(x: nat): (r: nat)
    ensures x <= r < x + PAGE_SIZE && r % PAGE_SIZE == 0 && IsAligned(r)
  {
    var q := (x + PAGE_SIZE - 1) / PAGE_SIZE;
    assert q * PAGE_SIZE == 4 * (1024 * q);
    q * PAGE_SIZE
  }

  // The number of blocks that fit in memory.
  function Capacity(totalPages: nat, blkSize: nat): (c: nat)
    requires 0 < blkSize
    ensures c * blkSize <= totalPages * PAGE_SIZE < (c + 1) * blkSize
  {
    var c := totalPages * PAGE_SIZE / blkSize;
    QuotientBounds(totalPages * PAGE_SIZE, blkSize);
    c
  }

  lemma QuotientBounds(n: nat, d: nat)
    requires 0 < d
    ensures n / d * d <= n < (n / d + 1) * d
  {
    assert n == d * (n / d) + n % d;
  }

  // The number of pages to ask for at a time, as a power of two: the smallest that holds a block.
  method BlockOrder(blkSize: nat) returns (order: nat)
    ensures blkSize <= PAGE_SIZE * Pow2(order)
    ensures forall n :: 0 <= n < order ==> PAGE_SIZE * Pow2(n) < blkSize
  {
    order := 0;
    var bytes := PAGE_SIZE;
    while bytes < blkSize
      invariant bytes == PAGE_SIZE * Pow2(order)
      invariant forall n :: 0 <= n < order ==> PAGE_SIZE * Pow2(n) < blkSize
      decreases blkSize - bytes
    {
      bytes := 2 * bytes;
      order := order + 1;
    }
  }

  // The blocks kept tile the segment, unless an empty slot was taken for a block at address 0.
  lemma KeptTiles(a: seq<nat>, t: seq<nat>, begin: nat, end: nat, size: nat)
    requires |a| == |t| && Tiled(a, t, MATCHED, begin, end, size)
    ensures begin != 0 <==> HeldTogether(Kept(a, t), begin, end, size)
    ensures NoneEmpty(a) ==> begin != 0
  {
    var idx: seq<nat> :| EndToEnd(a, idx, begin, end, size) && Lists(t, idx, MATCHED);
    EndToEndKept(a, t, idx, begin, end, size);
    if begin != 0 {
      forall j | 0 <= j < |a|
        ensures j in idx <==> Kept(a, t)[j] != 0
      {
        if j in idx {
          var k :| 0 <= k < |idx| && idx[k] == j;
          BlockAt(a, idx, begin, end, size, k);
        }
      }
      assert Occupied(Kept(a, t), idx);
    }
  }

  lemma {:induction false} EndToEndKept(a: seq<nat>, t: seq<nat>, idx: seq<nat>, begin: nat, end: nat, size: nat)
    requires |a| == |t| && EndToEnd(a, idx, begin, end, size)
    requires forall k :: 0 <= k < |idx| ==> idx[k] < |t| && t[idx[k]] == MATCHED
    ensures EndToEnd(Kept(a, t), idx, begin, end, size)
  {
    if |idx| == 1 {
    } else {
      EndToEndKept(a, t, idx[1..], begin + size, end, size);
    }
  }

  // The request is for one block, there is room for one, and the kernel refuses it.
  ghost predicate FirstRefused(replies: seq<nat>, capacity: nat, req: nat, size: nat) {
    1 <= capacity && req == size && Reply(replies) == 0
  }

  // A segment at address 0 begins with an empty slot, which only the first request for blocks leaves
  // to a scan.
  lemma AtZero(a: seq<nat>, t: seq<nat>, end: nat, first: seq<nat>, size: nat)
    requires Tiled(a, t, MATCHED, 0, end, size) && FirstThenFull(a, first)
    ensures 0 in first
  {
    var idx: seq<nat> :| EndToEnd(a, idx, 0, end, size) && Lists(t, idx, MATCHED);
    assert a[idx[0]] == 0;
  }

  // It is one block long unless a block was granted right behind the empty slot.
  lemma OneBlockAtZero(a: seq<nat>, t: seq<nat>, end: nat, size: nat)
    requires Tiled(a, t, MATCHED, 0, end, size) && 0 < size && size !in a
    ensures end == size
  {
    var idx: seq<nat> :| EndToEnd(a, idx, 0, end, size) && Lists(t, idx, MATCHED);
    RangeLength(a, idx, 0, end, size);
    if 1 < |idx| {
      BlockAt(a, idx, 0, end, size, 1);
    }
  }

  lemma RefusedFirst(replies: seq<nat>, capacity: nat, req: nat, size: nat)
    requires 0 < size && 0 < req <= size && 0 in First(replies, capacity, req, size)
    ensures FirstRefused(replies, capacity, req, size)
  {
    AtMostOne(req, size);
    OneGranted(replies);
  }

  lemma AtMostOne(req: nat, size: nat)
    requires 0 < req <= size
    ensures req / size == if req == size then 1 else 0
  {
    var q := req / size;
    assert req == size * q + req % size;
    assert 2 <= q ==> size * 2 <= size * q;
  }

  lemma OneGranted(replies: seq<nat>)
    ensures Granted(replies, 1) == [Reply(replies)]
  {
    assert |Granted(replies, 1)| == 1;
  }

  lemma FirstIsEmpty(replies: seq<nat>, capacity: nat, req: nat, size: nat)
    requires 0 < size && FirstRefused(replies, capacity, req, size)
    ensures First(replies, capacity, req, size) == [0]
  {
    assert req / size == 1;
    OneGranted(replies);
  }

  // `_dal_dma_segment_alloc`: `descOk` and `poolOk` say whether the two `kmalloc` calls succeed,
  // and `totalPages` is the size of the memory.  The pool was `a`, of which the last scan saw the
  // first `seen` blocks.
  method SegmentAlloc(k: PageAllocator, size: nat, blkSize: nat, totalPages: nat, descOk: bool, poolOk: bool)
    returns (dseg: Segment?, ghost a: seq<nat>, ghost seen: nat)
    requires blkSize + PAGE_SIZE < WORD && GoodReplies(k.replies, PageAlign(blkSize))
    modifies k
    ensures dseg == null <==> size == 0 || blkSize == 0 || !descOk || !poolOk
    ensures dseg == null ==> k.obtained == old(k.obtained) && k.released == old(k.released)
    ensures dseg != null ==> fresh(dseg) && dseg.Valid() && dseg.reqSize == size && dseg.blkSize == PageAlign(blkSize)
    ensures dseg != null ==> k.obtained + old(k.released) == old(k.obtained) + k.released + Blocks(dseg.Pool())
    ensures dseg != null ==> k.obtained == old(k.obtained) + Blocks(a) && seen <= |a|
                             && RunExists(a[..seen], dseg.segSize, dseg.blkSize)
    ensures dseg != null && dseg.segSize < size ==> LongestRun(a[..seen], dseg.segSize, dseg.blkSize)
    ensures dseg != null ==>
              forall x :: x in dseg.Pool() && x != 0 ==> dseg.segBegin <= x && x + dseg.blkSize <= dseg.segEnd
    ensures dseg != null ==>
              Needed(a, First(old(k.replies), Capacity(totalPages, dseg.blkSize), size, dseg.blkSize), size,
                     dseg.blkSize)
    ensures dseg != null && dseg.segSize < size ==>
              || (seen == |a| && Capacity(totalPages, dseg.blkSize) < |a| + 8)
              || (seen + 8 == |a| && old(k.refusals) < k.refusals)
    ensures dseg != null && size <= dseg.segSize ==> seen == |a|
    ensures dseg != null && size <= dseg.segSize ==>
              dseg.segSize < size + dseg.blkSize && (dseg.Assembled() <==> dseg.segBegin != 0)
    ensures dseg != null && size <= dseg.segSize && dseg.segBegin == 0 ==>
              0 in First(old(k.replies), Capacity(totalPages, dseg.blkSize), size, dseg.blkSize)
    ensures dseg != null && PageAlign(blkSize) !in old(k.replies) ==>
              (size <= dseg.segSize && dseg.segBegin == 0
               <==> FirstRefused(old(k.replies), Capacity(totalPages, dseg.blkSize), size, dseg.blkSize))
    ensures dseg != null && size <= dseg.segSize && k.refusals == old(k.refusals) ==> dseg.segBegin != 0
  {
    a, seen := [], 0;
    if size == 0 || blkSize == 0 || !descOk {
      return null, a, seen;
    }
    var blk := PageAlign(blkSize);
    var order := BlockOrder(blk);
    if !poolOk {
      return null, a, seen;
    }
    dseg := new Segment(size, blk, Capacity(totalPages, blk));
    dseg.blkOrder := order;
    ghost var t;
    a, t, seen := dseg.Assemble(k);
    dseg.ReleaseUnused(k, a, t);
    Balance(old(k.obtained), k.obtained, old(k.released), k.released, Blocks(a), Blocks(dseg.Pool()));
    KeptInside(a, t, dseg.segBegin, dseg.segEnd, blk);
    if size <= dseg.segSize {
      KeptTiles(a, t, dseg.segBegin, dseg.segEnd, blk);
    }
    Outcome(a, t, old(k.replies), Capacity(totalPages, blk), size, blk, dseg.segSize, dseg.segBegin, dseg.segEnd);
  }

  // When a request is met at address 0, told from the inputs.
  lemma Outcome(a: seq<nat>, t: seq<nat>, replies: seq<nat>, capacity: nat, req: nat, blk: nat, size: nat, begin: nat,
                end: nat)
    requires 0 < blk && 0 < req && forall x :: x in a ==> x == 0 || x in replies
    requires req <= size ==> Tiled(a, t, MATCHED, begin, end, blk) && end - begin == size
    requires req <= size ==> FirstThenFull(a, First(replies, capacity, req, blk))
    requires req == blk && First(replies, capacity, req, blk) == [0] ==> size == blk && begin == 0
    ensures req <= size && begin == 0 ==> 0 in First(replies, capacity, req, blk)
    ensures blk !in replies ==> (req <= size && begin == 0 <==> FirstRefused(replies, capacity, req, blk))
  {
    if req <= size && begin == 0 {
      AtZero(a, t, end, First(replies, capacity, req, blk), blk);
      if blk !in replies {
        OneBlockAtZero(a, t, end, blk);
        RefusedFirst(replies, capacity, req, blk);
      }
    }
    if FirstRefused(replies, capacity, req, blk) {
      FirstIsEmpty(replies, capacity, req, blk);
    }
  }

  // One page is asked for and refused: the call reports a request met at address 0.
  method OnePageExample() returns (size: nat, begin: nat)
    ensures size == PAGE_SIZE && begin == 0
  {
    var k := new PageAllocator([]);
    var d, a, seen := SegmentAlloc(k, PAGE_SIZE, PAGE_SIZE, 1, true, true);
    assert PageAlign(PAGE_SIZE) == PAGE_SIZE && Capacity(1, PAGE_SIZE) == 1;
    assert FirstRefused([], 1, PAGE_SIZE, PAGE_SIZE);
    size, begin := d.segSize, d.segBegin;
  }

  // Over the life of a segment every block obtained from the kernel is given back exactly once,
  // whether or not the segment could be assembled and whether or not requests were refused.
  method SegmentLife(k: PageAllocator, size: nat, blkSize: nat, totalPages: nat, descOk: bool, poolOk: bool)
    requires blkSize + PAGE_SIZE < WORD && GoodReplies(k.replies, PageAlign(blkSize))
    modifies k
    ensures k.obtained + old(k.released) == old(k.obtained) + k.released
  {
    var dseg, a, seen := SegmentAlloc(k, size, blkSize, totalPages, descOk, poolOk);
    if dseg != null {
      dseg.Free(k);
    }
  }
}
