/**
 The pool's linked list in memory: nodes inserted and unlinked in place by pointer-walking loops
 (platform/centec/centec-dal/dal_mpool.c, lines 45-273 and 306-324). Each method is tied to the
 list of cells it leaves. Whether memory for a node is available is a parameter.
 */
module MpoolList {
  import opened MpoolCells

  class MemCell {
    var address: int
    var size: int
    var kind: int
    var next: MemCell?

    constructor (address: int, size: int, kind: int, next: MemCell?)
      ensures this.address == address && this.size == size && this.kind == kind && this.next == next
    {
      this.address, this.size, this.kind, this.next := address, size, kind, next;
    }
  }

  // The node at position i of the spine, or null at its end.
  ghost function NodeAt(spine: seq<MemCell>, i: nat): MemCell? {
    if i < |spine| then spine[i] else null
  }

  ghost predicate Shows(n: MemCell, c: Cell)
    reads n
  {
    n.address == c.address && n.size == c.size && n.kind == c.kind
  }

  ghost predicate Distinct(spine: seq<MemCell>) {
    forall i, j :: 0 <= i < j < |spine| ==> spine[i] != spine[j]
  }

  // The list from `head` runs through the nodes of the spine, which hold the cells.
  ghost predicate Holds(head: MemCell?, spine: seq<MemCell>, cells: seq<Cell>)
    reads spine
  {
    && |spine| == |cells|
    && head == NodeAt(spine, 0)
    && Distinct(spine)
    && (forall i :: 0 <= i < |spine| ==> Shows(spine[i], cells[i]))
    && (forall i :: 0 <= i < |spine| ==> spine[i].next == NodeAt(spine, i + 1))
  }

  // `_dal_mpool_create`.
  method CreateList(base: int, size: int, kind: int, headMemory: bool, tailMemory: bool, tailKind: int)
    returns (head: MemCell?, ghost spine: seq<MemCell>)
    ensures head != null <==> headMemory && tailMemory
    ensures head != null ==> Holds(head, spine, Fresh(base, size, kind, tailKind))
    ensures forall n <- spine :: fresh(n)
  {
    if !headMemory || !tailMemory {
      return null, [];
    }
    var tail := new MemCell(base + size, 0, tailKind, null);
    var h := new MemCell(base, 0, kind, tail);
    head, spine := h, [h, tail];
  }

  // `_dal_mpool_alloc_comon`: the new node shows the block granted.
  method AllocCommon(head: MemCell?, size: int, kind: int, memory: bool, ghost spine: seq<MemCell>,
                     ghost cells: seq<Cell>)
    returns (block: MemCell?, ghost spine': seq<MemCell>)
    requires Holds(head, spine, cells)
    modifies spine
    ensures block != null <==> memory && HasRoom(cells, size)
    ensures Holds(head, spine', if memory then Alloc(cells, size, kind) else cells)
    ensures block != null ==> block.address == Place(cells, size)
    ensures forall n <- spine' :: n in spine || fresh(n)
  {
    var ptr := head;
    ghost var i := 0;
    while ptr != null && ptr.next != null
      invariant ptr == NodeAt(spine, i)
      invariant FitFrom(cells, size, 0) == FitFrom(cells, size, i)
      decreases |spine| - i
    {
      if size <= ptr.next.address - (ptr.address + ptr.size) {
        break;
      }
      ptr := ptr.next;
      i := i + 1;
    }
    if ptr == null || ptr.next == null || !memory {
      return null, spine;
    }
    assert FitFrom(cells, size, 0) == i;
    block, spine' := LinkAfter(head, ptr, size, kind, spine, cells, i);
  }

  method LinkAfter(ghost head: MemCell?, ptr: MemCell, size: int, kind: int, ghost spine: seq<MemCell>,
                   ghost cells: seq<Cell>, ghost i: nat)
    returns (n: MemCell, ghost spine': seq<MemCell>)
    requires Holds(head, spine, cells) && i < |spine| && ptr == spine[i]
    modifies ptr
    ensures Holds(head, spine', Insert(cells, i, Cell(cells[i].End(), size, kind)))
    ensures n.address == cells[i].End()
    ensures forall m <- spine' :: m in spine || fresh(m)
  {
    n := new MemCell(ptr.address + ptr.size, size, kind, ptr.next);
    ptr.next := n;
    spine' := spine[..i + 1] + [n] + spine[i + 1..];
    DistinctWith(spine, i, n);
    LinkedIn(head, spine, cells, i, n, Cell(cells[i].End(), size, kind), spine');
  }

  // What the two pointer writes of an insertion leave.
  lemma LinkedIn(head: MemCell?, spine: seq<MemCell>, cells: seq<Cell>, i: nat, n: MemCell, c: Cell,
                 spine': seq<MemCell>)
    requires |spine| == |cells| && head == NodeAt(spine, 0) && i < |cells|
    requires forall a :: 0 <= a < |spine| ==> Shows(spine[a], cells[a])
    requires forall a :: 0 <= a < |spine| ==> spine[a].next == if a == i then n else NodeAt(spine, a + 1)
    requires Shows(n, c) && n.next == NodeAt(spine, i + 1)
    requires spine' == spine[..i + 1] + [n] + spine[i + 1..] && Distinct(spine')
    ensures Holds(head, spine', Insert(cells, i, c))
  {
    assert forall a :: 0 <= a <= i ==> spine'[a] == spine[a];
    assert spine'[i + 1] == n;
    assert forall a :: i + 1 < a < |spine'| ==> spine'[a] == spine[a - 1];
  }

  lemma DistinctWith(spine: seq<MemCell>, i: nat, n: MemCell)
    requires Distinct(spine) && n !in spine && i < |spine|
    ensures Distinct(spine[..i + 1] + [n] + spine[i + 1..])
  {
  }

  // `_dal_mpool_free`: unlinks the node, if any, at the address.
  method FreeCell(head: MemCell?, address: int, ghost spine: seq<MemCell>, ghost cells: seq<Cell>)
    returns (ghost spine': seq<MemCell>)
    requires Holds(head, spine, cells)
    modifies spine
    ensures Holds(head, spine', Free(cells, address))
    ensures forall n <- spine' :: n in spine
  {
    var ptr := head;
    ghost var i := 0;
    while ptr != null && ptr.next != null
      invariant ptr == NodeAt(spine, i)
      invariant FindFrom(cells, address, 0) == FindFrom(cells, address, i)
      decreases |spine| - i
    {
      if ptr.next.address == address {
        break;
      }
      ptr := ptr.next;
      i := i + 1;
    }
    if ptr != null && ptr.next != null {
      assert FindFrom(cells, address, 0) == i + 1;
      var prev := ptr;
      ptr := ptr.next;
      prev.next := ptr.next;
      spine' := spine[..i + 1] + spine[i + 2..];
      DistinctWithout(spine, i);
      LinkedOut(head, spine, cells, i, spine');
    } else {
      spine' := spine;
    }
  }

  lemma LinkedOut(head: MemCell?, spine: seq<MemCell>, cells: seq<Cell>, i: nat, spine': seq<MemCell>)
    requires |spine| == |cells| && head == NodeAt(spine, 0) && i + 1 < |cells|
    requires forall a :: 0 <= a < |spine| ==> Shows(spine[a], cells[a])
    requires forall a :: 0 <= a < |spine| ==> spine[a].next == NodeAt(spine, if a == i then a + 2 else a + 1)
    requires spine' == spine[..i + 1] + spine[i + 2..] && Distinct(spine')
    ensures Holds(head, spine', Delete(cells, i + 1))
  {
    assert forall a :: 0 <= a <= i ==> spine'[a] == spine[a];
    assert forall a :: i < a < |spine'| ==> spine'[a] == spine[a + 1];
  }

  lemma DistinctWithout(spine: seq<MemCell>, i: nat)
    requires Distinct(spine) && i + 1 < |spine|
    ensures Distinct(spine[..i + 1] + spine[i + 2..])
  {
  }

  // `dal_mpool_usage`.
  method Usage(head: MemCell?, kind: int, ghost spine: seq<MemCell>, ghost cells: seq<Cell>) returns (usage: int)
    requires Holds(head, spine, cells)
    ensures usage == UsedBy(cells, kind)
  {
    usage := 0;
    var ptr := head;
    ghost var i := 0;
    while ptr != null
      invariant i <= |spine| && ptr == NodeAt(spine, i) && usage == UsedBy(cells[..i], kind)
      decreases |spine| - i
    {
      assert cells[..i + 1][..i] == cells[..i];
      if ptr.kind == kind || ptr.kind == -1 {
        usage := usage + ptr.size;
      }
      ptr := ptr.next;
      i := i + 1;
    }
    assert cells[..i] == cells;
  }

  // The whole cache lines inside the memory given.
  method AlignMemory(base: int, size: int) returns (start: int, room: int)
    ensures start == PoolBase(base) && room == PoolSize(base, size)
  {
    var mod := base % CACHE_LINE;
    start, room := base, size;
    if mod != 0 {
      start := base + (CACHE_LINE - mod);
      room := size - (CACHE_LINE - mod);
    }
    room := room - room % CACHE_LINE;
  }

  /**
   The pools of one chip. The descriptor and data lists are the chip's own; the common list is the
   handle `Create` returns.
   */
  class Chip {
    var descPool: MemCell?
    var dataPool: MemCell?

    // The list that serves a type.
    function ListFor(pool: MemCell?, kind: int): MemCell?
      reads this
    {
      if kind == DESC then descPool else if kind == DATA then dataPool else pool
    }

    // `dal_mpool_create`: three lists over the aligned memory, or null when any of the six node
    // allocations fails.
    method Create(base: int, size: int, memory: nat -> bool, tailKind: int)
      returns (head: MemCell?, ghost common: seq<MemCell>, ghost desc: seq<MemCell>, ghost data: seq<MemCell>)
      modifies this
      ensures head != null <==> forall k :: 0 <= k < 6 ==> memory(k)
      ensures head != null ==>
                && Holds(head, common, Fresh(PoolBase(base), PoolSize(base, size), USELESS, tailKind))
                && Holds(descPool, desc, DescAfter(base, tailKind, []))
                && Holds(dataPool, data, DataAfter(base, size, tailKind, []))
    {
      var start, room := AlignMemory(base, size);
      head, common := CreateList(start, room, USELESS, memory(0), memory(1), tailKind);
      desc, data := [], [];
      if head == null {
        return;
      }
      descPool, desc := CreateList(start, DESC_SIZE, DESC, memory(2), memory(3), tailKind);
      if descPool == null {
        head := null;
        return;
      }
      dataPool, data := CreateList(start + DESC_SIZE, room - DESC_SIZE, DATA, memory(4), memory(5), tailKind);
      if dataPool == null {
        head := null;
      }
    }

    // `dal_mpool_alloc`: the request goes to the list of its type; other types are refused.
    method Alloc(pool: MemCell?, size: int, kind: int, memory: bool, ghost spine: seq<MemCell>, ghost cells: seq<Cell>)
      returns (address: int, ok: bool, ghost spine': seq<MemCell>)
      requires Holds(ListFor(pool, kind), spine, cells)
      modifies spine
      ensures ok <==> kind in {USELESS, DESC, DATA} && memory && HasRoom(cells, RoundUp(size))
      ensures ok ==> address == Place(cells, RoundUp(size))
      ensures kind in {USELESS, DESC, DATA} ==>
                Holds(ListFor(pool, kind), spine', Serve(cells, kind, Get(size, memory)))
    {
      var mod := size % CACHE_LINE;
      var rounded := if mod != 0 then size + (CACHE_LINE - mod) else size;
      assert rounded == RoundUp(size);
      var block: MemCell?;
      if kind == USELESS {
        block, spine' := AllocCommon(pool, rounded, kind, memory, spine, cells);
      } else if kind == DESC {
        block, spine' := AllocCommon(descPool, rounded, kind, memory, spine, cells);
      } else if kind == DATA {
        block, spine' := AllocCommon(dataPool, rounded, kind, memory, spine, cells);
      } else {
        return 0, false, spine;
      }
      if block == null {
        return 0, false, spine';
      }
      return block.address, true, spine';
    }

    // `dal_mpool_free`: the list is chosen by the type of the handle's own head node, so the handle
    // `Create` returns, of type USELESS, frees from the common list only.
    method Free(pool: MemCell, address: int, ghost spine: seq<MemCell>, ghost cells: seq<Cell>)
      returns (ghost spine': seq<MemCell>)
      requires Holds(ListFor(pool, pool.kind), spine, cells)
      modifies spine
      ensures old(pool.kind) in {USELESS, DESC, DATA} ==>
                Holds(ListFor(pool, old(pool.kind)), spine', Serve(cells, old(pool.kind), Put(address)))
      ensures old(pool.kind) !in {USELESS, DESC, DATA} ==>
                Holds(ListFor(pool, old(pool.kind)), spine, cells)
    {
      var kind := pool.kind;
      if kind == USELESS {
        spine' := FreeCell(pool, address, spine, cells);
      } else if kind == DESC {
        spine' := FreeCell(descPool, address, spine, cells);
      } else if kind == DATA {
        spine' := FreeCell(dataPool, address, spine, cells);
      } else {
        spine' := spine;
      }
    }
  }
}
