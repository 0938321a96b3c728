/**
 The first-fit memory pool as a list of cells: a head sentinel at the start of the arena, the
 blocks in use, and a tail sentinel at its end
 (platform/centec/centec-dal/dal_mpool.c, lines 45-244 and 306-324).
 */
module MpoolCells {

  const CACHE_LINE: int := 256

  datatype Cell = Cell(address: int, size: int, kind: int) {
    function End(): int {
      address + size
    }
  }

  // The room between two neighbours of the list.
  function Gap(c: Cell, d: Cell): int {
    d.address - c.End()
  }

  // Rounds a size up to whole cache lines.
  function RoundUp(size: int): (r: int)
    ensures r % CACHE_LINE == 0 && size <= r < size + CACHE_LINE
  {
    if size % CACHE_LINE == 0 then size else size + (CACHE_LINE - size % CACHE_LINE)
  }

  // The sentinels of a fresh list.
  function Fresh(base: int, size: int, kind: int, tailKind: int): seq<Cell> {
    [Cell(base, 0, kind), Cell(base + size, 0, tailKind)]
  }

  // The first cell from `i` on that has enough room behind it, or the end of the list.
  function FitFrom(cells: seq<Cell>, size: int, i: nat): (r: nat)
    ensures i <= r
    ensures forall j :: i <= j < r && j + 1 < |cells| ==> Gap(cells[j], cells[j + 1]) < size
    ensures r + 1 < |cells| ==> size <= Gap(cells[r], cells[r + 1])
    decreases |cells| - i
  {
    if i + 1 >= |cells| || size <= Gap(cells[i], cells[i + 1]) then i else FitFrom(cells, size, i + 1)
  }

  // Whether some gap is large enough.
  predicate HasRoom(cells: seq<Cell>, size: int) {
    FitFrom(cells, size, 0) + 1 < |cells|
  }

  // Where a request with enough room is placed.
  function Place(cells: seq<Cell>, size: int): int
    requires HasRoom(cells, size)
  {
    cells[FitFrom(cells, size, 0)].End()
  }

  function Insert(cells: seq<Cell>, i: nat, c: Cell): (r: seq<Cell>)
    requires i < |cells|
    ensures |r| == |cells| + 1 && r[i + 1] == c
    ensures forall j :: 0 <= j <= i ==> r[j] == cells[j]
    ensures forall j :: i + 1 < j < |r| ==> r[j] == cells[j - 1]
  {
    cells[..i + 1] + [c] + cells[i + 1..]
  }

  // `_dal_mpool_alloc_comon`: the list after the request, unchanged if there is no room.
  function Alloc(cells: seq<Cell>, size: int, kind: int): seq<Cell> {
    var i := FitFrom(cells, size, 0);
    if i + 1 < |cells| then Insert(cells, i, Cell(cells[i].End(), size, kind)) else cells
  }

  // The first cell after `i` at the address, or the end of the list.
  function FindFrom(cells: seq<Cell>, address: int, i: nat): (r: nat)
    ensures i < r
    ensures forall j :: i < j < r && j < |cells| ==> cells[j].address != address
    ensures r < |cells| ==> cells[r].address == address
    decreases |cells| - i
  {
    if i + 1 >= |cells| || cells[i + 1].address == address then i + 1 else FindFrom(cells, address, i + 1)
  }

  function Delete(cells: seq<Cell>, i: nat): (r: seq<Cell>)
    requires i < |cells|
    ensures |r| == |cells| - 1
    ensures forall j :: 0 <= j < i ==> r[j] == cells[j]
    ensures forall j :: i <= j < |r| ==> r[j] == cells[j + 1]
  {
    cells[..i] + cells[i + 1..]
  }

  // `_dal_mpool_free`: the list without the first cell behind the head at that address.
  function Free(cells: seq<Cell>, address: int): seq<Cell> {
    var i := FindFrom(cells, address, 0);
    if i < |cells| then Delete(cells, i) else cells
  }

  // ----- the invariant of a pool -----

  predicate Aligned(x: int) {
    x % CACHE_LINE == 0
  }

  // A block in use: not empty, whole cache lines, of the kind of its list.
  predicate Block(c: Cell, kind: int) {
    0 < c.size && Aligned(c.size) && Aligned(c.address) && c.kind == kind
  }

  predicate Sentinel(c: Cell, address: int) {
    c.address == address && c.size == 0
  }

  // Sentinels at both ends of the arena, blocks between them, each cell ending before the next.
  ghost predicate Ok(cells: seq<Cell>, base: int, limit: int, kind: int) {
    && 2 <= |cells|
    && Sentinel(cells[0], base) && Sentinel(cells[|cells| - 1], limit)
    && (forall i :: 0 < i < |cells| - 1 ==> Block(cells[i], kind))
    && (forall i :: 0 <= i < |cells| - 1 ==> 0 <= Gap(cells[i], cells[i + 1]))
  }

  lemma {:induction false} Before(cells: seq<Cell>, base: int, limit: int, kind: int, i: nat, j: nat)
    requires Ok(cells, base, limit, kind) && i < j < |cells|
    ensures cells[i].End() <= cells[j].address
  {
    assert 0 <= Gap(cells[j - 1], cells[j]);
    if i + 1 < j {
      Before(cells, base, limit, kind, i, j - 1);
    }
  }

  // The blocks lie in the arena in address order, pairwise disjoint.
  lemma InOrder(cells: seq<Cell>, base: int, limit: int, kind: int, i: nat, j: nat)
    requires Ok(cells, base, limit, kind) && i < j < |cells|
    ensures base <= cells[i].address && cells[i].End() <= cells[j].address && cells[j].End() <= limit
  {
    Before(cells, base, limit, kind, i, j);
    if 0 < i {
      Before(cells, base, limit, kind, 0, i);
    }
    if j < |cells| - 1 {
      Before(cells, base, limit, kind, j, |cells| - 1);
    }
  }

  lemma AlignedSum(x: int, y: int)
    requires Aligned(x) && Aligned(y)
    ensures Aligned(x + y)
  {
  }

  // A granted request keeps the invariant.
  lemma AllocOk(cells: seq<Cell>, size: int, base: int, limit: int, kind: int)
    requires Ok(cells, base, limit, kind) && 0 < size && Aligned(size) && Aligned(base)
    ensures Ok(Alloc(cells, size, kind), base, limit, kind)
  {
    var i := FitFrom(cells, size, 0);
    if i + 1 < |cells| {
      AlignedSum(cells[i].address, cells[i].size);
      InsertOk(cells, i, Cell(cells[i].End(), size, kind), base, limit, kind);
    }
  }

  lemma InsertOk(cells: seq<Cell>, i: nat, c: Cell, base: int, limit: int, kind: int)
    requires Ok(cells, base, limit, kind) && i + 1 < |cells| && Block(c, kind)
    requires 0 <= Gap(cells[i], c) && 0 <= Gap(c, cells[i + 1])
    ensures Ok(Insert(cells, i, c), base, limit, kind)
  {
    var r := Insert(cells, i, c);
    forall j | 0 < j < |r| - 1 ensures Block(r[j], kind) {
      assert r[j] == if j <= i then cells[j] else if j == i + 1 then c else cells[j - 1];
    }
    forall j | 0 <= j < |r| - 1 ensures 0 <= Gap(r[j], r[j + 1]) {
      assert i + 1 < j ==> r[j] == cells[j - 1] && r[j + 1] == cells[j - 1 + 1];
    }
  }

  // Freeing keeps the invariant, unless the address is the end of the arena.
  lemma FreeOk(cells: seq<Cell>, address: int, base: int, limit: int, kind: int)
    requires Ok(cells, base, limit, kind) && address != limit
    ensures Ok(Free(cells, address), base, limit, kind)
  {
    var i := FindFrom(cells, address, 0);
    if i < |cells| {
      DeleteOk(cells, i, base, limit, kind);
    }
  }

  lemma DeleteOk(cells: seq<Cell>, i: nat, base: int, limit: int, kind: int)
    requires Ok(cells, base, limit, kind) && 0 < i < |cells| - 1
    ensures Ok(Delete(cells, i), base, limit, kind)
  {
    var r := Delete(cells, i);
    forall j | 0 < j < |r| - 1 ensures Block(r[j], kind) {
      assert r[j] == if j < i then cells[j] else cells[j + 1];
    }
    forall j | 0 <= j < |r| - 1 ensures 0 <= Gap(r[j], r[j + 1]) {
      if j < i - 1 {
        assert r[j] == cells[j] && r[j + 1] == cells[j + 1];
      } else if j == i - 1 {
        InOrder(cells, base, limit, kind, j, i + 1);
      } else {
        assert r[j] == cells[j + 1] && r[j + 1] == cells[j + 1 + 1];
      }
    }
  }

  // A block that starts at the given place is found there, and no cell before it is taken for it.
  lemma FindBlock(cells: seq<Cell>, base: int, limit: int, kind: int, i: nat)
    requires Ok(cells, base, limit, kind) && 0 < i < |cells|
    ensures FindFrom(cells, cells[i].address, 0) == i
  {
    var k := FindFrom(cells, cells[i].address, 0);
    if k < i {
      assert Block(cells[k], kind);
      InOrder(cells, base, limit, kind, k, i);
    }
  }

  // Freeing takes out exactly the block that starts at the address.
  lemma FreeBlock(cells: seq<Cell>, base: int, limit: int, kind: int, i: nat)
    requires Ok(cells, base, limit, kind) && 0 < i < |cells|
    ensures Free(cells, cells[i].address) == Delete(cells, i)
  {
    FindBlock(cells, base, limit, kind, i);
  }

  // Freeing the end of the arena takes out the tail sentinel, and the invariant is lost.
  lemma FreeLimit(cells: seq<Cell>, base: int, limit: int, kind: int)
    requires Ok(cells, base, limit, kind)
    ensures Free(cells, limit) == cells[..|cells| - 1]
    ensures base < limit ==> !Ok(Free(cells, limit), base, limit, kind)
  {
    FreeBlock(cells, base, limit, kind, |cells| - 1);
    var r := Free(cells, limit);
    assert r[|r| - 1] == cells[|cells| - 2];
    assert 2 < |cells| ==> Block(cells[|cells| - 2], kind);
  }

  // ----- first fit is exact -----

  // A request is refused exactly when no gap is large enough.
  lemma RefusedIffNoGap(cells: seq<Cell>, size: int, kind: int)
    ensures HasRoom(cells, size) <==> exists j :: 0 <= j < |cells| - 1 && size <= Gap(cells[j], cells[j + 1])
    ensures !HasRoom(cells, size) <==> Alloc(cells, size, kind) == cells
  {
  }

  // A granted block starts the lowest gap that is large enough, fills it from its start, and every
  // other place with that much room lies higher.
  lemma LowestGap(cells: seq<Cell>, size: int, base: int, limit: int, kind: int, j: nat)
    requires Ok(cells, base, limit, kind) && HasRoom(cells, size)
    requires j + 1 < |cells| && size <= Gap(cells[j], cells[j + 1])
    ensures Place(cells, size) <= cells[j].End()
  {
    var i := FitFrom(cells, size, 0);
    if i < j {
      InOrder(cells, base, limit, kind, i, j);
      assert 0 <= cells[j].size;
    }
  }

  // Freeing the block just granted restores the list.
  lemma FreeUndoesAlloc(cells: seq<Cell>, size: int, base: int, limit: int, kind: int)
    requires Ok(cells, base, limit, kind) && 0 < size && Aligned(size) && Aligned(base)
    requires HasRoom(cells, size)
    ensures Free(Alloc(cells, size, kind), Place(cells, size)) == cells
  {
    var i := FitFrom(cells, size, 0);
    var c := Cell(cells[i].End(), size, kind);
    AllocOk(cells, size, base, limit, kind);
    FreeBlock(Insert(cells, i, c), base, limit, kind, i + 1);
    DeleteInserted(cells, i, c);
  }

  lemma DeleteInserted(cells: seq<Cell>, i: nat, c: Cell)
    requires i < |cells|
    ensures Delete(Insert(cells, i, c), i + 1) == cells
  {
  }

  // ----- conservation -----

  // What `dal_mpool_usage` counts: the cells of one kind, and those of kind -1.
  function UsedBy(cells: seq<Cell>, kind: int): int {
    if cells == [] then 0
    else
      var c := cells[|cells| - 1];
      UsedBy(cells[..|cells| - 1], kind) + if c.kind == kind || c.kind == -1 then c.size else 0
  }

  // The sum of the gaps.
  function Room(cells: seq<Cell>): int {
    if |cells| < 2 then 0 else Room(cells[..|cells| - 1]) + Gap(cells[|cells| - 2], cells[|cells| - 1])
  }

  lemma {:induction false} UsedAndRoom(cells: seq<Cell>, kind: int)
    requires cells != [] && forall i :: 0 <= i < |cells| ==> cells[i].size == 0 || cells[i].kind == kind
    ensures UsedBy(cells, kind) + Room(cells) == cells[|cells| - 1].End() - cells[0].address
  {
    if 1 < |cells| {
      UsedAndRoom(cells[..|cells| - 1], kind);
    }
  }

  // Usage and all the gaps together are the size of the arena.
  lemma Conservation(cells: seq<Cell>, base: int, limit: int, kind: int)
    requires Ok(cells, base, limit, kind)
    ensures UsedBy(cells, kind) + Room(cells) == limit - base
  {
    UsedAndRoom(cells, kind);
  }

  // Usage is the sum over the cells of the sizes of those of the kind and of kind -1.
  lemma {:induction false} UsedSplit(a: seq<Cell>, b: seq<Cell>, c: Cell, kind: int)
    ensures UsedBy(a + b, kind) == UsedBy(a, kind) + UsedBy(b, kind)
    ensures UsedBy([c], kind) == if c.kind in {kind, -1} then c.size else 0
  {
    assert [c][..0] == [];
    if b == [] {
      assert a + b == a;
    } else {
      UsedSplit(a, b[..|b| - 1], c, kind);
      assert (a + b)[..|a + b| - 1] == a + b[..|b| - 1];
    }
  }

  // A granted request records a block of exactly its size where it was placed, beside the cells that
  // were there, and usage grows by that size.
  lemma AllocGrants(cells: seq<Cell>, size: int, kind: int)
    requires HasRoom(cells, size)
    ensures multiset(Alloc(cells, size, kind)) == multiset(cells) + multiset{Cell(Place(cells, size), size, kind)}
    ensures UsedBy(Alloc(cells, size, kind), kind) == UsedBy(cells, kind) + size
  {
    var i := FitFrom(cells, size, 0);
    var front, c, back := cells[..i + 1], Cell(Place(cells, size), size, kind), cells[i + 1..];
    assert cells == front + back && Alloc(cells, size, kind) == front + [c] + back;
    InsertedCell(front, c, back, kind);
  }

  lemma InsertedCell(front: seq<Cell>, c: Cell, back: seq<Cell>, kind: int)
    requires c.kind == kind
    ensures multiset(front + [c] + back) == multiset(front + back) + multiset{c}
    ensures UsedBy(front + [c] + back, kind) == UsedBy(front + back, kind) + c.size
  {
    UsedSplit(front, back, c, kind);
    UsedSplit(front, [c], c, kind);
    UsedSplit(front + [c], back, c, kind);
  }

  // ----- runs -----

  // A request is for a size, and finds memory for its node or not; a release names an address.
  datatype Request = Get(size: int, memory: bool) | Put(address: int)

  // One call of the pool's interface on a list.
  function Serve(cells: seq<Cell>, kind: int, r: Request): seq<Cell> {
    match r
    case Get(size, memory) => if memory then Alloc(cells, RoundUp(size), kind) else cells
    case Put(address) => Free(cells, address)
  }

  // A caller asks for a positive size, and does not free the end of the arena.
  predicate Proper(r: Request, limit: int) {
    match r
    case Get(size, _) => 0 < size
    case Put(address) => address != limit
  }

  function ServeAll(cells: seq<Cell>, kind: int, rs: seq<Request>): seq<Cell>
    decreases |rs|
  {
    if rs == [] then cells else ServeAll(Serve(cells, kind, rs[0]), kind, rs[1..])
  }

  lemma ServeOk(cells: seq<Cell>, r: Request, base: int, limit: int, kind: int)
    requires Ok(cells, base, limit, kind) && Aligned(base) && Proper(r, limit)
    ensures Ok(Serve(cells, kind, r), base, limit, kind)
  {
    match r
    case Get(size, _) => AllocOk(cells, RoundUp(size), base, limit, kind);
    case Put(address) => FreeOk(cells, address, base, limit, kind);
  }

  // Every run keeps the invariant.
  lemma {:induction false} ServeAllOk(cells: seq<Cell>, rs: seq<Request>, base: int, limit: int, kind: int)
    requires Ok(cells, base, limit, kind) && Aligned(base)
    requires forall i :: 0 <= i < |rs| ==> Proper(rs[i], limit)
    ensures Ok(ServeAll(cells, kind, rs), base, limit, kind)
    decreases |rs|
  {
    if rs != [] {
      ServeOk(cells, rs[0], base, limit, kind);
      ServeAllOk(Serve(cells, kind, rs[0]), rs[1..], base, limit, kind);
    }
  }

  // ----- what the callers hold -----

  // The ranges granted and not freed, by their addresses, each of the size asked for in whole cache
  // lines, after one call.
  function HeldAfter(cells: seq<Cell>, r: Request, held: map<int, int>): map<int, int> {
    match r
    case Get(size, memory) =>
      if memory && HasRoom(cells, RoundUp(size)) then held[Place(cells, RoundUp(size)) := RoundUp(size)] else held
    case Put(address) => held - {address}
  }

  // The same after a run.
  function Held(cells: seq<Cell>, kind: int, rs: seq<Request>, held: map<int, int>): map<int, int>
    decreases |rs|
  {
    if rs == [] then held else Held(Serve(cells, kind, rs[0]), kind, rs[1..], HeldAfter(cells, rs[0], held))
  }

  // The list holds a block of n bytes at x.
  ghost predicate HasBlock(cells: seq<Cell>, x: int, n: int) {
    exists i :: 0 < i < |cells| - 1 && IsBlock(cells[i], x, n)
  }

  predicate IsBlock(c: Cell, x: int, n: int) {
    c.address == x && c.size == n
  }

  // The list records exactly what the callers hold.
  ghost predicate Records(cells: seq<Cell>, held: map<int, int>) {
    forall x, n :: HasBlock(cells, x, n) <==> x in held && held[x] == n
  }

  lemma InsertedBlock(cells: seq<Cell>, i: nat, c: Cell, x: int, n: int)
    requires i + 1 < |cells|
    ensures HasBlock(Insert(cells, i, c), x, n) <==> HasBlock(cells, x, n) || IsBlock(c, x, n)
  {
    var r := Insert(cells, i, c);
    if HasBlock(cells, x, n) {
      var j :| 0 < j < |cells| - 1 && IsBlock(cells[j], x, n);
      assert IsBlock(r[if j <= i then j else j + 1], x, n);
    }
    if IsBlock(c, x, n) {
      assert IsBlock(r[i + 1], x, n);
    }
    if HasBlock(r, x, n) {
      var j :| 0 < j < |r| - 1 && IsBlock(r[j], x, n);
      assert j <= i ==> IsBlock(cells[j], x, n);
      assert i + 1 < j ==> IsBlock(cells[j - 1], x, n);
    }
  }

  lemma DeletedBlock(cells: seq<Cell>, base: int, limit: int, kind: int, i: nat, x: int, n: int)
    requires Ok(cells, base, limit, kind) && 0 < i < |cells| - 1
    ensures HasBlock(Delete(cells, i), x, n) <==> HasBlock(cells, x, n) && x != cells[i].address
  {
    var r := Delete(cells, i);
    if HasBlock(cells, x, n) && x != cells[i].address {
      var j :| 0 < j < |cells| - 1 && IsBlock(cells[j], x, n);
      assert IsBlock(r[if j < i then j else j - 1], x, n);
    }
    if HasBlock(r, x, n) {
      var j :| 0 < j < |r| - 1 && IsBlock(r[j], x, n);
      var was := if j < i then j else j + 1;
      assert IsBlock(cells[was], x, n);
      OtherAddress(cells, base, limit, kind, was, i);
    }
  }

  lemma OtherAddress(cells: seq<Cell>, base: int, limit: int, kind: int, i: nat, j: nat)
    requires Ok(cells, base, limit, kind) && 0 < i < |cells| - 1 && 0 < j < |cells| - 1 && i != j
    ensures cells[i].address != cells[j].address
  {
    assert Block(cells[i], kind) && Block(cells[j], kind);
    if i < j {
      Before(cells, base, limit, kind, i, j);
    } else {
      Before(cells, base, limit, kind, j, i);
    }
  }

  // A new range begins where none that is held begins.
  lemma NewAddress(cells: seq<Cell>, size: int, base: int, limit: int, kind: int, n: int)
    requires Ok(cells, base, limit, kind) && 0 < size && Aligned(size) && Aligned(base) && HasRoom(cells, size)
    ensures !HasBlock(cells, Place(cells, size), n)
  {
    var i := FitFrom(cells, size, 0);
    var r := Alloc(cells, size, kind);
    AllocOk(cells, size, base, limit, kind);
    if HasBlock(cells, Place(cells, size), n) {
      var j :| 0 < j < |cells| - 1 && IsBlock(cells[j], Place(cells, size), n);
      OtherAddress(r, base, limit, kind, if j <= i then j else j + 1, i + 1);
    }
  }

  lemma RecordsGrant(cells: seq<Cell>, size: int, base: int, limit: int, kind: int, held: map<int, int>)
    requires Ok(cells, base, limit, kind) && 0 < size && Aligned(size) && Aligned(base)
    requires HasRoom(cells, size) && Records(cells, held)
    ensures Place(cells, size) !in held && Records(Alloc(cells, size, kind), held[Place(cells, size) := size])
  {
    var i, at := FitFrom(cells, size, 0), Place(cells, size);
    if at in held {
      assert HasBlock(cells, at, held[at]);
      NewAddress(cells, size, base, limit, kind, held[at]);
    }
    forall x, n ensures HasBlock(Alloc(cells, size, kind), x, n) <==>
                        x in held[at := size] && held[at := size][x] == n {
      InsertedBlock(cells, i, Cell(at, size, kind), x, n);
      assert HasBlock(cells, x, n) <==> x in held && held[x] == n;
    }
  }

  lemma RecordsFree(cells: seq<Cell>, address: int, base: int, limit: int, kind: int, held: map<int, int>)
    requires Ok(cells, base, limit, kind) && address != limit && Records(cells, held)
    ensures Records(Free(cells, address), held - {address})
  {
    var i := FindFrom(cells, address, 0);
    forall x, n ensures HasBlock(Free(cells, address), x, n) <==> x in held - {address} && held[x] == n {
      assert HasBlock(cells, x, n) <==> x in held && held[x] == n;
      if i < |cells| {
        DeletedBlock(cells, base, limit, kind, i, x, n);
      } else if HasBlock(cells, x, n) {
        var j :| 0 < j < |cells| - 1 && IsBlock(cells[j], x, n);
        assert cells[j].address != address;
      }
    }
  }

  lemma {:induction false} RunRecords(cells: seq<Cell>, rs: seq<Request>, base: int, limit: int, kind: int,
                                      held: map<int, int>)
    requires Ok(cells, base, limit, kind) && Aligned(base) && Records(cells, held)
    requires forall i :: 0 <= i < |rs| ==> Proper(rs[i], limit)
    ensures Ok(ServeAll(cells, kind, rs), base, limit, kind)
    ensures Records(ServeAll(cells, kind, rs), Held(cells, kind, rs, held))
    decreases |rs|
  {
    if rs != [] {
      ServeOk(cells, rs[0], base, limit, kind);
      match rs[0] {
        case Get(size, memory) =>
          if memory && HasRoom(cells, RoundUp(size)) {
            RecordsGrant(cells, RoundUp(size), base, limit, kind, held);
          }
        case Put(address) => RecordsFree(cells, address, base, limit, kind, held);
      }
      RunRecords(Serve(cells, kind, rs[0]), rs[1..], base, limit, kind, HeldAfter(cells, rs[0], held));
    }
  }

  // In every run from a fresh list the ranges that callers hold, each from the address returned for
  // the size asked for in whole cache lines, lie in the arena and are pairwise disjoint.
  lemma HeldApart(rs: seq<Request>, base: int, size: int, kind: int, tailKind: int, x: int, y: int)
    requires 0 <= size && Aligned(base) && forall i :: 0 <= i < |rs| ==> Proper(rs[i], base + size)
    ensures var held := Held(Fresh(base, size, kind, tailKind), kind, rs, map[]);
            && (x in held ==> base <= x && 0 < held[x] && x + held[x] <= base + size)
            && (x in held && y in held && x < y ==> x + held[x] <= y)
  {
    var cells := Fresh(base, size, kind, tailKind);
    assert Ok(cells, base, base + size, kind) && Records(cells, map[]);
    RunRecords(cells, rs, base, base + size, kind, map[]);
    var r, held := ServeAll(cells, kind, rs), Held(cells, kind, rs, map[]);
    if x in held {
      assert HasBlock(r, x, held[x]);
      BlockInside(r, base, base + size, kind, x, held[x]);
      if y in held && x < y {
        assert HasBlock(r, y, held[y]);
        BlocksApart(r, base, base + size, kind, x, held[x], y, held[y]);
      }
    }
  }

  lemma BlockInside(cells: seq<Cell>, base: int, limit: int, kind: int, x: int, n: int)
    requires Ok(cells, base, limit, kind) && HasBlock(cells, x, n)
    ensures base <= x && 0 < n && x + n <= limit
  {
    var i :| 0 < i < |cells| - 1 && IsBlock(cells[i], x, n);
    assert Block(cells[i], kind);
    InOrder(cells, base, limit, kind, i, |cells| - 1);
  }

  lemma BlocksApart(cells: seq<Cell>, base: int, limit: int, kind: int, x: int, n: int, y: int, m: int)
    requires Ok(cells, base, limit, kind) && HasBlock(cells, x, n) && HasBlock(cells, y, m) && x < y
    ensures x + n <= y
  {
    var i :| 0 < i < |cells| - 1 && IsBlock(cells[i], x, n);
    var j :| 0 < j < |cells| - 1 && IsBlock(cells[j], y, m);
    assert Block(cells[j], kind);
    if j < i {
      Before(cells, base, limit, kind, j, i);
    } else {
      Before(cells, base, limit, kind, i, j);
    }
  }

  // In an arena without room no request is granted, so the list never holds a block.
  lemma {:induction false} NeverServed(rs: seq<Request>, base: int, size: int, kind: int, tailKind: int)
    requires size <= 0
    requires forall i :: 0 <= i < |rs| ==> Proper(rs[i], base + size)
    ensures ServeAll(Fresh(base, size, kind, tailKind), kind, rs) == Fresh(base, size, kind, tailKind)
  {
    if rs != [] {
      assert Serve(Fresh(base, size, kind, tailKind), kind, rs[0]) == Fresh(base, size, kind, tailKind);
      NeverServed(rs[1..], base, size, kind, tailKind);
    }
  }

  // ----- the two arenas of a chip -----

  const DESC_SIZE: int := 0x10_0000
  const USELESS: int := 0
  const DESC: int := 1
  const DATA: int := 2

  // What `dal_mpool_create` makes of the memory it is given: whole cache lines inside it.
  function PoolBase(base: int): int {
    RoundUp(base)
  }

  function PoolSize(base: int, size: int): int {
    var s := size - (RoundUp(base) - base);
    s - s % CACHE_LINE
  }

  lemma PoolInside(base: int, size: int)
    ensures base <= PoolBase(base) && PoolBase(base) + PoolSize(base, size) <= base + size
    ensures base + size < PoolBase(base) + PoolSize(base, size) + CACHE_LINE
    ensures Aligned(PoolBase(base)) && Aligned(PoolSize(base, size)) && Aligned(PoolBase(base) + DESC_SIZE)
  {
    AlignedSum(RoundUp(base), DESC_SIZE);
  }

  // The lists of a chip after a run of calls on each.
  function DescAfter(base: int, tailKind: int, rs: seq<Request>): seq<Cell> {
    ServeAll(Fresh(PoolBase(base), DESC_SIZE, DESC, tailKind), DESC, rs)
  }

  function DataAfter(base: int, size: int, tailKind: int, rs: seq<Request>): seq<Cell> {
    ServeAll(Fresh(PoolBase(base) + DESC_SIZE, PoolSize(base, size) - DESC_SIZE, DATA, tailKind), DATA, rs)
  }

  lemma DescBlock(base: int, tail: int, rs: seq<Request>, i: nat)
    requires forall k :: 0 <= k < |rs| ==> Proper(rs[k], PoolBase(base) + DESC_SIZE)
    requires 0 < i < |DescAfter(base, tail, rs)| - 1
    ensures var c := DescAfter(base, tail, rs)[i];
            Block(c, DESC) && base <= c.address && c.End() <= PoolBase(base) + DESC_SIZE
  {
    var middle := PoolBase(base) + DESC_SIZE;
    var desc := DescAfter(base, tail, rs);
    assert Ok(Fresh(PoolBase(base), DESC_SIZE, DESC, tail), PoolBase(base), middle, DESC);
    ServeAllOk(Fresh(PoolBase(base), DESC_SIZE, DESC, tail), rs, PoolBase(base), middle, DESC);
    InOrder(desc, PoolBase(base), middle, DESC, i, |desc| - 1);
  }

  lemma DataBlock(base: int, size: int, tail: int, rs: seq<Request>, j: nat)
    requires forall k :: 0 <= k < |rs| ==> Proper(rs[k], PoolBase(base) + PoolSize(base, size))
    requires 0 < j < |DataAfter(base, size, tail, rs)| - 1
    ensures var d := DataAfter(base, size, tail, rs)[j];
            Block(d, DATA) && PoolBase(base) + DESC_SIZE <= d.address && d.End() <= base + size
  {
    PoolInside(base, size);
    var middle := PoolBase(base) + DESC_SIZE;
    var limit := PoolBase(base) + PoolSize(base, size);
    if limit < middle {
      NeverServed(rs, middle, limit - middle, DATA, tail);
    } else {
      assert Ok(Fresh(middle, limit - middle, DATA, tail), middle, limit, DATA);
      ServeAllOk(Fresh(middle, limit - middle, DATA, tail), rs, middle, limit, DATA);
      InOrder(DataAfter(base, size, tail, rs), middle, limit, DATA, 0, j);
    }
  }

  // Whatever the runs, no descriptor block overlaps a data block, and no data block leaves the
  // memory of the pool: of every size, since an arena of negative size serves nothing.
  lemma ArenasApart(base: int, size: int, tail: int, tail': int, descRun: seq<Request>, dataRun: seq<Request>, i: nat,
                    j: nat)
    requires forall k :: 0 <= k < |descRun| ==> Proper(descRun[k], PoolBase(base) + DESC_SIZE)
    requires forall k :: 0 <= k < |dataRun| ==> Proper(dataRun[k], PoolBase(base) + PoolSize(base, size))
    requires 0 < i < |DescAfter(base, tail, descRun)| - 1
    requires 0 < j < |DataAfter(base, size, tail', dataRun)| - 1
    ensures var c := DescAfter(base, tail, descRun)[i];
            var d := DataAfter(base, size, tail', dataRun)[j];
            base <= c.address && c.End() <= d.address && d.End() <= base + size
  {
    DescBlock(base, tail, descRun, i);
    DataBlock(base, size, tail', dataRun, j);
  }

  // The common list, over the whole pool.
  function CommonAfter(base: int, size: int, tailKind: int, rs: seq<Request>): seq<Cell> {
    ServeAll(Fresh(PoolBase(base), PoolSize(base, size), USELESS, tailKind), USELESS, rs)
  }

  // A block of the common list and one of the descriptor list overlap after these runs.
  ghost predicate Clash(base: int, size: int, tail: int, tail': int, commonRun: seq<Request>, descRun: seq<Request>,
                        i: nat, j: nat) {
    && (forall k :: 0 <= k < |commonRun| ==> Proper(commonRun[k], PoolBase(base) + PoolSize(base, size)))
    && (forall k :: 0 <= k < |descRun| ==> Proper(descRun[k], PoolBase(base) + DESC_SIZE))
    && 0 < i < |CommonAfter(base, size, tail, commonRun)| - 1 && 0 < j < |DescAfter(base, tail', descRun)| - 1
    && var c, d := CommonAfter(base, size, tail, commonRun)[i], DescAfter(base, tail', descRun)[j];
    c.address < d.End() && d.address < c.End()
  }

  // The common list is not apart from the descriptor list: some runs make blocks of the two overlap
  // exactly when the pool has room for any block at all.
  lemma CommonClashes(base: int, size: int, tail: int, tail': int)
    ensures CACHE_LINE <= PoolSize(base, size)
       <==> exists commonRun, descRun, i, j :: Clash(base, size, tail, tail', commonRun, descRun, i, j)
  {
    var start, rs := PoolBase(base), [Get(1, true)];
    if CACHE_LINE <= PoolSize(base, size) {
      OneLine(start, PoolSize(base, size), USELESS, tail);
      OneLine(start, DESC_SIZE, DESC, tail');
      assert Clash(base, size, tail, tail', rs, rs, 1, 1);
    } else {
      PoolInside(base, size);
      forall commonRun, descRun, i, j ensures !Clash(base, size, tail, tail', commonRun, descRun, i, j) {
        if forall k :: 0 <= k < |commonRun| ==> Proper(commonRun[k], start + PoolSize(base, size)) {
          NeverServed(commonRun, start, PoolSize(base, size), USELESS, tail);
        }
      }
    }
  }

  // A first request of one byte takes the first cache line.
  lemma OneLine(base: int, size: int, kind: int, tail: int)
    requires CACHE_LINE <= size
    ensures var cells := Fresh(base, size, kind, tail);
            ServeAll(cells, kind, [Get(1, true)]) == [cells[0], Cell(base, CACHE_LINE, kind), cells[1]]
  {
    var cells, rs := Fresh(base, size, kind, tail), [Get(1, true)];
    var c := Serve(cells, kind, rs[0]);
    assert c == [cells[0], Cell(base, CACHE_LINE, kind), cells[1]];
    assert ServeAll(cells, kind, rs) == ServeAll(c, kind, rs[1..]);
  }

  // Descriptor blocks stay inside the pool in every run exactly when the pool has a megabyte: the
  // descriptor arena has that size whatever the pool's.
  lemma DescInside(base: int, size: int, tail: int)
    ensures DESC_SIZE <= PoolSize(base, size)
       <==> forall rs: seq<Request>, i: int ::
              && (forall k :: 0 <= k < |rs| ==> Proper(rs[k], PoolBase(base) + DESC_SIZE))
              && 0 < i < |DescAfter(base, tail, rs)| - 1
              ==> DescAfter(base, tail, rs)[i].End() <= PoolBase(base) + PoolSize(base, size)
  {
    var middle := PoolBase(base) + DESC_SIZE;
    if DESC_SIZE <= PoolSize(base, size) {
      forall rs: seq<Request>, i: int |
        && (forall k :: 0 <= k < |rs| ==> Proper(rs[k], middle))
        && 0 < i < |DescAfter(base, tail, rs)| - 1
        ensures DescAfter(base, tail, rs)[i].End() <= PoolBase(base) + PoolSize(base, size)
      {
        DescBlock(base, tail, rs, i);
      }
    } else {
      WholeArena(Fresh(PoolBase(base), DESC_SIZE, DESC, tail), PoolBase(base), tail);
      var rs := [Get(DESC_SIZE, true)];
      assert DescAfter(base, tail, rs)[1].End() == middle;
      assert forall k :: 0 <= k < |rs| ==> Proper(rs[k], middle);
    }
  }

  lemma WholeArena(cells: seq<Cell>, base: int, tail: int)
    requires cells == Fresh(base, DESC_SIZE, DESC, tail)
    ensures ServeAll(cells, DESC, [Get(DESC_SIZE, true)]) == [cells[0], Cell(base, DESC_SIZE, DESC), cells[1]]
  {
    var rs := [Get(DESC_SIZE, true)];
    assert RoundUp(DESC_SIZE) == DESC_SIZE;
    var c := Serve(cells, DESC, rs[0]);
    assert c == [cells[0], Cell(base, DESC_SIZE, DESC), cells[1]];
    assert ServeAll(cells, DESC, rs) == ServeAll(c, DESC, rs[1..]);
  }
}
