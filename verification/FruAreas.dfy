/**
 The FRU objects of the source: areas whose `data` and `size` are built step by step and whose
 fields are set by a decoder that advances an index
 (device/ragile/x86_64-ragile_ra-b6510-32c-r0/fru.py, lines 191-305, 441-495, 567-621, 673-734 and
 873-950). Each method is tied to the value it encodes or decodes; `ok` is false when the source
 raises.
 */
module FruAreas {
  import opened Wrappers
  import opened FruFields
  import opened FruImage

  // ----- the steps of encoding -----

  lemma {:induction false} EncodeMore(fs: seq<Field>, f: Field)
    ensures EncodeFields(fs + [f]) == EncodeFields(fs) + EncodeField(f)
  {
    if fs != [] {
      assert (fs + [f])[1..] == fs[1..] + [f];
      EncodeMore(fs[1..], f);
    }
  }

  // Appends fields, each after its type/length byte.
  method PutAll(data: Bytes, fs: seq<Field>) returns (data': Bytes, ok: bool)
    ensures ok <==> Encodable(fs)
    ensures ok ==> data' == data + EncodeFields(fs)
  {
    data', ok := data, true;
    for i := 0 to |fs|
      invariant ok && data' == data + EncodeFields(fs[..i])
      invariant Encodable(fs[..i])
    {
      if fs[i].Some? && |fs[i].value| >= 256 {
        ok := false;
        return;
      }
      assert fs[..i + 1] == fs[..i] + [fs[i]];
      EncodeMore(fs[..i], fs[i]);
      data' := data' + [TypeLength(fs[i])];
      if fs[i].Some? {
        data' := data' + fs[i].value;
      }
    }
    assert fs[..|fs|] == fs;
  }

  // The extra attributes by number. The source looks at 1 to 10 and stops at the first missing one.
  type Extras = map<nat, Field>

  function ExtraList(extras: Extras, i: nat): seq<Field>
    decreases EXTRAS + 1 - i, |extras|
  {
    if i <= EXTRAS && i in extras then [extras[i]] + ExtraList(extras, i + 1) else []
  }

  lemma {:induction false} ExtraListBound(extras: Extras, i: nat)
    requires i <= EXTRAS + 1
    ensures |ExtraList(extras, i)| <= EXTRAS + 1 - i
    decreases EXTRAS + 1 - i
  {
    if i <= EXTRAS {
      ExtraListBound(extras, i + 1);
    }
  }

  method PutExtras(data: Bytes, extras: Extras) returns (data': Bytes, ok: bool)
    ensures ok <==> Encodable(ExtraList(extras, 1))
    ensures ok ==> data' == data + EncodeFields(ExtraList(extras, 1))
  {
    var i := 1;
    var fs: seq<Field> := [];
    while i <= EXTRAS && i in extras
      invariant 1 <= i <= EXTRAS + 1
      invariant fs + ExtraList(extras, i) == ExtraList(extras, 1)
    {
      assert fs + ExtraList(extras, i) == (fs + [extras[i]]) + ExtraList(extras, i + 1);
      fs := fs + [extras[i]];
      i := i + 1;
    }
    assert fs == fs + ExtraList(extras, i);
    data', ok := PutAll(data, fs);
  }

  // `FruUtil.checksum`.
  method ChecksumOf(b: Bytes) returns (r: Byte)
    ensures r == Checksum(b)
  {
    var result := 0;
    for i := 0 to |b|
      invariant result == Sum(b[..i])
    {
      SumPrefix(b, i);
      result := result + b[i] as int;
    }
    assert b[..|b|] == b;
    r := ((0x100 - result % 0x100) % 0x100) as Byte;
  }

  // The end of `recalcute`: the size grows if needed, goes into the second byte, and padding and
  // checksum follow.
  method SealArea(body: Bytes, size: nat) returns (data: Bytes, size': nat, ok: bool)
    requires 2 <= |body|
    ensures size' == Grown(|body|, size)
    ensures ok <==> Grown(|body|, size) / 8 < 256
    ensures ok ==> data == Seal(body, size) && |data| == size'
  {
    size' := size;
    if |body| > size' - 1 {
      var incr := (|body| - size') / 8 + 1;
      size' := size' + incr * 8;
    }
    data := body;
    ok := size' / 8 < 256;
    if ok {
      data := data[0..1] + [(size' / 8) as Byte] + data[2..];
      GrownIsLeast(|body|, size);
      data := data + Zeros(size' - 1 - |data|);
      assert data == [body[0], (size' / 8) as Byte] + body[2..] + Zeros(size' - 1 - |body|);
      var checksum := ChecksumOf(data);
      data := data + [checksum];
    }
  }

  // ----- the steps of decoding -----

  // Reads n fields, one after another.
  method TakeAll(data: Bytes, index: nat, n: nat) returns (fs: seq<Field>, end: nat, ok: bool)
    ensures DecodeFixed(data, index, n) == if ok then Ok((fs, end)) else Err
    decreases n
  {
    if n == 0 {
      return [], index, true;
    }
    if index >= |data| {
      return [], index, false;
    }
    var next := index + DecodeLength(data[index]) + 1;
    fs, end, ok := TakeAll(data, next, n - 1);
    fs := [Some(Slice(data, index + 1, next))] + fs;
  }

  function PrependExtras(fs: seq<Field>, r: Result<seq<Field>>): Result<seq<Field>> {
    match r
    case Err => Err
    case Ok(gs) => Ok(fs + gs)
  }

  lemma PrependExtrasStep(data: Bytes, index: nat, n: nat, product: bool, size: nat, fs: seq<Field>, next: nat)
    requires 0 < n && index < |data| && next == index + DecodeLength(data[index]) + 1
    requires data[index] != END && (product ==> index < size - 1 && DecodeLength(data[index]) != 0)
    ensures PrependExtras(fs, DecodeExtras(data, index, n, product, size))
         == PrependExtras(fs + [Some(Slice(data, index + 1, next))], DecodeExtras(data, next, n - 1, product, size))
  {
    var v: Field := Some(Slice(data, index + 1, next));
    var r := DecodeExtras(data, next, n - 1, product, size);
    if r.Ok? {
      assert fs + ([v] + r.value) == (fs + [v]) + r.value;
    }
  }

  // The attributes after fields are set from number i on.
  function Overlay(extras: Extras, fs: seq<Field>, i: nat): Extras {
    if fs == [] then extras else Overlay(extras, fs[..|fs| - 1], i)[i + |fs| - 1 := fs[|fs| - 1]]
  }

  lemma PrependExtrasEnds(fs: seq<Field>, r: Result<seq<Field>>)
    ensures PrependExtras([], r) == r && PrependExtras(fs, Ok([])) == Ok(fs)
  {
    assert r.Ok? ==> [] + r.value == r.value;
    assert fs + [] == fs;
  }

  // One extra field, or the end of them.
  method TakeExtra(data: Bytes, index: nat, ghost n: nat, product: bool, size: nat, ghost fs: seq<Field>,
                   ghost all: Result<seq<Field>>)
    returns (f: Field, next: nat, ok: bool)
    requires 0 < n && all == PrependExtras(fs, DecodeExtras(data, index, n, product, size))
    ensures all == if !ok then Err else if f.None? then Ok(fs)
                   else PrependExtras(fs + [f], DecodeExtras(data, next, n - 1, product, size))
  {
    PrependExtrasEnds(fs, all);
    f, next, ok := None, index, true;
    if index >= |data| {
      ok := false;
    } else if !(data[index] == END || (product && index >= size - 1)) {
      var templen := DecodeLength(data[index]);
      if !(product && templen == 0) {
        next := index + templen + 1;
        PrependExtrasStep(data, index, n, product, size, fs, next);
        f := Some(Slice(data, index + 1, next));
      }
    }
  }

  lemma OverlayMore(extras: Extras, fs: seq<Field>, f: Field, i: nat)
    ensures Overlay(extras, fs + [f], i) == Overlay(extras, fs, i)[i + |fs| := f]
  {
    assert (fs + [f])[..|fs|] == fs;
  }

  // Sets one extra attribute, if there is one more.
  method SetExtra(data: Bytes, index: nat, i: nat, ghost m: nat, product: bool, size: nat, given: Extras,
                  ghost from: Extras, ghost fs: seq<Field>, ghost all: Result<seq<Field>>)
    returns (extras: Extras, next: nat, ghost fs': seq<Field>, ok: bool, more: bool)
    requires 1 <= i <= m && |fs| == i - 1 && given == Overlay(from, fs, 1)
    requires all == PrependExtras(fs, DecodeExtras(data, index, m + 1 - i, product, size))
    ensures ok ==> extras == Overlay(from, fs', 1)
    ensures (more ==> ok && |fs'| == i)
    ensures all == if !ok then Err else if !more then Ok(fs')
                   else PrependExtras(fs', DecodeExtras(data, next, m - i, product, size))
  {
    var f;
    f, next, ok := TakeExtra(data, index, m + 1 - i, product, size, fs, all);
    extras, fs', more := given, fs, ok && f.Some?;
    if more {
      OverlayMore(from, fs, f, 1);
      extras := given[i := f];
      fs' := fs + [f];
    }
  }

  // Sets the extra attributes up to the end marker.
  method TakeExtras(data: Bytes, start: nat, m: nat, product: bool, size: nat, given: Extras,
                    ghost all: Result<seq<Field>>)
    returns (extras: Extras, ghost fs: seq<Field>, ok: bool)
    requires all == DecodeExtras(data, start, m, product, size)
    ensures all == if ok then Ok(fs) else Err
    ensures ok ==> extras == Overlay(given, fs, 1)
  {
    extras, fs, ok := given, [], true;
    var index: nat := start;
    PrependExtrasEnds(fs, all);
    var i := 1;
    while i <= m
      invariant 1 <= i <= m + 1 && ok && |fs| == i - 1 && extras == Overlay(given, fs, 1)
      invariant all == PrependExtras(fs, DecodeExtras(data, index, m + 1 - i, product, size))
    {
      var more;
      extras, index, fs, ok, more := SetExtra(data, index, i, m, product, size, extras, given, fs, all);
      if !more {
        return;
      }
      i := i + 1;
    }
    PrependExtrasEnds(fs, all);
  }

  // On an object without extra attributes, what is set is what is listed.
  lemma {:induction false} OverlayKeys(fs: seq<Field>)
    ensures forall k: nat :: k in Overlay(map[], fs, 1) <==> 1 <= k <= |fs|
    ensures forall k :: 1 <= k <= |fs| ==> Overlay(map[], fs, 1)[k] == fs[k - 1]
  {
    if fs != [] {
      OverlayKeys(fs[..|fs| - 1]);
    }
  }

  lemma {:induction false} ListedFrom(fs: seq<Field>, i: nat)
    requires |fs| <= EXTRAS && 1 <= i <= |fs| + 1
    ensures ExtraList(Overlay(map[], fs, 1), i) == fs[i - 1..]
    decreases |fs| + 1 - i
  {
    OverlayKeys(fs);
    if i <= |fs| {
      ListedFrom(fs, i + 1);
    }
  }

  // The fields of an area: the fixed ones, and the extra attributes.
  method TakeFields(data: Bytes, start: nat, n: nat, product: bool, size: nat, given: Extras)
    returns (fs: seq<Field>, extras: Extras, ghost es: seq<Field>, ok: bool)
    ensures DecodeArea(data, start, n, product, size) == if ok then Ok((fs, es)) else Err
    ensures ok ==> |fs| == n && forall i :: 0 <= i < n ==> fs[i].Some?
    ensures ok && given == map[] ==> ExtraList(extras, 1) == es
  {
    FixedValues(data, start, n);
    var index;
    extras, es := given, [];
    fs, index, ok := TakeAll(data, start, n);
    if ok {
      extras, es, ok := TakeExtras(data, index, EXTRAS, product, size, extras,
                                   DecodeExtras(data, index, EXTRAS, product, size));
      ExtrasBounded(data, index, EXTRAS, product, size);
      if ok && given == map[] {
        ListedFrom(es, 1);
      }
    }
  }

  // ----- areas -----

  class BoardInfoArea {
    var data: Bytes
    var size: nat
    var isPresent: bool
    var mfgDate: nat
    var manufacturer: Bytes
    var productName: Bytes
    var serialNumber: Bytes
    var partNumber: Bytes
    var fruFileId: Bytes
    var extras: Extras

    constructor (size: nat)
      ensures this.size == size && !isPresent && extras == map[]
    {
      this.size, isPresent, extras := size, false, map[];
      data, mfgDate, manufacturer, productName, serialNumber, partNumber, fruFileId := [], 0, [], [], [], [], [];
    }

    function Value(): Board
      reads this
    {
      Board(mfgDate, manufacturer, productName, serialNumber, partNumber, fruFileId, ExtraList(extras, 1))
    }

    // `recalcute`: the date is the time of the call.
    method Recalcute(now: nat) returns (ok: bool)
      modifies this
      ensures Value() == old(Value()).(mfgDate := now) && isPresent == old(isPresent)
      ensures EncodeBoard(Value(), old(size)) == if ok then Ok(data) else Err
      ensures ok ==> size == |data|
    {
      mfgDate := now;
      ghost var value := Value();
      ExtraListBound(extras, 1);
      if size / 8 >= 256 {
        return false;
      }
      var head := [VERSION, (size / 8) as Byte, LANGUAGE] + DateBytes(mfgDate);
      data := head;
      data, ok := PutAll(data, [Some(manufacturer), Some(productName), Some(serialNumber), Some(partNumber),
                                Some(fruFileId)]);
      if !ok {
        return;
      }
      data, ok := PutExtras(data, extras);
      if !ok {
        return;
      }
      data := data + [END];
      SealSame(head, BoardHead(value), value.Fixed(), value.extras, data, size);
      data, size, ok := SealArea(data, size);
    }

    // `decodedata`.
    method Decodedata() returns (ok: bool)
      modifies this
      ensures data == old(data) && size == old(size) && isPresent == old(isPresent)
      ensures ok <==> DecodeBoard(data).Ok?
      ensures ok && old(extras) == map[] ==> DecodeBoard(data) == Ok(Value())
    {
      if |data| < 6 {
        return false;
      }
      mfgDate := DateOf(data[3], data[4], data[5]);
      var fs;
      ghost var es;
      fs, extras, es, ok := TakeFields(data, 6, 5, false, size, extras);
      AreaAnySize(data, 6, 5, size);
      if !ok {
        return;
      }
      SetFields(fs);
    }

    method SetFields(fs: seq<Field>)
      requires |fs| == 5 && forall i :: 0 <= i < 5 ==> fs[i].Some?
      modifies this`manufacturer, this`productName, this`serialNumber, this`partNumber, this`fruFileId
      ensures Value() == BoardOf(mfgDate, fs, ExtraList(extras, 1))
    {
      manufacturer, productName, serialNumber := fs[0].value, fs[1].value, fs[2].value;
      partNumber, fruFileId := fs[3].value, fs[4].value;
    }
  }

  // The size does not matter to the decoder of the board area.
  lemma {:induction false} ExtrasAnySize(data: Bytes, index: nat, n: nat, size: nat, size': nat)
    ensures DecodeExtras(data, index, n, false, size) == DecodeExtras(data, index, n, false, size')
    decreases n
  {
    if n != 0 && index < |data| {
      ExtrasAnySize(data, index + DecodeLength(data[index]) + 1, n - 1, size, size');
    }
  }

  lemma AreaAnySize(data: Bytes, start: nat, n: nat, size: nat)
    ensures DecodeArea(data, start, n, false, size) == DecodeArea(data, start, n, false, |data|)
  {
    var r := DecodeFixed(data, start, n);
    if r.Ok? {
      ExtrasAnySize(data, r.value.1, EXTRAS, size, |data|);
    }
  }

  // The second byte of the contents does not matter to the seal.
  lemma SealSame(head: Bytes, head': Bytes, fixed: seq<Field>, extras: seq<Field>, body: Bytes, size: nat)
    requires 2 <= |head| == |head'| && head[0] == head'[0] && head[2..] == head'[2..]
    requires body == head + EncodeFields(fixed) + EncodeFields(Named(extras)) + [END]
    ensures |Body(head', fixed, extras)| == |body|
    ensures Grown(|body|, size) / 8 < 256 ==> Seal(body, size) == Seal(Body(head', fixed, extras), size)
  {
    Joined(head, EncodeFields(fixed), EncodeFields(Named(extras)), [END]);
    var tail := EncodeFields(fixed) + (EncodeFields(Named(extras)) + [END]);
    Rest(head, tail);
    Rest(head', tail);
  }

  lemma Joined(a: Bytes, b: Bytes, c: Bytes, d: Bytes)
    ensures a + b + c + d == a + (b + (c + d))
  {
  }

  lemma Rest(head: Bytes, tail: Bytes)
    requires 2 <= |head|
    ensures (head + tail)[0] == head[0] && (head + tail)[2..] == head[2..] + tail
  {
  }

  class ProductInfoArea {
    var data: Bytes
    var size: nat
    var isPresent: bool
    var manufacturer: Bytes
    var name: Bytes
    var partModelName: Bytes
    var version: Bytes
    var serialNumber: Bytes
    var assetTag: Field
    var fruFileId: Bytes
    var extras: Extras

    constructor (size: nat)
      ensures this.size == size && !isPresent && extras == map[]
    {
      this.size, isPresent, extras := size, false, map[];
      data, manufacturer, name, partModelName, version, serialNumber, fruFileId := [], [], [], [], [], [], [];
      assetTag := None;
    }

    function Value(): Product
      reads this
    {
      Product(manufacturer, name, partModelName, version, serialNumber, assetTag, fruFileId, ExtraList(extras, 1))
    }

    // `recalcute`.
    method Recalcute() returns (ok: bool)
      modifies this
      ensures Value() == old(Value()) && isPresent == old(isPresent)
      ensures EncodeProduct(Value(), old(size)) == if ok then Ok(data) else Err
      ensures ok ==> size == |data|
    {
      ghost var value := Value();
      ExtraListBound(extras, 1);
      if size / 8 >= 256 {
        return false;
      }
      var head := [VERSION, (size / 8) as Byte, LANGUAGE];
      data := head;
      data, ok := PutAll(data, [Some(manufacturer), Some(name), Some(partModelName), Some(version), Some(serialNumber),
                                assetTag, Some(fruFileId)]);
      if !ok {
        return;
      }
      data, ok := PutExtras(data, extras);
      if !ok {
        return;
      }
      data := data + [END];
      SealSame(head, productHead, value.Fixed(), value.extras, data, size);
      data, size, ok := SealArea(data, size);
    }

    // `decodedata`.
    method Decodedata() returns (ok: bool)
      modifies this
      ensures data == old(data) && size == old(size) && isPresent == old(isPresent)
      ensures ok <==> DecodeProduct(data, size).Ok?
      ensures ok && old(extras) == map[] ==> DecodeProduct(data, size) == Ok(Value())
    {
      if |data| < 2 {
        return false;
      }
      var fs;
      ghost var es;
      fs, extras, es, ok := TakeFields(data, 3, 7, true, size, extras);
      if !ok {
        return;
      }
      SetFields(fs);
    }

    method SetFields(fs: seq<Field>)
      requires |fs| == 7 && forall i :: 0 <= i < 7 ==> fs[i].Some?
      modifies this`manufacturer, this`name, this`partModelName, this`version, this`serialNumber, this`assetTag,
               this`fruFileId
      ensures Value() == ProductOf(fs, ExtraList(extras, 1))
    {
      manufacturer, name, partModelName, version := fs[0].value, fs[1].value, fs[2].value, fs[3].value;
      serialNumber, assetTag, fruFileId := fs[4].value, fs[5], fs[6].value;
    }
  }

  // ----- the whole image -----

  function Dated(f: Fru, now: nat): Fru {
    match f.board
    case None => f
    case Some(b) => f.(board := Some(b.(mfgDate := now)))
  }

  // Reads the area at an offset and checks its checksum.
  method TakeArea(eeprom: Bytes, offset: Byte) returns (data: Bytes, size: nat, ok: bool)
    ensures AreaAt(eeprom, offset) == if ok then Ok(data) else Err
    ensures ok ==> 8 * offset as int + 1 < |eeprom| && size == 8 * eeprom[8 * offset as int + 1] as int
  {
    var start := 8 * offset as int;
    data, size, ok := [], 0, false;
    if start + 1 < |eeprom| {
      size := 8 * eeprom[start + 1] as int;
      data := Slice(eeprom, start, start + size);
      if data != [] {
        var checksum := ChecksumOf(data[..|data| - 1]);
        ok := checksum == data[|data| - 1];
      }
    }
  }

  class IpmiFru {
    var boardInfoArea: BoardInfoArea?
    var productInfoArea: ProductInfoArea?
    var boardOffset: nat
    var productOffset: nat
    var bindata: Bytes

    constructor ()
      ensures boardInfoArea == null && productInfoArea == null && Valid()
    {
      boardInfoArea, productInfoArea, boardOffset, productOffset, bindata := null, null, 0, 0, [];
    }

    predicate BoardPresent()
      reads this, boardInfoArea
    {
      boardInfoArea != null && boardInfoArea.isPresent
    }

    predicate ProductPresent()
      reads this, productInfoArea
    {
      productInfoArea != null && productInfoArea.isPresent
    }

    // An area that is not there has no offset.
    predicate Valid()
      reads this, boardInfoArea, productInfoArea
    {
      (!BoardPresent() ==> boardOffset == 0) && (!ProductPresent() ==> productOffset == 0)
    }

    function Value(): Fru
      reads this, boardInfoArea, productInfoArea
    {
      Fru(if BoardPresent() then Some(boardInfoArea.Value()) else None,
          if ProductPresent() then Some(productInfoArea.Value()) else None)
    }

    function BoardSize(): nat
      reads this, boardInfoArea
    {
      if BoardPresent() then boardInfoArea.size else 0
    }

    function ProductSize(): nat
      reads this, productInfoArea
    {
      if ProductPresent() then productInfoArea.size else 0
    }

    // `recalcute`: both areas, then the common header with their offsets.
    method Recalcute(now: nat) returns (ok: bool)
      requires Valid()
      modifies this, boardInfoArea, productInfoArea
      ensures boardInfoArea == old(boardInfoArea) && productInfoArea == old(productInfoArea)
      ensures ok ==> Value() == Dated(old(Value()), now)
      ensures ok ==> Valid()
      ensures ok <==> EncodeBin(Dated(old(Value()), now), old(BoardSize()), old(ProductSize())).Ok?
      ensures ok ==> EncodeBin(Value(), old(BoardSize()), old(ProductSize())) == Ok(bindata)
    {
      var board, product;
      board, ok := RecalcuteBoard(now);
      if !ok {
        return;
      }
      product, ok := RecalcuteProduct();
      if !ok {
        return;
      }
      ok := RecalcuteCommonHead(board, product);
    }

    // The board area's bytes, or none if it is absent.
    method RecalcuteBoard(now: nat) returns (board: Bytes, ok: bool)
      modifies boardInfoArea
      ensures BoardPresent() == old(BoardPresent())
      ensures BoardPresent() ==> boardInfoArea.Value() == old(boardInfoArea.Value()).(mfgDate := now)
      ensures EncodeBoardPart(if BoardPresent() then Some(boardInfoArea.Value()) else None, old(BoardSize()))
           == if ok then Ok(board) else Err
      ensures ok ==> |board| == BoardSize()
    {
      board, ok := [], true;
      if boardInfoArea != null && boardInfoArea.isPresent {
        ok := boardInfoArea.Recalcute(now);
        board := boardInfoArea.data;
      }
    }

    method RecalcuteProduct() returns (product: Bytes, ok: bool)
      modifies productInfoArea
      ensures ProductPresent() == old(ProductPresent())
      ensures ProductPresent() ==> productInfoArea.Value() == old(productInfoArea.Value())
      ensures EncodeProductPart(if ProductPresent() then Some(productInfoArea.Value()) else None, old(ProductSize()))
           == if ok then Ok(product) else Err
    {
      product, ok := [], true;
      if productInfoArea != null && productInfoArea.isPresent {
        ok := productInfoArea.Recalcute();
        product := productInfoArea.data;
      }
    }

    // `recalcuteCommonHead`: offsets count from the end of the header in units of eight bytes.
    method RecalcuteCommonHead(board: Bytes, product: Bytes) returns (ok: bool)
      requires Valid()
      requires BoardPresent() ==> boardInfoArea.size == |board|
      requires !BoardPresent() ==> board == []
      modifies this
      ensures boardInfoArea == old(boardInfoArea) && productInfoArea == old(productInfoArea) && Valid()
      ensures ok <==> 8 + |board| + |product| < 256
      ensures ok ==> bindata == Image(Value(), board, product)
    {
      var offset := 8;
      if boardInfoArea != null && boardInfoArea.isPresent {
        boardOffset := offset / 8;
        offset := offset + boardInfoArea.size;
      }
      if productInfoArea != null && productInfoArea.isPresent {
        productOffset := offset / 8;
      }
      var total := 8 + |board| + |product|;
      if total >= 256 {
        return false;
      }
      var zeroCheckSum := (0x100 - VERSION as int - productOffset - boardOffset) % 0x100;
      var header := [VERSION, 0, 0, boardOffset as Byte, productOffset as Byte, 0, 0, zeroCheckSum as Byte];
      bindata := header + (board + (product + Zeros(256 - total)));
      ok := true;
    }

    // `decodeBin`: areas in the image become new objects; an area that is not in the image stays as
    // it was.
    method DecodeFrom(eeprom: Bytes) returns (ok: bool)
      requires Valid()
      modifies this
      ensures ok <==> DecodeBin(eeprom).Ok?
      ensures ok ==> Valid() && BoardIs(DecodeBin(eeprom).value.board, old(boardInfoArea))
      ensures ok ==> ProductIs(DecodeBin(eeprom).value.product, old(productInfoArea))
    {
      ok := CheckHead(eeprom);
      if !ok {
        return;
      }
      ok := SetBoard(eeprom);
      if !ok {
        return;
      }
      ok := SetProduct(eeprom);
    }

    method SetBoard(eeprom: Bytes) returns (ok: bool)
      requires HeadOk(eeprom) && Valid()
      modifies this`boardInfoArea, this`boardOffset
      ensures Valid()
      ensures ok <==> DecodeBoardPart(eeprom, eeprom[3]).Ok?
      ensures ok ==> BoardIs(DecodeBoardPart(eeprom, eeprom[3]).value, old(boardInfoArea))
    {
      var board;
      board, ok := TakeBoard(eeprom, eeprom[3]);
      if ok && board != null {
        boardInfoArea, boardOffset := board, eeprom[3] as nat;
      }
    }

    method SetProduct(eeprom: Bytes) returns (ok: bool)
      requires HeadOk(eeprom) && Valid()
      modifies this`productInfoArea, this`productOffset
      ensures Valid()
      ensures ok <==> DecodeProductPart(eeprom, eeprom[4]).Ok?
      ensures ok ==> ProductIs(DecodeProductPart(eeprom, eeprom[4]).value, old(productInfoArea))
    {
      var product;
      product, ok := TakeProduct(eeprom, eeprom[4]);
      if ok && product != null {
        productInfoArea, productOffset := product, eeprom[4] as nat;
      }
    }

    // The board area is the one decoded, or the one before.
    predicate BoardIs(b: Option<Board>, before: BoardInfoArea?)
      reads this, boardInfoArea
    {
      if b.Some? then BoardPresent() && boardInfoArea.Value() == b.value else boardInfoArea == before
    }

    predicate ProductIs(p: Option<Product>, before: ProductInfoArea?)
      reads this, productInfoArea
    {
      if p.Some? then ProductPresent() && productInfoArea.Value() == p.value else productInfoArea == before
    }
  }

  // The checks on the common header.
  method CheckHead(eeprom: Bytes) returns (ok: bool)
    ensures ok <==> HeadOk(eeprom)
  {
    ok := false;
    if 8 <= |eeprom| && eeprom[0] == VERSION {
      var checksum := ChecksumOf(eeprom[..7]);
      ok := checksum == eeprom[7] && eeprom[1] == 0;
    }
  }

  method TakeBoard(eeprom: Bytes, offset: Byte) returns (board: BoardInfoArea?, ok: bool)
    ensures board != null ==> fresh(board) && board.isPresent && offset != 0
    ensures DecodeBoardPart(eeprom, offset) == if !ok then Err else if board == null then Ok(None)
                                               else Ok(Some(board.Value()))
  {
    if offset == 0 {
      return null, true;
    }
    var b := new BoardInfoArea(80);
    b.isPresent := true;
    board := b;
    var data, size, found := TakeArea(eeprom, offset);
    if !found {
      return board, false;
    }
    b.size := size;
    b.data := data;
    ok := b.Decodedata();
  }

  method TakeProduct(eeprom: Bytes, offset: Byte) returns (product: ProductInfoArea?, ok: bool)
    ensures product != null ==> fresh(product) && product.isPresent && offset != 0
    ensures DecodeProductPart(eeprom, offset) == if !ok then Err else if product == null then Ok(None)
                                                 else Ok(Some(product.Value()))
  {
    if offset == 0 {
      return null, true;
    }
    var p := new ProductInfoArea(80);
    p.isPresent := true;
    product := p;
    var data, size, found := TakeArea(eeprom, offset);
    if !found {
      return product, false;
    }
    p.size := size;
    p.data := data;
    ok := p.Decodedata();
  }
}
