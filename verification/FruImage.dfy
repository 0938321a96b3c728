/**
 The board and product areas and the whole FRU image, encoded and decoded
 (device/ragile/x86_64-ragile_ra-b6510-32c-r0/fru.py, lines 191-305, 441-495, 567-621, 673-734 and
 873-950; sections 8, 11 and 12 of the IPMI FRU definition).
 */
module FruImage {
  import opened Wrappers
  import opened FruFields

  const VERSION: Byte := 1
  const LANGUAGE: Byte := 25

  datatype Board = Board(mfgDate: nat, manufacturer: Bytes, productName: Bytes, serialNumber: Bytes,
                         partNumber: Bytes, fruFileId: Bytes, extras: seq<Field>) {
    function Fixed(): seq<Field> {
      [Some(manufacturer), Some(productName), Some(serialNumber), Some(partNumber), Some(fruFileId)]
    }
  }

  datatype Product = Product(manufacturer: Bytes, name: Bytes, partModelName: Bytes, version: Bytes,
                             serialNumber: Bytes, assetTag: Field, fruFileId: Bytes, extras: seq<Field>) {
    function Fixed(): seq<Field> {
      [Some(manufacturer), Some(name), Some(partModelName), Some(version), Some(serialNumber), assetTag,
       Some(fruFileId)]
    }
  }

  // ----- areas -----

  // The extra fields that have names.
  function Named(extras: seq<Field>): seq<Field> {
    if |extras| <= EXTRAS then extras else extras[..EXTRAS]
  }

  // Every length gives a type/length byte.
  predicate Encodable(fs: seq<Field>) {
    forall i :: 0 <= i < |fs| ==> fs[i].Some? ==> |fs[i].value| < 256
  }

  function DateBytes(date: nat): Bytes {
    [(date % 256) as Byte, (date / 256 % 256) as Byte, (date / 65536 % 256) as Byte]
  }

  // The contents of an area before it is sealed, and the area.
  function Body(head: Bytes, fixed: seq<Field>, extras: seq<Field>): Bytes {
    head + (EncodeFields(fixed) + (EncodeFields(Named(extras)) + [END]))
  }

  function EncodeArea(head: Bytes, fixed: seq<Field>, extras: seq<Field>, size: nat): (r: Result<Bytes>)
    requires 2 <= |head|
  {
    var body := Body(head, fixed, extras);
    if Encodable(fixed) && Encodable(Named(extras)) && size / 8 < 256
       && Grown(|body|, size) / 8 < 256 then Ok(Seal(body, size)) else Err
  }

  function BoardHead(b: Board): Bytes {
    [VERSION, 0, LANGUAGE] + DateBytes(b.mfgDate)
  }

  const productHead: Bytes := [VERSION, 0, LANGUAGE]

  function EncodeBoard(b: Board, size: nat): Result<Bytes> {
    EncodeArea(BoardHead(b), b.Fixed(), b.extras, size)
  }

  function EncodeProduct(p: Product, size: nat): Result<Bytes> {
    EncodeArea(productHead, p.Fixed(), p.extras, size)
  }

  // The length of the area is in its second byte in units of eight, and its bytes sum to zero.
  predicate Sealed(r: Bytes) {
    2 <= |r| == 8 * r[1] as int && Sum(r) % 256 == 0 && r[|r| - 1] == Checksum(r[..|r| - 1])
  }

  // An area of a size that is a multiple of eight has its own length in its second byte.
  lemma AreaShape(head: Bytes, fixed: seq<Field>, extras: seq<Field>, size: nat)
    requires 2 <= |head| && size % 8 == 0 && EncodeArea(head, fixed, extras, size).Ok?
    ensures Sealed(EncodeArea(head, fixed, extras, size).value)
  {
    SealShape(Body(head, fixed, extras), size);
    GrownIsLeast(|Body(head, fixed, extras)|, size);
  }

  // A sealed area starts with its contents.
  lemma SealedAt(head: Bytes, rest: Bytes, size: nat)
    requires 2 <= |head| && Grown(|head + rest|, size) / 8 < 256
    ensures var r := Seal(head + rest, size);
            |head + rest| < |r| && r[..|head|] == head[1 := r[1]] && At(r, |head|, rest)
  {
    var body := head + rest;
    SealShape(body, size);
    var r := Seal(body, size);
    assert body[1 := r[1]] == head[1 := r[1]] + rest;
    assert r[..|head|] == r[..|body|][..|head|];
    assert r[|head|..|head| + |rest|] == r[..|body|][|head|..];
    AtSlice(r, |head|, rest);
  }

  lemma BoardShape(b: Board, size: nat)
    requires size % 8 == 0 && EncodeBoard(b, size).Ok?
    ensures Sealed(EncodeBoard(b, size).value)
  {
    AreaShape(BoardHead(b), b.Fixed(), b.extras, size);
  }

  lemma ProductShape(p: Product, size: nat)
    requires size % 8 == 0 && EncodeProduct(p, size).Ok?
    ensures Sealed(EncodeProduct(p, size).value)
  {
    AreaShape(productHead, p.Fixed(), p.extras, size);
  }

  // Where the parts of an area stand.
  lemma AreaParts(head: Bytes, fixed: seq<Field>, extras: seq<Field>, size: nat)
    requires 2 <= |head| && EncodeArea(head, fixed, extras, size).Ok?
    ensures var r := EncodeArea(head, fixed, extras, size).value;
            && |Body(head, fixed, extras)| < |r| && |head| <= |r|
            && r[..|head|] == head[1 := r[1]]
            && At(r, |head|, EncodeFields(fixed))
            && At(r, |head| + |EncodeFields(fixed)|, EncodeFields(Named(extras)))
            && EndsAt(r, |head| + |EncodeFields(fixed)| + |EncodeFields(Named(extras))|)
  {
    var a, b := EncodeFields(fixed), EncodeFields(Named(extras));
    var r := EncodeArea(head, fixed, extras, size).value;
    SealedAt(head, a + (b + [END]), size);
    AtSplit(r, |head|, a, b + [END]);
    AtSplit(r, |head| + |a|, b, [END]);
  }

  // Reads n fixed fields and up to m extra ones.
  function DecodeFields(data: Bytes, start: nat, n: nat, m: nat, product: bool, size: nat): Result<(seq<Field>,
    seq<Field>)> {
    match DecodeFixed(data, start, n)
    case Err => Err
    case Ok((fixed, index)) =>
      match DecodeExtras(data, index, m, product, size)
      case Err => Err
      case Ok(extras) => Ok((fixed, extras))
  }

  function DecodeArea(data: Bytes, start: nat, n: nat, product: bool, size: nat): Result<(seq<Field>, seq<Field>)> {
    DecodeFields(data, start, n, EXTRAS, product, size)
  }

  predicate GoodFields(fixed: seq<Field>, extras: seq<Field>, product: bool) {
    AllFit(fixed) && |extras| <= EXTRAS && AllPlain(extras, product)
  }

  // Extra fields come back exactly when they are plain and all have names.
  lemma NamedRoundTrip(r: Bytes, index: nat, extras: seq<Field>, named: seq<Field>, product: bool, n: nat)
    requires named == Named(extras) && n == EXTRAS
    requires At(r, index, EncodeFields(named)) && EndsAt(r, index + |EncodeFields(named)|)
    ensures DecodeExtras(r, index, n, product, |r|) == Ok(extras) <==> |extras| <= EXTRAS && AllPlain(extras, product)
  {
    ExtrasRoundTrip(r, index, named, n, product);
    ExtrasBounded(r, index, n, product, |r|);
  }

  // The fields of an area come back exactly when the fixed ones fit, and the extra ones are plain
  // and at most ten.
  lemma AreaRoundTrip(r: Bytes, start: nat, fixed: seq<Field>, extras: seq<Field>, named: seq<Field>, product: bool,
                      n: nat)
    requires named == Named(extras) && n == EXTRAS
    requires At(r, start, EncodeFields(fixed))
    requires At(r, start + |EncodeFields(fixed)|, EncodeFields(named))
    requires EndsAt(r, start + |EncodeFields(fixed)| + |EncodeFields(named)|)
    ensures DecodeFields(r, start, |fixed|, n, product, |r|) == Ok((fixed, extras)) <==>
            GoodFields(fixed, extras, product)
  {
    FixedRoundTrip(r, start, fixed);
    NamedRoundTrip(r, start + |EncodeFields(fixed)|, extras, named, product, n);
    FieldsDecode(r, start, fixed, extras, start + |EncodeFields(fixed)|, product, n);
  }

  lemma FieldsDecode(r: Bytes, start: nat, fixed: seq<Field>, extras: seq<Field>, index: nat, product: bool, n: nat)
    requires AllFit(fixed) ==> DecodeFixed(r, start, |fixed|) == Ok((fixed, index))
    requires DecodeFixed(r, start, |fixed|).Ok? && DecodeFixed(r, start, |fixed|).value.0 == fixed ==> AllFit(fixed)
    requires DecodeExtras(r, index, n, product, |r|) == Ok(extras) <==> |extras| <= EXTRAS && AllPlain(extras, product)
    ensures DecodeFields(r, start, |fixed|, n, product, |r|) == Ok((fixed, extras)) <==>
            GoodFields(fixed, extras, product)
  {
  }

  function DateOf(d0: Byte, d1: Byte, d2: Byte): nat {
    d0 as int + 256 * d1 as int + 65536 * d2 as int
  }

  lemma DateRoundTrip(date: nat)
    ensures var d := DateBytes(date); DateOf(d[0], d[1], d[2]) == date <==> date < 0x100_0000
  {
  }

  // The fields in the order in which they stand in an area.
  function BoardOf(date: nat, f: seq<Field>, extras: seq<Field>): Board
    requires |f| == 5 && forall i :: 0 <= i < 5 ==> f[i].Some?
  {
    Board(date, f[0].value, f[1].value, f[2].value, f[3].value, f[4].value, extras)
  }

  function ProductOf(f: seq<Field>, extras: seq<Field>): Product
    requires |f| == 7 && forall i :: 0 <= i < 7 ==> f[i].Some?
  {
    Product(f[0].value, f[1].value, f[2].value, f[3].value, f[4].value, f[5], f[6].value, extras)
  }

  // `BoardInfoArea.decodedata`.
  function DecodeBoard(data: Bytes): Result<Board> {
    if |data| < 6 then Err
    else
      match DecodeArea(data, 6, 5, false, |data|)
      case Err => Err
      case Ok((f, extras)) =>
        FixedValues(data, 6, 5);
        Ok(BoardOf(DateOf(data[3], data[4], data[5]), f, extras))
  }

  // `ProductInfoArea.decodedata`, of an area with the given size.
  function DecodeProduct(data: Bytes, size: nat): Result<Product> {
    if |data| < 2 then Err
    else
      match DecodeArea(data, 3, 7, true, size)
      case Err => Err
      case Ok((f, extras)) =>
        FixedValues(data, 3, 7);
        Ok(ProductOf(f, extras))
  }

  lemma {:induction false} FixedValues(data: Bytes, index: nat, n: nat)
    ensures var r := DecodeFixed(data, index, n);
            r.Ok? ==> |r.value.0| == n && forall i :: 0 <= i < n ==> r.value.0[i].Some?
    decreases n
  {
    if n != 0 && index < |data| {
      FixedValues(data, index + DecodeLength(data[index]) + 1, n - 1);
    }
  }

  predicate GoodBoard(b: Board) {
    b.mfgDate < 0x100_0000 && GoodFields(b.Fixed(), b.extras, false)
  }

  predicate GoodProduct(p: Product) {
    GoodFields(p.Fixed(), p.extras, true)
  }

  lemma BoardDecodes(data: Bytes, b: Board)
    requires 6 <= |data|
    ensures DecodeBoard(data) == Ok(b)
       <==> DecodeArea(data, 6, 5, false, |data|) == Ok((b.Fixed(), b.extras))
            && DateOf(data[3], data[4], data[5]) == b.mfgDate
  {
    FixedValues(data, 6, 5);
    var d := DecodeArea(data, 6, 5, false, |data|);
    if d.Ok? {
      var f := d.value.0;
      assert f == [Some(f[0].value), Some(f[1].value), Some(f[2].value), Some(f[3].value), Some(f[4].value)];
    }
  }

  lemma ProductDecodes(data: Bytes, size: nat, p: Product)
    requires 2 <= |data|
    ensures DecodeProduct(data, size) == Ok(p) <==> DecodeArea(data, 3, 7, true, size) == Ok((p.Fixed(), p.extras))
  {
    FixedValues(data, 3, 7);
    var d := DecodeArea(data, 3, 7, true, size);
    if d.Ok? {
      var f := d.value.0;
      assert f == [Some(f[0].value), Some(f[1].value), Some(f[2].value), Some(f[3].value), Some(f[4].value), f[5],
                   Some(f[6].value)];
    }
  }

  lemma BoardRoundTrip(b: Board, size: nat)
    requires EncodeBoard(b, size).Ok?
    ensures DecodeBoard(EncodeBoard(b, size).value) == Ok(b) <==> GoodBoard(b)
  {
    var r := EncodeBoard(b, size).value;
    AreaParts(BoardHead(b), b.Fixed(), b.extras, size);
    AreaRoundTrip(r, 6, b.Fixed(), b.extras, Named(b.extras), false, EXTRAS);
    DateRoundTrip(b.mfgDate);
    assert r[3] == r[..6][3] && r[4] == r[..6][4] && r[5] == r[..6][5];
    BoardDecodes(r, b);
  }

  lemma ProductRoundTrip(p: Product, size: nat)
    requires EncodeProduct(p, size).Ok?
    ensures var r := EncodeProduct(p, size).value; DecodeProduct(r, |r|) == Ok(p) <==> GoodProduct(p)
  {
    var r := EncodeProduct(p, size).value;
    AreaParts(productHead, p.Fixed(), p.extras, size);
    AreaRoundTrip(r, 3, p.Fixed(), p.extras, Named(p.extras), true, EXTRAS);
    ProductDecodes(r, |r|, p);
  }

  // ----- the image -----

  datatype Fru = Fru(board: Option<Board>, product: Option<Product>)

  // The common header with the offsets of the areas in units of eight bytes.
  function Header(board: Byte, product: Byte): Bytes {
    [VERSION, 0, 0, board, product, 0, 0, ((0x100 - VERSION as int - product as int - board as int) % 0x100) as Byte]
  }

  function EncodeBoardPart(b: Option<Board>, size: nat): Result<Bytes> {
    if b.None? then Ok([]) else EncodeBoard(b.value, size)
  }

  function EncodeProductPart(p: Option<Product>, size: nat): Result<Bytes> {
    if p.None? then Ok([]) else EncodeProduct(p.value, size)
  }

  // `recalcute`: both areas, then the header, padded to 256 bytes; a longer image raises.
  function EncodeBin(f: Fru, boardSize: nat, productSize: nat): Result<Bytes> {
    match (EncodeBoardPart(f.board, boardSize), EncodeProductPart(f.product, productSize))
    case (Ok(board), Ok(product)) =>
      if 8 + |board| + |product| < 256 then Ok(Image(f, board, product)) else Err
    case _ => Err
  }

  function BoardOffset(f: Fru): Byte {
    if f.board.Some? then 1 else 0
  }

  function ProductOffset(f: Fru, boardLength: nat): Byte
    requires 8 + boardLength < 256
  {
    if f.product.Some? then ((8 + boardLength) / 8) as Byte else 0
  }

  function Image(f: Fru, board: Bytes, product: Bytes): Bytes
    requires 8 + |board| + |product| < 256
  {
    Header(BoardOffset(f), ProductOffset(f, |board|)) + (board + (product + Zeros(248 - |board| - |product|)))
  }

  // The area at an offset: its size is in its second byte, and its checksum must be right.
  function AreaAt(eeprom: Bytes, offset: Byte): Result<Bytes> {
    var start := 8 * offset as int;
    if start + 1 >= |eeprom| then Err
    else
      var data := Slice(eeprom, start, start + 8 * eeprom[start + 1] as int);
      if data == [] || Checksum(data[..|data| - 1]) != data[|data| - 1] then Err else Ok(data)
  }

  function DecodeBoardPart(eeprom: Bytes, offset: Byte): Result<Option<Board>> {
    if offset == 0 then Ok(None)
    else
      match AreaAt(eeprom, offset)
      case Err => Err
      case Ok(data) =>
        match DecodeBoard(data)
        case Err => Err
        case Ok(b) => Ok(Some(b))
  }

  function DecodeProductPart(eeprom: Bytes, offset: Byte): Result<Option<Product>> {
    if offset == 0 then Ok(None)
    else
      match AreaAt(eeprom, offset)
      case Err => Err
      case Ok(data) =>
        match DecodeProduct(data, 8 * eeprom[8 * offset as int + 1] as int)
        case Err => Err
        case Ok(p) => Ok(Some(p))
  }

  predicate HeadOk(eeprom: Bytes) {
    8 <= |eeprom| && eeprom[0] == VERSION && Checksum(eeprom[..7]) == eeprom[7] && eeprom[1] == 0
  }

  // `decodeBin`. An internal use area does not decode: assigning it does not end.
  function DecodeBin(eeprom: Bytes): Result<Fru> {
    if !HeadOk(eeprom) then Err
    else
      match (DecodeBoardPart(eeprom, eeprom[3]), DecodeProductPart(eeprom, eeprom[4]))
      case (Ok(board), Ok(product)) => Ok(Fru(board, product))
      case _ => Err
  }

  predicate GoodFru(f: Fru) {
    (f.board.Some? ==> GoodBoard(f.board.value)) && (f.product.Some? ==> GoodProduct(f.product.value))
  }

  lemma HeaderChecksum(board: Byte, product: Byte)
    ensures Checksum(Header(board, product)[..7]) == Header(board, product)[7]
  {
    SumSeven(Header(board, product));
  }

  lemma SumSeven(h: Bytes)
    requires 7 <= |h|
    ensures Sum(h[..7]) == h[0] as int + h[1] as int + h[2] as int + h[3] as int + h[4] as int + h[5] as int
                           + h[6] as int
  {
    SumPrefix(h, 0);
    SumPrefix(h, 1);
    SumPrefix(h, 2);
    SumPrefix(h, 3);
    SumPrefix(h, 4);
    SumPrefix(h, 5);
    SumPrefix(h, 6);
  }

  // A header of ours sends the decoder to the two areas.
  lemma HeaderDecodes(image: Bytes, board: Byte, product: Byte, b: Option<Board>, p: Option<Product>)
    requires 8 <= |image| && image[..8] == Header(board, product)
    ensures DecodeBin(image) == Ok(Fru(b, p)) <==> DecodeBoardPart(image, board) == Ok(b)
                                                   && DecodeProductPart(image, product) == Ok(p)
  {
    HeaderChecksum(board, product);
    assert image[..7] == image[..8][..7];
    assert image[0] == image[..8][0] && image[1] == image[..8][1] && image[3] == image[..8][3];
    assert image[4] == image[..8][4] && image[7] == image[..8][7];
  }

  // An area that stands in the image at its offset is found there.
  lemma FoundAt(eeprom: Bytes, offset: Byte, area: Bytes)
    requires At(eeprom, 8 * offset as int, area) && Sealed(area)
    ensures AreaAt(eeprom, offset) == Ok(area) && eeprom[8 * offset as int + 1] == area[1]
  {
    var start := 8 * offset as int;
    AtSlice(eeprom, start, area);
    assert eeprom[start + 1] == eeprom[start..start + |area|][1];
  }

  // Where the parts of an image stand.
  lemma ImageParts(f: Fru, board: Bytes, product: Bytes)
    requires 8 + |board| + |product| < 256
    ensures var image := Image(f, board, product);
            && |image| == 256
            && image[..8] == Header(BoardOffset(f), ProductOffset(f, |board|))
            && At(image, 8, board) && At(image, 8 + |board|, product)
  {
    var image := Image(f, board, product);
    var header := Header(BoardOffset(f), ProductOffset(f, |board|));
    var pad := Zeros(248 - |board| - |product|);
    AtSlice(image, 0, image);
    assert image[0..|image|] == image;
    AtSplit(image, 0, header, board + (product + pad));
    AtSplit(image, 8, board, product + pad);
    AtSplit(image, 8 + |board|, product, pad);
    AtSlice(image, 0, header);
  }

  // An image decodes to the fields it was made from exactly when the board and product areas are
  // good, for areas whose given sizes are multiples of eight.
  lemma ImageRoundTrip(f: Fru, boardSize: nat, productSize: nat)
    requires boardSize % 8 == 0 && productSize % 8 == 0
    requires EncodeBin(f, boardSize, productSize).Ok?
    ensures |EncodeBin(f, boardSize, productSize).value| == 256
    ensures DecodeBin(EncodeBin(f, boardSize, productSize).value) == Ok(f) <==> GoodFru(f)
  {
    var board, product := EncodeBoardPart(f.board, boardSize).value, EncodeProductPart(f.product, productSize).value;
    BoardLength(f.board, boardSize, board);
    ImagePlaced(f, board, product, Image(f, board, product));
    PartsRoundTrip(f, boardSize, productSize, board, product, Image(f, board, product), BoardOffset(f),
                   ProductOffset(f, |board|));
  }

  lemma BoardLength(b: Option<Board>, size: nat, board: Bytes)
    requires size % 8 == 0 && EncodeBoardPart(b, size) == Ok(board)
    ensures |board| % 8 == 0
  {
    if b.Some? {
      BoardShape(b.value, size);
    }
  }

  // The areas stand at their offsets.
  lemma ImagePlaced(f: Fru, board: Bytes, product: Bytes, image: Bytes)
    requires |board| % 8 == 0 && 8 + |board| + |product| < 256 && image == Image(f, board, product)
    ensures |image| == 256 && image[..8] == Header(BoardOffset(f), ProductOffset(f, |board|))
    ensures At(image, 8, board) && At(image, 8 + |board|, product)
    ensures f.product.Some? ==> 8 * ProductOffset(f, |board|) as int == 8 + |board|
  {
    ImageParts(f, board, product);
  }

  lemma PartsRoundTrip(f: Fru, boardSize: nat, productSize: nat, board: Bytes, product: Bytes, image: Bytes,
                       boardOffset: Byte, productOffset: Byte)
    requires boardSize % 8 == 0 && productSize % 8 == 0
    requires EncodeBoardPart(f.board, boardSize) == Ok(board)
             && EncodeProductPart(f.product, productSize) == Ok(product)
    requires 8 <= |image| && image[..8] == Header(boardOffset, productOffset)
    requires if f.board.Some? then boardOffset != 0 && At(image, 8 * boardOffset as int, board) else boardOffset == 0
    requires if f.product.Some? then productOffset != 0
                                     && At(image, 8 * productOffset as int, product) else productOffset == 0
    ensures DecodeBin(image) == Ok(f) <==> GoodFru(f)
  {
    HeaderDecodes(image, boardOffset, productOffset, f.board, f.product);
    BoardPart(f.board, boardSize, image, boardOffset, board);
    ProductPart(f.product, productSize, image, productOffset, product);
  }

  lemma BoardPart(b: Option<Board>, size: nat, image: Bytes, offset: Byte, data: Bytes)
    requires size % 8 == 0 && EncodeBoardPart(b, size) == Ok(data)
    requires if b.Some? then offset != 0 && At(image, 8 * offset as int, data) else offset == 0
    ensures var r := DecodeBoardPart(image, offset); r == Ok(b) <==> b.Some? ==> GoodBoard(b.value)
  {
    if b.Some? {
      BoardShape(b.value, size);
      FoundAt(image, offset, data);
      BoardRoundTrip(b.value, size);
    }
  }

  lemma ProductPart(p: Option<Product>, size: nat, image: Bytes, offset: Byte, data: Bytes)
    requires size % 8 == 0 && EncodeProductPart(p, size) == Ok(data)
    requires if p.Some? then offset != 0 && At(image, 8 * offset as int, data) else offset == 0
    ensures var r := DecodeProductPart(image, offset); r == Ok(p) <==> p.Some? ==> GoodProduct(p.value)
  {
    if p.Some? {
      ProductShape(p.value, size);
      FoundAt(image, offset, data);
      ProductRoundTrip(p.value, size);
    }
  }

  // ----- what does not come back -----

  lemma {:induction false} ShortFields(fs: seq<Field>)
    requires forall i :: 0 <= i < |fs| ==> fs[i].Some? && |fs[i].value| <= 1
    ensures |EncodeFields(fs)| <= 2 * |fs|
  {
    if fs != [] {
      ShortFields(fs[1..]);
    }
  }

  // Areas with short fields fit the size that the source gives them.
  lemma ShortAreaFits(head: Bytes, fixed: seq<Field>, extras: seq<Field>)
    requires 2 <= |head| <= 6 && |fixed| <= 7 && |extras| <= 2
    requires forall i :: 0 <= i < |fixed| ==> fixed[i].Some? && |fixed[i].value| <= 1
    requires forall i :: 0 <= i < |extras| ==> extras[i].Some? && |extras[i].value| <= 1
    ensures EncodeArea(head, fixed, extras, 80).Ok?
  {
    ShortFields(fixed);
    ShortFields(extras);
  }

  // A board extra of one byte is taken for the end marker.
  lemma BoardExtraExample(x: Byte)
    ensures var b := Board(0, [], [], [], [], [], [Some([x])]);
            EncodeBoard(b, 80).Ok? && DecodeBoard(EncodeBoard(b, 80).value) != Ok(b)
  {
    var b := Board(0, [], [], [], [], [], [Some([x])]);
    ShortAreaFits(BoardHead(b), b.Fixed(), b.extras);
    assert !Plain(b.extras[0], false);
    BoardRoundTrip(b, 80);
  }

  // A date of 25 bits loses its top one.
  lemma BoardDateExample()
    ensures var b := Board(0x100_0000, [], [], [], [], [], []);
            EncodeBoard(b, 80).Ok? && DecodeBoard(EncodeBoard(b, 80).value) != Ok(b)
  {
    var b := Board(0x100_0000, [], [], [], [], [], []);
    ShortAreaFits(BoardHead(b), b.Fixed(), b.extras);
    BoardRoundTrip(b, 80);
  }

  // A product extra without bytes, or with one, ends the list.
  lemma ProductExtraExample(e: Bytes)
    requires |e| <= 1
    ensures var p := Product([], [], [], [], [], Some([]), [], [Some(e)]);
            EncodeProduct(p, 80).Ok? && var r := EncodeProduct(p, 80).value; DecodeProduct(r, |r|) != Ok(p)
  {
    var p := Product([], [], [], [], [], Some([]), [], [Some(e)]);
    ShortAreaFits(productHead, p.Fixed(), p.extras);
    assert !Plain(p.extras[0], true);
    ProductRoundTrip(p, 80);
  }
}
