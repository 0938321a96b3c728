/**
 FRU images byte by byte: the common header, the board area and the product area, as sections 8, 11
 and 12 of the IPMI FRU definition lay them out
 (device/ragile/x86_64-ragile_ra-b6510-32c-r0/fru.py, lines 242-305, 567-621 and 873-950).
 */
module FruLayout {
  import opened Wrappers
  import opened FruFields
  import opened FruImage

  // The fields stand in the area from the index on: a byte with the two top bits set over the length,
  // and the text; a zero byte for an absent field.
  predicate Laid(r: Bytes, index: nat, fs: seq<Field>)
    decreases |fs|
  {
    fs == [] ||
    match fs[0]
    case None => index < |r| && r[index] == 0 && Laid(r, index + 1, fs[1..])
    case Some(v) =>
      && index + |v| < |r| && r[index] as int == 0xc0 + |v| && r[index + 1..index + 1 + |v|] == v
      && Laid(r, index + 1 + |v|, fs[1..])
  }

  function Span(fs: seq<Field>): nat {
    if fs == [] then 0 else 1 + (if fs[0].Some? then |fs[0].value| else 0) + Span(fs[1..])
  }

  predicate Short(fs: seq<Field>) {
    forall i :: 0 <= i < |fs| ==> fs[i].Some? ==> |fs[i].value| < 64
  }

  // The bytes stand in the area at the index.
  predicate Holds(r: Bytes, index: nat, b: Bytes) {
    index + |b| <= |r| && r[index..index + |b|] == b
  }

  lemma HoldsParts(r: Bytes, index: nat, a: Bytes, b: Bytes)
    requires Holds(r, index, a + b)
    ensures Holds(r, index, a) && Holds(r, index + |a|, b)
  {
    var s := r[index..index + |a + b|];
    assert r[index..index + |a|] == s[..|a|] && r[index + |a|..index + |a| + |b|] == s[|a|..];
  }

  lemma {:induction false} FieldsLaid(r: Bytes, index: nat, fs: seq<Field>)
    requires Holds(r, index, EncodeFields(fs)) && Short(fs)
    ensures Laid(r, index, fs)
    decreases |fs|
  {
    if fs != [] {
      HoldsParts(r, index, EncodeField(fs[0]), EncodeFields(fs[1..]));
      FieldLaid(r, index, fs[0]);
      FieldsLaid(r, index + |EncodeField(fs[0])|, fs[1..]);
    }
  }

  lemma FieldLaid(r: Bytes, index: nat, f: Field)
    requires Holds(r, index, EncodeField(f)) && (f.Some? ==> |f.value| < 64)
    ensures if f.None? then index < |r| && r[index] == 0
            else index + |f.value| < |r| && r[index] as int == 0xc0 + |f.value|
                 && r[index + 1..index + 1 + |f.value|] == f.value
  {
    var s := r[index..index + |EncodeField(f)|];
    assert r[index] == s[0];
    if f.Some? {
      assert r[index + 1..index + 1 + |f.value|] == s[1..] == f.value;
    }
  }

  // Between contents and checksum there are zeros.
  lemma SealPads(body: Bytes, size: nat, i: nat)
    requires 2 <= |body| && Grown(|body|, size) / 8 < 256 && |body| <= i < |Seal(body, size)| - 1
    ensures Seal(body, size)[i] == 0
  {
    var s := Grown(|body|, size);
    GrownIsLeast(|body|, size);
    var front, zeros := [body[0], (s / 8) as Byte] + body[2..], Zeros(s - 1 - |body|);
    var padded := front + zeros;
    assert Seal(body, size) == padded + [Checksum(padded)];
    assert |front| == |body| && padded[i] == zeros[i - |front|];
  }

  // The bytes of an area: the head but for its second byte, the fields in order, the end marker, and
  // zeros up to the checksum.
  ghost predicate AreaBytes(r: Bytes, head: Bytes, fixed: seq<Field>, extras: seq<Field>) {
    && FieldBytes(r, head, fixed, extras)
    && (forall i :: |head| + Span(fixed) + Span(extras) < i < |r| - 1 ==> r[i] == 0)
    && 8 * r[1] as int == |r| && Sum(r) % 256 == 0
  }

  ghost predicate FieldBytes(r: Bytes, head: Bytes, fixed: seq<Field>, extras: seq<Field>) {
    var end := |head| + Span(fixed) + Span(extras);
    && 2 <= |head| && end + 1 < |r|
    && r[0] == head[0] && (forall i :: 2 <= i < |head| ==> r[i] == head[i])
    && Laid(r, |head|, fixed) && Laid(r, |head| + Span(fixed), extras) && r[end] == 0xc1
  }

  lemma AreaLaidOut(head: Bytes, fixed: seq<Field>, extras: seq<Field>, size: nat)
    requires 2 <= |head| && size % 8 == 0 && EncodeArea(head, fixed, extras, size).Ok?
    requires Short(fixed) && Short(extras) && |extras| <= 10
    ensures AreaBytes(EncodeArea(head, fixed, extras, size).value, head, fixed, extras)
  {
    AreaShape(head, fixed, extras, size);
    AreaFields(head, fixed, extras, size);
    AreaPads(head, fixed, extras, size);
  }

  lemma AreaFields(head: Bytes, fixed: seq<Field>, extras: seq<Field>, size: nat)
    requires 2 <= |head| && EncodeArea(head, fixed, extras, size).Ok?
    requires Short(fixed) && Short(extras) && |extras| <= 10
    ensures FieldBytes(EncodeArea(head, fixed, extras, size).value, head, fixed, extras)
  {
    AreaContents(head, fixed, extras, size);
    FieldsStand(EncodeArea(head, fixed, extras, size).value, head, fixed, extras);
  }

  lemma FieldsStand(r: Bytes, head: Bytes, fixed: seq<Field>, extras: seq<Field>)
    requires Contents(r, head, EncodeFields(fixed), EncodeFields(extras)) && Short(fixed) && Short(extras)
    ensures FieldBytes(r, head, fixed, extras)
  {
    SpanIs(fixed);
    SpanIs(extras);
    FieldsLaid(r, |head|, fixed);
    FieldsLaid(r, |head| + |EncodeFields(fixed)|, extras);
    Gathered(r, head, EncodeFields(fixed), EncodeFields(extras), fixed, extras);
  }

  lemma Gathered(r: Bytes, head: Bytes, first: Bytes, second: Bytes, fixed: seq<Field>, extras: seq<Field>)
    requires Contents(r, head, first, second) && |first| == Span(fixed) && |second| == Span(extras)
    requires Laid(r, |head|, fixed) && Laid(r, |head| + |first|, extras)
    ensures FieldBytes(r, head, fixed, extras)
  {
  }

  // The contents of an area behind its second byte.
  lemma AreaContents(head: Bytes, fixed: seq<Field>, extras: seq<Field>, size: nat)
    requires 2 <= |head| && EncodeArea(head, fixed, extras, size).Ok? && |extras| <= 10
    ensures var r := EncodeArea(head, fixed, extras, size).value;
            Contents(r, head, EncodeFields(fixed), EncodeFields(extras))
  {
    assert Named(extras) == extras;
    SealShape(Body(head, fixed, extras), size);
    BodyContents(Seal(Body(head, fixed, extras), size), head, EncodeFields(fixed), EncodeFields(extras));
  }

  ghost predicate Contents(r: Bytes, head: Bytes, first: Bytes, second: Bytes) {
    && 2 <= |head| && |head| + |first| + |second| + 1 < |r| && r[0] == head[0]
    && (forall i :: 2 <= i < |head| ==> r[i] == head[i])
    && Holds(r, |head|, first) && Holds(r, |head| + |first|, second) && r[|head| + |first| + |second|] == 0xc1
  }

  lemma BodyContents(r: Bytes, head: Bytes, first: Bytes, second: Bytes)
    requires 2 <= |head|
    requires var body := head + (first + (second + [END]));
             |body| < |r| && r[..|body|] == body[1 := r[1]]
    ensures Contents(r, head, first, second)
  {
    var body := head + (first + (second + [END]));
    var s := r[..|body|];
    forall i | 0 <= i < |body| && i != 1 ensures r[i] == body[i] {
      assert r[i] == s[i];
    }
    assert r[|head|..|head| + |first|] == first;
    assert r[|head| + |first|..|head| + |first| + |second|] == second;
  }

  lemma AreaPads(head: Bytes, fixed: seq<Field>, extras: seq<Field>, size: nat)
    requires 2 <= |head| && EncodeArea(head, fixed, extras, size).Ok? && |extras| <= 10
    ensures var r := EncodeArea(head, fixed, extras, size).value;
            forall i :: |head| + Span(fixed) + Span(extras) < i < |r| - 1 ==> r[i] == 0
  {
    var body := Body(head, fixed, extras);
    BodyLength(head, fixed, extras);
    forall i | |body| <= i < |Seal(body, size)| - 1 ensures Seal(body, size)[i] == 0 {
      SealPads(body, size, i);
    }
  }

  // Section 11: format version 1, length, language English, minutes of manufacture with the low byte
  // first, manufacturer, product, serial number, part number, file id, further fields.
  lemma BoardBytes(b: Board, size: nat)
    requires size % 8 == 0 && EncodeBoard(b, size).Ok? && |b.extras| <= 10 && Short(b.extras)
    requires |b.manufacturer| < 64 && |b.productName| < 64 && |b.serialNumber| < 64 && |b.partNumber| < 64
    requires |b.fruFileId| < 64
    ensures var date := b.mfgDate;
            AreaBytes(EncodeBoard(b, size).value,
                      [1, 0, 25, (date % 256) as Byte, (date / 256 % 256) as Byte, (date / 0x1_0000 % 256) as Byte],
                      [Some(b.manufacturer), Some(b.productName), Some(b.serialNumber), Some(b.partNumber),
                       Some(b.fruFileId)], b.extras)
  {
    BoardHeadIs(b);
    AreaLaidOut(BoardHead(b), b.Fixed(), b.extras, size);
  }

  lemma BoardHeadIs(b: Board)
    ensures var date := b.mfgDate;
            BoardHead(b)
            == [1, 0, 25, (date % 256) as Byte, (date / 256 % 256) as Byte, (date / 0x1_0000 % 256) as Byte]
  {
  }

  // Section 12: format version 1, length, language English, manufacturer, name, part or model number,
  // version, serial number, asset tag, file id, further fields.
  lemma ProductBytes(p: Product, size: nat)
    requires size % 8 == 0 && EncodeProduct(p, size).Ok? && |p.extras| <= 10 && Short(p.extras) && Short([p.assetTag])
    requires |p.manufacturer| < 64 && |p.name| < 64 && |p.partModelName| < 64 && |p.version| < 64
    requires |p.serialNumber| < 64 && |p.fruFileId| < 64
    ensures AreaBytes(EncodeProduct(p, size).value, [1, 0, 25],
                      [Some(p.manufacturer), Some(p.name), Some(p.partModelName), Some(p.version),
                       Some(p.serialNumber), p.assetTag, Some(p.fruFileId)], p.extras)
  {
    assert [p.assetTag][0] == p.assetTag;
    AreaLaidOut(productHead, p.Fixed(), p.extras, size);
  }

  // An area can be encoded exactly when every length gives a type/length byte and the lengths of the
  // area before and after it grows give a length byte.
  lemma AreaEncodes(head: Bytes, fixed: seq<Field>, extras: seq<Field>, size: nat)
    requires 2 <= |head| && |extras| <= 10
    ensures EncodeArea(head, fixed, extras, size).Ok?
       <==> && (forall i :: 0 <= i < |fixed| && fixed[i].Some? ==> |fixed[i].value| < 256)
            && (forall i :: 0 <= i < |extras| && extras[i].Some? ==> |extras[i].value| < 256)
            && size < 2048 && Grown(|head| + Span(fixed) + Span(extras) + 1, size) < 2048
  {
    BodyLength(head, fixed, extras);
    assert Named(extras) == extras;
    EncodableIs(fixed);
    EncodableIs(extras);
    Eighth(size);
    Eighth(Grown(|head| + Span(fixed) + Span(extras) + 1, size));
  }

  lemma EncodableIs(fs: seq<Field>)
    ensures Encodable(fs) <==> forall i :: 0 <= i < |fs| && fs[i].Some? ==> |fs[i].value| < 256
  {
  }

  lemma Eighth(n: nat)
    ensures n / 8 < 256 <==> n < 2048
  {
  }

  lemma BodyLength(head: Bytes, fixed: seq<Field>, extras: seq<Field>)
    requires |extras| <= 10
    ensures |Body(head, fixed, extras)| == |head| + Span(fixed) + Span(extras) + 1
  {
    SpanIs(fixed);
    SpanIs(extras);
  }

  lemma {:induction false} SpanIs(fs: seq<Field>)
    ensures |EncodeFields(fs)| == Span(fs)
  {
    if fs != [] {
      SpanIs(fs[1..]);
    }
  }

  // Section 8: format version 1, no internal use and no chassis area, the offsets of board and
  // product area in units of eight bytes, no multi-record area, a pad byte, and the checksum. Then
  // the areas, and zeros.
  ghost predicate ImageBytes(image: Bytes, f: Fru, board: Bytes, product: Bytes) {
    && |image| == 256 && 8 + |board| + |product| < 256
    && image[0] == 1 && image[1] == 0 && image[2] == 0 && image[5] == 0 && image[6] == 0
    && image[3] as int == (if f.board.Some? then 1 else 0)
    && 8 * image[4] as int == (if f.product.Some? then 8 + |board| else 0)
    && image[8..8 + |board|] == board && image[8 + |board|..8 + |board| + |product|] == product
    && forall i :: 8 + |board| + |product| <= i < 256 ==> image[i] == 0
  }

  lemma ImageLaidOut(f: Fru, boardSize: nat, productSize: nat)
    requires boardSize % 8 == 0 && EncodeBin(f, boardSize, productSize).Ok?
    ensures EncodeBoardPart(f.board, boardSize).Ok? && EncodeProductPart(f.product, productSize).Ok?
    ensures ImageBytes(EncodeBin(f, boardSize, productSize).value, f, EncodeBoardPart(f.board, boardSize).value,
                       EncodeProductPart(f.product, productSize).value)
  {
    var board := EncodeBoardPart(f.board, boardSize).value;
    if f.board.Some? {
      BoardShape(f.board.value, boardSize);
    }
    ImageOf(f, board, EncodeProductPart(f.product, productSize).value);
  }

  lemma ImageOf(f: Fru, board: Bytes, product: Bytes)
    requires 8 + |board| + |product| < 256 && |board| % 8 == 0
    ensures ImageBytes(Image(f, board, product), f, board, product)
  {
    OffsetIs(f, |board|);
    Joined(Header(BoardOffset(f), ProductOffset(f, |board|)), board, product, Zeros(248 - |board| - |product|));
  }

  lemma OffsetIs(f: Fru, length: nat)
    requires 8 + length < 256 && length % 8 == 0
    ensures 8 * ProductOffset(f, length) as int == if f.product.Some? then 8 + length else 0
  {
  }

  lemma Joined(head: Bytes, board: Bytes, product: Bytes, zeros: Bytes)
    requires |head| == 8 && forall i :: 0 <= i < |zeros| ==> zeros[i] == 0
    ensures var r := head + (board + (product + zeros));
            && |r| == 8 + |board| + |product| + |zeros| && (forall i :: 0 <= i < 8 ==> r[i] == head[i])
            && r[8..8 + |board|] == board && r[8 + |board|..8 + |board| + |product|] == product
            && forall i :: 8 + |board| + |product| <= i < |r| ==> r[i] == 0
  {
  }

  // ----- what is accepted -----

  // The area at an offset that is not zero: as long as its second byte says, or up to the end of the
  // image.
  ghost predicate SumsToZero(eeprom: Bytes, offset: Byte) {
    var start := 8 * offset as int;
    && start + 1 < |eeprom|
    && var end := start + 8 * eeprom[start + 1] as int;
    Sum(eeprom[start..if end <= |eeprom| then end else |eeprom|]) % 256 == 0
  }

  // An image is accepted only when it begins with format version 1, its header sums to zero, it has
  // no internal use area, and each area that is there sums to zero.
  lemma AcceptedSums(eeprom: Bytes)
    requires DecodeBin(eeprom).Ok?
    ensures 8 <= |eeprom| && eeprom[0] == 1 && eeprom[1] == 0 && Sum(eeprom[..8]) % 256 == 0
    ensures eeprom[3] != 0 ==> SumsToZero(eeprom, eeprom[3])
    ensures eeprom[4] != 0 ==> SumsToZero(eeprom, eeprom[4])
  {
    HeaderSum(eeprom);
    if eeprom[3] != 0 {
      AreaSums(eeprom, eeprom[3]);
    }
    if eeprom[4] != 0 {
      AreaSums(eeprom, eeprom[4]);
    }
  }

  lemma HeaderSum(eeprom: Bytes)
    requires HeadOk(eeprom)
    ensures Sum(eeprom[..8]) % 256 == 0
  {
    assert eeprom[..8] == eeprom[..7] + [eeprom[7]];
    ChecksumExact(eeprom[..7], eeprom[7]);
  }

  lemma AreaSums(eeprom: Bytes, offset: Byte)
    requires AreaAt(eeprom, offset).Ok?
    ensures SumsToZero(eeprom, offset)
  {
    var data := AreaAt(eeprom, offset).value;
    var n, start := |data| - 1, 8 * offset as int;
    assert eeprom[start..] == eeprom[start..|eeprom|];
    assert data == data[..n] + [data[n]];
    ChecksumExact(data[..n], data[n]);
  }
}
