/**
 The fan EEPROM image: four type/length/value fields behind a header, followed by the sum of all
 bytes before it
 (device/ragile/x86_64-ragile_ra-b6510-32c-r0/fantlv.py, lines 71-205).
 */
module FanTlv {
  import opened Wrappers
  import opened FruFields

  const headInfo: Bytes := [0x01, 0x7e, 0x01, 0xf1]
  const HEADER: nat := 6
  const SIZE: nat := 256

  const NAME: Byte := 0x02
  const SN: Byte := 0x03
  const HW_INFO: Byte := 0x05
  const DEV_TYPE: Byte := 0x06

  datatype Fan = Fan(name: Bytes, sn: Bytes, hwInfo: Bytes, devType: nat)

  // ----- the device type -----

  function MinBytes(n: nat): (r: Bytes)
    ensures n != 0 ==> r != []
  {
    if n == 0 then [] else MinBytes(n / 256) + [(n % 256) as Byte]
  }

  // The number in hexadecimal, at least eight digits, as bytes; an odd number of digits raises.
  function DevBytes(n: nat): Result<Bytes> {
    if n < 0x1_0000_0000 then
      Ok([(n / 0x100_0000) as Byte, (n / 0x1_0000 % 256) as Byte, (n / 256 % 256) as Byte, (n % 256) as Byte])
    else if MinBytes(n)[0] < 16 then Err
    else Ok(MinBytes(n))
  }

  function Number(b: Bytes): nat {
    if b == [] then 0 else 256 * Number(b[..|b| - 1]) + b[|b| - 1] as nat
  }

  lemma {:induction false} MinBytesBack(n: nat)
    ensures Number(MinBytes(n)) == n
  {
    if n != 0 {
      MinBytesBack(n / 256);
      assert MinBytes(n)[..|MinBytes(n)| - 1] == MinBytes(n / 256);
    }
  }

  lemma NumberMore(b: Bytes, x: Byte)
    ensures Number(b + [x]) == 256 * Number(b) + x as nat
  {
    assert (b + [x])[..|b|] == b;
  }

  lemma NumberOfFour(a: Byte, b: Byte, c: Byte, d: Byte)
    ensures Number([a, b, c, d]) == 0x100_0000 * a as nat + 0x1_0000 * b as nat + 256 * c as nat + d as nat
  {
    NumberMore([], a);
    NumberMore([a], b);
    NumberMore([a, b], c);
    NumberMore([a, b, c], d);
    assert [] + [a] == [a] && [a] + [b] == [a, b] && [a, b] + [c] == [a, b, c] && [a, b, c] + [d] == [a, b, c, d];
  }

  lemma FourDigits(n: nat)
    ensures n == 0x100_0000 * (n / 0x100_0000) + 0x1_0000 * (n / 0x1_0000 % 256) + 256 * (n / 256 % 256) + n % 256
  {
    var a := n / 256;
    var b := a / 256;
    var c := b / 256;
    Quotients(n, a, b, c, n % 256, a % 256, b % 256);
  }

  lemma Quotients(n: nat, a: nat, b: nat, c: nat, r: nat, s: nat, t: nat)
    requires n == 256 * a + r && a == 256 * b + s && b == 256 * c + t && r < 256 && s < 256 && t < 256
    ensures n / 0x1_0000 == b && n / 0x100_0000 == c
  {
    assert n == 0x1_0000 * b + (256 * s + r);
    assert n == 0x100_0000 * c + (0x1_0000 * t + 256 * s + r);
  }

  lemma DevBytesBack(n: nat)
    requires DevBytes(n).Ok?
    ensures DevBytes(n).value != [] && Number(DevBytes(n).value) == n
  {
    if n < 0x1_0000_0000 {
      var b := DevBytes(n).value;
      NumberOfFour(b[0], b[1], b[2], b[3]);
      FourDigits(n);
    } else {
      MinBytesBack(n);
    }
  }

  // ----- the image -----

  function Tlv(t: Byte, v: Bytes): Bytes {
    [t, (|v| % 256) as Byte] + v
  }

  datatype TypedValue = TypedValue(t: Byte, v: Bytes)

  function Tlvs(fs: seq<TypedValue>): Bytes {
    if fs == [] then [] else Tlv(fs[0].t, fs[0].v) + Tlvs(fs[1..])
  }

  function FieldsOf(f: Fan, dev: Bytes): seq<TypedValue> {
    [TypedValue(NAME, f.name), TypedValue(SN, f.sn), TypedValue(HW_INFO, f.hwInfo), TypedValue(DEV_TYPE, dev)]
  }

  function Payload(f: Fan, dev: Bytes): Bytes {
    Tlvs(FieldsOf(f, dev))
  }

  function Two(n: nat): Bytes
    requires n < 0x1_0000
  {
    [(n / 256) as Byte, (n % 256) as Byte]
  }

  lemma {:induction false} SumBound(b: Bytes)
    ensures Sum(b) <= 255 * |b|
  {
    if b != [] {
      SumBound(b[..|b| - 1]);
    }
  }

  // Header and payload.
  function Checked(payload: Bytes): (r: Bytes)
    requires |payload| <= 248
    ensures |r| == HEADER + |payload| && Sum(r) < 0x1_0000
  {
    var r := headInfo + Two(|payload|) + payload;
    SumBound(r);
    r
  }

  function Pad(n: nat): Bytes {
    seq(n, i => 0xff)
  }

  function Image(payload: Bytes): (r: Bytes)
    requires |payload| <= 248
    ensures |r| == SIZE
  {
    Checked(payload) + (Two(Sum(Checked(payload))) + Pad(248 - |payload|))
  }

  // `generate_fan_value`; an image that does not fit the buffer raises.
  function Encode(f: Fan): Result<Bytes> {
    match DevBytes(f.devType)
    case Err => Err
    case Ok(dev) => if |Payload(f, dev)| <= 248 then Ok(Image(Payload(f, dev))) else Err
  }

  // `decoder`: sets one field. An unknown type raises; a device type without bytes is ignored.
  function SetField(f: Fan, t: Byte, v: Bytes): Result<Fan> {
    if t == NAME then Ok(f.(name := v))
    else if t == SN then Ok(f.(sn := v))
    else if t == HW_INFO then Ok(f.(hwInfo := v))
    else if t == DEV_TYPE then Ok(if v == [] then f else f.(devType := Number(v)))
    else Err
  }

  // The fields from `index` up to `end`. Each turn advances by two bytes at least.
  function Parse(e2: Bytes, index: nat, end: nat): seq<TypedValue>
    decreases |e2| - index
  {
    if index + 2 < |e2| && index < end then
      var next := index + 2 + e2[index + 1] as nat;
      [TypedValue(e2[index], Slice(e2, index + 2, next))] + Parse(e2, next, end)
    else []
  }

  // Sets fields in order.
  function SetAll(f: Fan, fs: seq<TypedValue>): Result<Fan>
    decreases |fs|
  {
    if fs == [] then Ok(f)
    else
      match SetField(f, fs[0].t, fs[0].v)
      case Err => Err
      case Ok(g) => SetAll(g, fs[1..])
  }

  function DecodeFields(e2: Bytes, index: nat, end: nat, f: Fan): Result<Fan> {
    SetAll(f, Parse(e2, index, end))
  }

  predicate GoodHead(e2: Bytes) {
    HEADER <= |e2| && e2[..4] == headInfo
  }

  function Length(e2: Bytes): nat
    requires HEADER <= |e2|
  {
    256 * e2[4] as nat + e2[5] as nat
  }

  // The sum after the payload is right.
  predicate GoodSum(e2: Bytes)
    requires HEADER <= |e2|
  {
    var end := HEADER + Length(e2);
    end + 2 <= |e2| && Sum(e2[..end]) == 256 * e2[end] as nat + e2[end + 1] as nat
  }

  // `decode`, into an object that holds f.
  function Decode(e2: Bytes, f: Fan): Result<Fan> {
    if GoodHead(e2) && GoodSum(e2) then DecodeFields(e2, HEADER, HEADER + Length(e2), f) else Err
  }

  // ----- round trip -----

  // The parts of an image.
  lemma ImageParts(payload: Bytes)
    requires |payload| <= 248
    ensures var r := Image(payload);
            && GoodHead(r) && Length(r) == |payload| && At(r, HEADER, payload)
            && r[..HEADER + |payload|] == Checked(payload)
            && r[HEADER + |payload|] as nat * 256 + r[HEADER + |payload| + 1] as nat == Sum(Checked(payload))
  {
    SealedParts(payload, Checked(payload), Sum(Checked(payload)), Image(payload));
  }

  lemma TwoBack(n: nat)
    requires n < 0x1_0000
    ensures 256 * Two(n)[0] as nat + Two(n)[1] as nat == n
  {
  }

  lemma SealedParts(payload: Bytes, checked: Bytes, sum: nat, r: Bytes)
    requires |payload| <= 248 && sum < 0x1_0000
    requires checked == headInfo + Two(|payload|) + payload && r == checked + (Two(sum) + Pad(248 - |payload|))
    ensures GoodHead(r) && Length(r) == |payload| && At(r, HEADER, payload) && r[..HEADER + |payload|] == checked
    ensures r[HEADER + |payload|] as nat * 256 + r[HEADER + |payload| + 1] as nat == sum
  {
    Joined(headInfo, Two(|payload|), payload, Two(sum), Pad(248 - |payload|));
    TwoBack(|payload|);
    TwoBack(sum);
  }

  lemma Joined(head: Bytes, length: Bytes, payload: Bytes, sum: Bytes, pad: Bytes)
    requires |head| == 4 && |length| == 2 && |sum| == 2
    ensures var r := head + length + payload + (sum + pad);
            && r[..4] == head && r[4] == length[0] && r[5] == length[1] && At(r, HEADER, payload)
            && r[..HEADER + |payload|] == head + length + payload
            && r[HEADER + |payload|] == sum[0] && r[HEADER + |payload| + 1] == sum[1]
  {
    var r := head + length + payload + (sum + pad);
    assert r[HEADER..HEADER + |payload|] == payload;
    AtSlice(r, HEADER, payload);
  }

  // One field read back, with what follows it.
  lemma FieldBack(e2: Bytes, index: nat, t: Byte, v: Bytes, rest: Bytes)
    requires |v| < 256 && At(e2, index, Tlv(t, v) + rest)
    ensures index + 2 <= |e2| && e2[index] == t && e2[index + 1] as nat == |v|
    ensures Slice(e2, index + 2, index + 2 + |v|) == v && At(e2, index + 2 + |v|, rest)
  {
    AtSplit(e2, index, Tlv(t, v), rest);
    AtSlice(e2, index, Tlv(t, v));
    var s := e2[index..index + |Tlv(t, v)|];
    assert e2[index] == s[0] && e2[index + 1] == s[1];
    assert e2[index + 2..index + 2 + |v|] == s[2..] == v;
  }

  predicate AllShort(fs: seq<TypedValue>) {
    fs == [] || (|fs[0].v| < 256 && AllShort(fs[1..]))
  }

  // The fields stand in the data from the index on, one behind the other.
  predicate Stand(e2: Bytes, index: nat, fs: seq<TypedValue>)
    decreases |fs|
  {
    if fs == [] then index <= |e2|
    else
      var next := index + 2 + |fs[0].v|;
      && next <= |e2| && e2[index] == fs[0].t && e2[index + 1] as nat == |fs[0].v|
      && Slice(e2, index + 2, next) == fs[0].v && Stand(e2, next, fs[1..])
  }

  // How many bytes they take.
  function Span(fs: seq<TypedValue>): nat {
    if fs == [] then 0 else 2 + |fs[0].v| + Span(fs[1..])
  }

  lemma {:induction false} Standing(e2: Bytes, index: nat, fs: seq<TypedValue>)
    requires AllShort(fs) && At(e2, index, Tlvs(fs))
    ensures Stand(e2, index, fs) && |Tlvs(fs)| == Span(fs)
    decreases |fs|
  {
    if fs != [] {
      FieldBack(e2, index, fs[0].t, fs[0].v, Tlvs(fs[1..]));
      Standing(e2, index + 2 + |fs[0].v|, fs[1..]);
    }
  }

  // The loop visits the fields in the order in which they stand.
  lemma TlvsBack(e2: Bytes, index: nat, end: nat, fs: seq<TypedValue>)
    requires AllShort(fs) && At(e2, index, Tlvs(fs)) && end == index + |Tlvs(fs)| < |e2|
    ensures Parse(e2, index, end) == fs
  {
    Standing(e2, index, fs);
    ParsePrefix(e2, index, end, fs);
    AllBegun(fs);
    assert fs[..|fs|] == fs;
  }

  // How many of the fields begin in front of offset k.
  function Begun(fs: seq<TypedValue>, k: int): (j: nat)
    ensures j <= |fs|
  {
    if fs == [] || k <= 0 then 0 else 1 + Begun(fs[1..], k - 2 - |fs[0].v|)
  }

  lemma {:induction false} AllBegun(fs: seq<TypedValue>)
    ensures Begun(fs, Span(fs)) == |fs|
  {
    if fs != [] {
      AllBegun(fs[1..]);
    }
  }

  // A loop that ends early visits the fields that begin before its end.
  lemma {:induction false} ParsePrefix(e2: Bytes, index: nat, end: nat, fs: seq<TypedValue>)
    requires Stand(e2, index, fs) && end <= index + Span(fs) < |e2|
    ensures Parse(e2, index, end) == fs[..Begun(fs, end - index)]
    decreases |fs|
  {
    if fs != [] && index < end {
      ParsePrefix(e2, index + 2 + |fs[0].v|, end, fs[1..]);
      BegunFirst(fs, end - index);
    }
  }

  lemma BegunFirst(fs: seq<TypedValue>, k: nat)
    requires fs != [] && 0 < k
    ensures fs[..Begun(fs, k)] == [fs[0]] + fs[1..][..Begun(fs[1..], k - 2 - |fs[0].v|)]
  {
  }

  lemma {:induction false} ShortEach(fs: seq<TypedValue>)
    requires |Tlvs(fs)| <= 248
    ensures AllShort(fs)
  {
    if fs != [] {
      ShortEach(fs[1..]);
    }
  }

  lemma SetMore(f: Fan, tv: TypedValue, rest: seq<TypedValue>)
    ensures SetAll(f, [tv] + rest)
         == match SetField(f, tv.t, tv.v)
            case Err => Err
            case Ok(g) => SetAll(g, rest)
  {
    assert ([tv] + rest)[1..] == rest;
  }

  lemma SetFour(f: Fan, dev: Bytes, held: Fan)
    requires dev != [] && Number(dev) == f.devType
    ensures SetAll(held, FieldsOf(f, dev)) == Ok(f)
  {
    var a, b, c, d := TypedValue(NAME, f.name), TypedValue(SN, f.sn), TypedValue(HW_INFO, f.hwInfo),
                      TypedValue(DEV_TYPE, dev);
    var g1 := held.(name := f.name);
    var g2 := g1.(sn := f.sn);
    var g3 := g2.(hwInfo := f.hwInfo);
    SetMore(held, a, [b, c, d]);
    SetMore(g1, b, [c, d]);
    SetMore(g2, c, [d]);
    SetMore(g3, d, []);
    assert FieldsOf(f, dev) == [a] + [b, c, d] && [b, c, d] == [b] + [c, d] && [c, d] == [c] + [d] && [d] == [d] + [];
  }

  // An image gives back the fields it was made from, whatever the object held.
  lemma FanRoundTrip(f: Fan, held: Fan)
    requires Encode(f).Ok?
    ensures Decode(Encode(f).value, held) == Ok(f)
  {
    var dev := DevBytes(f.devType).value;
    var fs := FieldsOf(f, dev);
    DevBytesBack(f.devType);
    ImageParts(Payload(f, dev));
    ShortEach(fs);
    TlvsBack(Image(Payload(f, dev)), HEADER, HEADER + |Payload(f, dev)|, fs);
    SetFour(f, dev, held);
  }

  // ----- damage -----

  lemma SumUpdate(b: Bytes, i: nat, x: Byte)
    requires i < |b|
    ensures Sum(b[i := x]) == Sum(b) - b[i] as int + x as int
  {
    assert b == b[..i] + ([b[i]] + b[i + 1..]) && b[i := x] == b[..i] + ([x] + b[i + 1..]);
    SumSplit(b[..i], [b[i]] + b[i + 1..]);
    SumSplit([b[i]], b[i + 1..]);
    SumSplit(b[..i], [x] + b[i + 1..]);
    SumSplit([x], b[i + 1..]);
    assert Sum([b[i]]) == b[i] as int && Sum([x]) == x as int;
  }

  // Any one byte changed in the head, the high byte of the length, the payload or the sum of an image
  // is noticed.
  lemma DamageRejected(f: Fan, held: Fan, i: nat, x: Byte)
    requires Encode(f).Ok? && i < SIZE && Encode(f).value[i] != x
    requires i <= 4 || HEADER <= i < HEADER + Length(Encode(f).value) + 2
    ensures Decode(Encode(f).value[i := x], held) == Err
  {
    var payload := Payload(f, DevBytes(f.devType).value);
    var r := Image(payload);
    var d := r[i := x];
    ImageParts(payload);
    if i < 4 {
      assert d[..4][i] == x && r[..4][i] == r[i];
    } else if i == 4 {
      assert r[4] == 0 && 256 <= Length(d);
    } else {
      var end := HEADER + |payload|;
      assert Length(d) == |payload|;
      if i < end {
        assert d[..end] == r[..end][i := x];
        SumUpdate(r[..end], i, x);
      } else {
        assert d[..end] == r[..end];
      }
    }
  }

  // ----- a changed low byte of the length -----

  lemma PadAt(payload: Bytes, j: nat)
    requires |payload| <= 248 && HEADER + |payload| + 2 <= j < SIZE
    ensures Image(payload)[j] == 0xff
  {
  }

  predicate Known(t: Byte) {
    t == NAME || t == SN || t == HW_INFO || t == DEV_TYPE
  }

  // Setting fields fails exactly at an unknown type.
  lemma {:induction false} SetsKnown(f: Fan, fs: seq<TypedValue>)
    ensures SetAll(f, fs).Ok? <==> forall i :: 0 <= i < |fs| ==> Known(fs[i].t)
    decreases |fs|
  {
    if fs != [] {
      assert fs == [fs[0]] + fs[1..];
      if Known(fs[0].t) {
        SetsKnown(SetField(f, fs[0].t, fs[0].v).value, fs[1..]);
      }
    }
  }

  // What an image with another low length byte still holds.
  lemma OtherLength(payload: Bytes, x: Byte)
    requires |payload| <= 248
    ensures var d := Image(payload)[5 := x];
            GoodHead(d) && Length(d) == x as nat && At(d, HEADER, payload)
  {
    ImageParts(payload);
    OtherHead(Image(payload), x);
    Elsewhere(Image(payload), 5, x, HEADER, payload);
  }

  lemma OtherHead(r: Bytes, x: Byte)
    requires GoodHead(r) && Length(r) < 256
    ensures r[5] as nat == Length(r) && GoodHead(r[5 := x]) && Length(r[5 := x]) == x as nat
  {
    assert r[5 := x][..4] == r[..4];
  }

  // A change in front of what stands at an index.
  lemma Elsewhere(r: Bytes, i: nat, x: Byte, index: nat, b: Bytes)
    requires i < index && i < |r| && At(r, index, b)
    ensures At(r[i := x], index, b)
  {
    AtSlice(r, index, b);
    assert r[i := x][index..index + |b|] == r[index..index + |b|];
    AtSlice(r[i := x], index, b);
  }

  lemma OtherSum(payload: Bytes, x: Byte, m: nat)
    requires |payload| <= 248 && HEADER <= m <= SIZE
    ensures Sum(Image(payload)[5 := x][..m]) == Sum(Image(payload)[..m]) - |payload| + x as int
  {
    var r := Image(payload);
    ImageParts(payload);
    OtherHead(r, x);
    assert r[5 := x][..m] == r[..m][5 := x];
    SumUpdate(r[..m], 5, x);
  }

  // Two bytes further on the padding would have to be the sum, which is too much for it.
  lemma TooFar(payload: Bytes, x: Byte)
    requires |payload| <= 248 && |payload| + 2 <= x as nat
    ensures !GoodSum(Image(payload)[5 := x])
  {
    var d := Image(payload)[5 := x];
    var end := HEADER + x as nat;
    OtherLength(payload, x);
    if end + 2 <= SIZE {
      PadAt(payload, end);
      PadAt(payload, end + 1);
      SumBound(d[..end]);
    }
  }

  // One byte further on the sum fits only if its high byte is 127, which is no type.
  lemma OneFurther(payload: Bytes, x: Byte)
    requires |payload| <= 248 && |payload| + 1 == x as nat && GoodSum(Image(payload)[5 := x])
    ensures HEADER + |payload| + 2 < SIZE && Image(payload)[HEADER + |payload|] == 127
  {
    var r := Image(payload);
    var n := HEADER + |payload|;
    OtherLength(payload, x);
    OtherSum(payload, x, n + 1);
    ImageParts(payload);
    PadAt(payload, n + 2);
    SumPrefix(r, n);
    OnlySum(r[n] as int, r[n + 1] as int);
  }

  lemma OnlySum(high: int, low: int)
    requires 0 <= high < 256 && 0 <= low < 256 && 256 * high + low + 1 + high == 256 * low + 255
    ensures high == 127
  {
    assert 2 * high == 255 * (low - high) + 254;
  }

  // With its low length byte changed, an image is accepted exactly when the length became shorter and
  // the two bytes found there are the sum of those before them. Then the fields that begin in front
  // of the new end are set.
  lemma LengthDamage(f: Fan, held: Fan, x: Byte)
    requires Encode(f).Ok? && Encode(f).value[5] != x
    ensures var r := Encode(f).value;
            var n, k := Length(r), x as nat;
            && n <= 248
            && (Decode(r[5 := x], held).Ok?
                <==> k < n && Sum(r[..HEADER + k]) - n + k == 256 * r[HEADER + k] as int + r[HEADER + k + 1] as int)
            && (Decode(r[5 := x], held).Ok? ==>
                  var fs := FieldsOf(f, DevBytes(f.devType).value);
                  Decode(r[5 := x], held) == SetAll(held, fs[..Begun(fs, k)]))
  {
    var fs := FieldsOf(f, DevBytes(f.devType).value);
    ImageParts(Tlvs(fs));
    ShortEach(fs);
    if x as nat < |Tlvs(fs)| {
      ShorterAccepted(fs, held, x);
    } else {
      LongerRejected(fs, held, x);
    }
  }

  lemma ShorterAccepted(fs: seq<TypedValue>, held: Fan, x: Byte)
    requires |Tlvs(fs)| <= 248 && AllShort(fs) && x as nat < |Tlvs(fs)| && forall i :: 0 <= i < |fs| ==> Known(fs[i].t)
    ensures var r := Image(Tlvs(fs));
            var n, k := |Tlvs(fs)|, x as nat;
            && (Decode(r[5 := x], held).Ok?
                <==> Sum(r[..HEADER + k]) - n + k == 256 * r[HEADER + k] as int + r[HEADER + k + 1] as int)
            && (Decode(r[5 := x], held).Ok? ==> Decode(r[5 := x], held) == SetAll(held, fs[..Begun(fs, k)]))
  {
    var k := x as nat;
    OtherLength(Tlvs(fs), x);
    OtherSum(Tlvs(fs), x, HEADER + k);
    Standing(Image(Tlvs(fs))[5 := x], HEADER, fs);
    CutShort(Image(Tlvs(fs))[5 := x], held, fs);
  }

  // Whatever stands behind the known fields, a length that ends among them needs only the sum.
  lemma CutShort(d: Bytes, held: Fan, fs: seq<TypedValue>)
    requires HEADER <= |d| && Stand(d, HEADER, fs) && HEADER + Span(fs) + 1 < |d| && Length(d) < Span(fs)
    requires forall i :: 0 <= i < |fs| ==> Known(fs[i].t)
    ensures var r := DecodeFields(d, HEADER, HEADER + Length(d), held);
            r.Ok? && r == SetAll(held, fs[..Begun(fs, Length(d))])
  {
    ParsePrefix(d, HEADER, HEADER + Length(d), fs);
    SetsKnown(held, fs[..Begun(fs, Length(d))]);
  }

  lemma LongerRejected(fs: seq<TypedValue>, held: Fan, x: Byte)
    requires |Tlvs(fs)| <= 248 && |Tlvs(fs)| < x as nat
    ensures Decode(Image(Tlvs(fs))[5 := x], held) == Err
  {
    var d := Image(Tlvs(fs))[5 := x];
    OtherLength(Tlvs(fs), x);
    if |Tlvs(fs)| + 2 <= x as nat {
      TooFar(Tlvs(fs), x);
    } else if GoodSum(d) {
      OneFurther(Tlvs(fs), x);
      ShortEach(fs);
      GoesOn(d, held, fs);
    }
  }

  lemma GoesOn(d: Bytes, held: Fan, fs: seq<TypedValue>)
    requires AllShort(fs) && At(d, HEADER, Tlvs(fs)) && HEADER + |Tlvs(fs)| + 2 < |d| && |Tlvs(fs)| < Length(d)
    requires !Known(d[HEADER + |Tlvs(fs)|])
    ensures DecodeFields(d, HEADER, HEADER + Length(d), held) == Err
  {
    Standing(d, HEADER, fs);
    UnknownBehind(d, HEADER, HEADER + Length(d), fs, HEADER + Span(fs), held);
  }

  // An unknown type right behind the fields is met when the length goes beyond them.
  lemma UnknownBehind(e2: Bytes, index: nat, end: nat, fs: seq<TypedValue>, at: nat, held: Fan)
    requires Stand(e2, index, fs) && at == index + Span(fs) && at < end && at + 2 < |e2| && !Known(e2[at])
    ensures DecodeFields(e2, index, end, held) == Err
  {
    ParseOn(e2, index, end, fs, at);
    UnknownFails(held, fs, Parse(e2, at, end));
  }

  // A loop that goes on visits the fields and then what stands behind them.
  lemma {:induction false} ParseOn(e2: Bytes, index: nat, end: nat, fs: seq<TypedValue>, at: nat)
    requires Stand(e2, index, fs) && at == index + Span(fs) && at < end && at < |e2|
    ensures Parse(e2, index, end) == fs + Parse(e2, at, end)
    decreases |fs|
  {
    if fs == [] {
      assert fs + Parse(e2, at, end) == Parse(e2, at, end);
    } else {
      ParseOn(e2, index + 2 + |fs[0].v|, end, fs[1..], at);
      OneMore(fs, Parse(e2, at, end));
    }
  }

  lemma OneMore(fs: seq<TypedValue>, rest: seq<TypedValue>)
    requires fs != []
    ensures fs + rest == [fs[0]] + (fs[1..] + rest)
  {
  }

  lemma UnknownFails(held: Fan, fs: seq<TypedValue>, rest: seq<TypedValue>)
    requires rest != [] && !Known(rest[0].t)
    ensures SetAll(held, fs + rest) == Err
  {
    assert (fs + rest)[|fs|] == rest[0];
    SetsKnown(held, fs + rest);
  }

  lemma {:induction false} SumOfEight(b: Bytes)
    requires 8 <= |b|
    ensures Sum(b[..8]) == b[0] as int + b[1] as int + b[2] as int + b[3] as int + b[4] as int + b[5] as int
                           + b[6] as int + b[7] as int
  {
    SumPrefix(b, 0);
    SumPrefix(b, 1);
    SumPrefix(b, 2);
    SumPrefix(b, 3);
    SumPrefix(b, 4);
    SumPrefix(b, 5);
    SumPrefix(b, 6);
    SumPrefix(b, 7);
  }

  // The image of a fan whose name begins with the sum of what stands before it, cut to that length:
  // it is accepted, and only the name is set.
  lemma LengthDamageExample(held: Fan)
    ensures var f := Fan([1, 119], [], [], 0);
            Encode(f).Ok? && Encode(f).value[5] != 2 && Decode(Encode(f).value[5 := 2], held)
                                                        == Ok(held.(name := [1, 119]))
  {
    var f := Fan([1, 119], [], [], 0);
    var dev: Bytes := [0, 0, 0, 0];
    assert DevBytes(f.devType) == Ok(dev);
    var payload := Payload(f, dev);
    var rest := Tlvs(FieldsOf(f, dev)[1..]);
    assert payload == [NAME, 2, 1, 119] + rest;
    ExampleLength(f, dev, rest);
    var r := Image(payload);
    ImageParts(payload);
    AtSlice(r, HEADER, payload);
    assert r[6..6 + |payload|] == payload;
    assert r[6] == payload[0] && r[7] == payload[1] && r[8] == payload[2] && r[9] == payload[3];
    assert r[0] == r[..4][0] && r[1] == r[..4][1] && r[2] == r[..4][2] && r[3] == r[..4][3];
    var d := r[5 := 2];
    assert d[..4] == r[..4] && r[4] == 0;
    SumOfEight(d);
    assert GoodSum(d);
    OneFieldOnly(d, held);
  }

  lemma ExampleLength(f: Fan, dev: Bytes, rest: Bytes)
    requires f.sn == [] && f.hwInfo == [] && |dev| == 4 && rest == Tlvs(FieldsOf(f, dev)[1..])
    ensures |rest| == 10
  {
    var fs := FieldsOf(f, dev);
    assert fs[1..] == [fs[1], fs[2], fs[3]] && [fs[1], fs[2], fs[3]][1..] == [fs[2], fs[3]];
    assert [fs[2], fs[3]][1..] == [fs[3]] && [fs[3]][1..] == [];
    assert |Tlvs([fs[3]])| == 6;
    assert |Tlvs([fs[2], fs[3]])| == 8;
  }

  lemma OneFieldOnly(d: Bytes, held: Fan)
    requires |d| == SIZE && d[6] == NAME && d[7] == 2 && d[8] == 1 && d[9] == 119
    ensures DecodeFields(d, HEADER, HEADER + 2, held) == Ok(held.(name := [1, 119]))
  {
    assert Slice(d, 8, 10) == [1, 119];
    assert Parse(d, 10, 8) == [];
    assert Parse(d, 6, 8) == [TypedValue(NAME, [1, 119])];
    SetMore(held, TypedValue(NAME, [1, 119]), []);
    assert [TypedValue(NAME, [1, 119])] + [] == [TypedValue(NAME, [1, 119])];
  }

  // ----- the image byte by byte -----

  // Four bytes of head, the length with its high byte first, the four fields by type, the sum of all
  // bytes before it with its high byte first, and 0xff up to 256 bytes.
  lemma ImageLaidOut(f: Fan)
    requires Encode(f).Ok?
    ensures DevBytes(f.devType).Ok?
    ensures var r, dev := Encode(f).value, DevBytes(f.devType).value;
            var n := 8 + |f.name| + |f.sn| + |f.hwInfo| + |dev|;
            && |r| == 256 && n <= 248
            && r[0] == 0x01 && r[1] == 0x7e && r[2] == 0x01 && r[3] == 0xf1 && r[4] == 0 && r[5] as int == n
            && Stand(r, 6, [TypedValue(0x02, f.name), TypedValue(0x03, f.sn), TypedValue(0x05, f.hwInfo),
                            TypedValue(0x06, dev)])
            && 256 * r[6 + n] as int + r[6 + n + 1] as int == Sum(r[..6 + n])
            && forall i :: 6 + n + 2 <= i < 256 ==> r[i] == 0xff
  {
    var dev := DevBytes(f.devType).value;
    var fs := FieldsOf(f, dev);
    var payload := Payload(f, dev);
    ImageParts(payload);
    ShortEach(fs);
    Standing(Image(payload), HEADER, fs);
    SpanOfFour(f, dev);
    HeadBytes(Image(payload));
    forall i | 6 + |payload| + 2 <= i < 256 ensures Image(payload)[i] == 0xff {
      PadAt(payload, i);
    }
  }

  lemma SpanOfFour(f: Fan, dev: Bytes)
    ensures Span(FieldsOf(f, dev)) == 8 + |f.name| + |f.sn| + |f.hwInfo| + |dev|
  {
    var fs := FieldsOf(f, dev);
    assert fs[1..] == [fs[1], fs[2], fs[3]] && [fs[1], fs[2], fs[3]][1..] == [fs[2], fs[3]];
    assert [fs[2], fs[3]][1..] == [fs[3]] && [fs[3]][1..] == [];
    assert Span([fs[3]]) == 2 + |dev|;
    assert Span([fs[2], fs[3]]) == 2 + |f.hwInfo| + Span([fs[3]]);
  }

  lemma HeadBytes(r: Bytes)
    requires GoodHead(r) && Length(r) <= 248
    ensures r[0] == 0x01 && r[1] == 0x7e && r[2] == 0x01 && r[3] == 0xf1 && r[4] == 0 && r[5] as int == Length(r)
  {
    assert r[0] == r[..4][0] && r[1] == r[..4][1] && r[2] == r[..4][2] && r[3] == r[..4][3];
  }

  // A device type of 32 bits takes four bytes, the high one first, and an image can then be made
  // exactly when the texts leave room for the rest.
  lemma EncodesIff(f: Fan)
    requires f.devType < 0x1_0000_0000
    ensures DevBytes(f.devType).Ok? && |DevBytes(f.devType).value| == 4
            && Number(DevBytes(f.devType).value) == f.devType
    ensures Encode(f).Ok? <==> |f.name| + |f.sn| + |f.hwInfo| <= 236
  {
    var dev := DevBytes(f.devType).value;
    DevBytesBack(f.devType);
    SpanOfFour(f, dev);
    TlvsSpan(FieldsOf(f, dev));
  }

  lemma {:induction false} TlvsSpan(fs: seq<TypedValue>)
    ensures |Tlvs(fs)| == Span(fs)
  {
    if fs != [] {
      TlvsSpan(fs[1..]);
    }
  }
}
