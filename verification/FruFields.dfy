/**
 The type/length coding of FRU fields and the sealing of an info area
 (device/ragile/x86_64-ragile_ra-b6510-32c-r0/fru.py, lines 28-67, 191-305, 441-495 and 567-621;
 sections 11, 12 and 13 of the IPMI Platform Management FRU Information Storage Definition).
 */
module FruFields {

  import opened Wrappers

  newtype Byte = x: int | 0 <= x < 256
  type Bytes = seq<Byte>

  // A field may be absent; it is then written as a type/length byte of zero.
  type Field = Option<Bytes>

  const END: Byte := 0xc1
  const EXTRAS: nat := 10

  // `FruUtil.getTypeLength`: the two top bits set over the length. Only lengths below 256 give a byte.
  function TypeLength(f: Field): Byte {
    if f.None? then 0 else (0xc0 + |f.value| % 64) as Byte
  }

  // `FruUtil.decodeLength`: the low six bits.
  function DecodeLength(b: Byte): nat {
    b as int % 64
  }

  function EncodeField(f: Field): (r: Bytes)
    ensures r != []
  {
    [TypeLength(f)] + if f.None? then [] else f.value
  }

  function EncodeFields(fs: seq<Field>): Bytes {
    if fs == [] then [] else EncodeField(fs[0]) + EncodeFields(fs[1..])
  }

  // A slice in the source's language ends where the data ends.
  function Slice(data: Bytes, from: nat, to: nat): (r: Bytes)
    requires from <= to
    ensures |r| <= to - from
    ensures to <= |data| ==> r == data[from..to]
  {
    if to <= |data| then data[from..to] else if from <= |data| then data[from..] else []
  }

  // Reads n fields from `index` on; reading a type/length byte past the end raises.
  function DecodeFixed(data: Bytes, index: nat, n: nat): Result<(seq<Field>, nat)>
    decreases n, |data|
  {
    if n == 0 then Ok(([], index))
    else if index >= |data| then Err
    else
      var next := index + DecodeLength(data[index]) + 1;
      match DecodeFixed(data, next, n - 1)
      case Err => Err
      case Ok((fs, end)) => Ok(([Some(Slice(data, index + 1, next))] + fs, end))
  }

  // Reads up to n extra fields, up to the end marker. The product area also stops at an empty field
  // and at the checksum byte.
  function DecodeExtras(data: Bytes, index: nat, n: nat, product: bool, size: nat): Result<seq<Field>>
    decreases n, |data|
  {
    if n == 0 then Ok([])
    else if index >= |data| then Err
    else if data[index] == END || (product && index >= size - 1) then Ok([])
    else
      var length := DecodeLength(data[index]);
      if product && length == 0 then Ok([])
      else
        var next := index + length + 1;
        match DecodeExtras(data, next, n - 1, product, size)
        case Err => Err
        case Ok(fs) => Ok([Some(Slice(data, index + 1, next))] + fs)
  }

  // ----- round trips -----

  // A field that its six length bits describe.
  predicate Fits(f: Field) {
    f.Some? && |f.value| < 64
  }

  // An extra field that is not mistaken for the end marker, or in the product area for the end.
  predicate Plain(f: Field, product: bool) {
    Fits(f) && |f.value| != 1 && (product ==> f.value != [])
  }

  predicate AllFit(fs: seq<Field>) {
    fs == [] || (Fits(fs[0]) && AllFit(fs[1..]))
  }

  predicate AllPlain(fs: seq<Field>, product: bool) {
    fs == [] || (Plain(fs[0], product) && AllPlain(fs[1..], product))
  }

  // The bytes stand in the data at the index.
  predicate At(data: Bytes, index: nat, b: Bytes)
    decreases |b|
  {
    if b == [] then index <= |data| else index < |data| && data[index] == b[0] && At(data, index + 1, b[1..])
  }

  lemma {:induction false} AtSlice(data: Bytes, index: nat, b: Bytes)
    ensures At(data, index, b) <==> index + |b| <= |data| && data[index..index + |b|] == b
    decreases |b|
  {
    if b != [] && index < |data| {
      AtSlice(data, index + 1, b[1..]);
      if index + |b| <= |data| {
        assert data[index..index + |b|] == [data[index]] + data[index + 1..index + |b|];
        assert b == [b[0]] + b[1..];
      }
    }
  }

  // The end marker stands in the data at the index.
  predicate EndsAt(data: Bytes, index: nat) {
    index < |data| - 1 && data[index] == END
  }

  lemma {:induction false} AtSplit(data: Bytes, index: nat, a: Bytes, b: Bytes)
    requires At(data, index, a + b)
    ensures At(data, index, a) && At(data, index + |a|, b)
    decreases |a|
  {
    if a == [] {
      assert a + b == b;
      AtSlice(data, index, b);
    } else {
      assert (a + b)[1..] == a[1..] + b;
      AtSplit(data, index + 1, a[1..], b);
    }
  }

  // One field read back.
  lemma FirstField(data: Bytes, index: nat, f: Field)
    requires At(data, index, EncodeField(f))
    ensures index < |data| && data[index] == TypeLength(f)
    ensures var length := DecodeLength(TypeLength(f));
            && (Some(Slice(data, index + 1, index + length + 1)) == f <==> Fits(f))
            && (Fits(f) ==> index + length + 1 == index + |EncodeField(f)|)
  {
    if f.Some? {
      assert EncodeField(f)[1..] == f.value;
      AtSlice(data, index + 1, f.value);
    }
  }

  // Reading the fixed fields back gives them exactly when each fits its six length bits.
  lemma {:induction false} FixedRoundTrip(data: Bytes, index: nat, fs: seq<Field>)
    requires At(data, index, EncodeFields(fs))
    ensures AllFit(fs) ==> DecodeFixed(data, index, |fs|) == Ok((fs, index + |EncodeFields(fs)|))
    ensures DecodeFixed(data, index, |fs|).Ok? && DecodeFixed(data, index, |fs|).value.0 == fs ==> AllFit(fs)
    decreases |fs|
  {
    if fs != [] {
      var f, rest := fs[0], fs[1..];
      AtSplit(data, index, EncodeField(f), EncodeFields(rest));
      FirstField(data, index, f);
      assert fs == [f] + rest;
      var next := index + DecodeLength(data[index]) + 1;
      var r := DecodeFixed(data, next, |rest|);
      assert r.Ok? ==> DecodeFixed(data, index, |fs|) == Ok(([Some(Slice(data, index + 1, next))] + r.value.0,
                                                             r.value.1));
      if Fits(f) {
        FixedRoundTrip(data, next, rest);
      }
    }
  }

  // Reading the extra fields back gives them exactly when each is plain.
  lemma ExtrasRoundTrip(data: Bytes, index: nat, fs: seq<Field>, n: nat, product: bool)
    requires At(data, index, EncodeFields(fs)) && EndsAt(data, index + |EncodeFields(fs)|) && |fs| <= n
    ensures DecodeExtras(data, index, n, product, |data|) == Ok(fs) <==> AllPlain(fs, product)
  {
    ExtrasUpTo(data, index, index + |EncodeFields(fs)|, fs, n, product);
  }

  lemma {:induction false} ExtrasUpTo(data: Bytes, index: nat, end: nat, fs: seq<Field>, n: nat, product: bool)
    requires At(data, index, EncodeFields(fs)) && end == index + |EncodeFields(fs)| && EndsAt(data, end) && |fs| <= n
    ensures DecodeExtras(data, index, n, product, |data|) == Ok(fs) <==> AllPlain(fs, product)
    decreases |fs|
  {
    if fs == [] {
      NoExtras(data, index, n, product);
    } else {
      var next := ExtrasFirst(data, index, end, fs, n, product);
      if Plain(fs[0], product) {
        ExtrasUpTo(data, next, end, fs[1..], n - 1, product);
      }
    }
  }

  lemma NoExtras(data: Bytes, index: nat, n: nat, product: bool)
    requires EndsAt(data, index)
    ensures DecodeExtras(data, index, n, product, |data|) == Ok([])
  {
  }

  // The first field and the others.
  lemma ExtrasFirst(data: Bytes, index: nat, end: nat, fs: seq<Field>, n: nat, product: bool) returns (next: nat)
    requires At(data, index, EncodeFields(fs)) && end == index + |EncodeFields(fs)| && EndsAt(data, end)
    requires 0 < |fs| <= n
    ensures DecodeExtras(data, index, n, product, |data|) == Ok(fs)
       <==> Plain(fs[0], product) && DecodeExtras(data, next, n - 1, product, |data|) == Ok(fs[1..])
    ensures Plain(fs[0], product) ==> At(data, next, EncodeFields(fs[1..])) && end == next + |EncodeFields(fs[1..])|
  {
    var f, rest := fs[0], fs[1..];
    assert fs == [f] + rest;
    AtSplit(data, index, EncodeField(f), EncodeFields(rest));
    FirstField(data, index, f);
    next := index + DecodeLength(data[index]) + 1;
    ExtrasStep(data, index, n, product, |data|, f, rest, next);
  }

  // One step of the loop: the field, if it is not taken for the end, and the others.
  lemma ExtrasStep(data: Bytes, index: nat, n: nat, product: bool, size: nat, f: Field, rest: seq<Field>, next: nat)
    requires index < |data| && index < size - 1 && 0 < n && data[index] == TypeLength(f)
    requires next == index + DecodeLength(data[index]) + 1
    requires Some(Slice(data, index + 1, next)) == f <==> Fits(f)
    ensures DecodeExtras(data, index, n, product, size) == Ok([f] + rest)
       <==> Plain(f, product) && DecodeExtras(data, next, n - 1, product, size) == Ok(rest)
  {
    var r := DecodeExtras(data, next, n - 1, product, size);
    var v: Field := Some(Slice(data, index + 1, next));
    assert r.Ok? ==> ([v] + r.value == [f] + rest <==> v == f && r.value == rest) by {
      if r.Ok? && [v] + r.value == [f] + rest {
        assert ([v] + r.value)[0] == v && ([v] + r.value)[1..] == r.value && ([f] + rest)[1..] == rest;
      }
    }
  }

  // The decoder gives no more extra fields than there are names for.
  lemma {:induction false} ExtrasBounded(data: Bytes, index: nat, n: nat, product: bool, size: nat)
    ensures var r := DecodeExtras(data, index, n, product, size); r.Ok? ==> |r.value| <= n
    decreases n
  {
    if n != 0 && index < |data| {
      ExtrasBounded(data, index + DecodeLength(data[index]) + 1, n - 1, product, size);
    }
  }

  // ----- sealing an area -----

  function Sum(b: Bytes): nat {
    if b == [] then 0 else Sum(b[..|b| - 1]) + b[|b| - 1] as int
  }

  // `FruUtil.checksum`.
  function Checksum(b: Bytes): Byte {
    ((0x100 - Sum(b) % 0x100) % 0x100) as Byte
  }

  lemma {:induction false} SumSplit(a: Bytes, b: Bytes)
    ensures Sum(a + b) == Sum(a) + Sum(b)
  {
    if b == [] {
      assert a + b == a;
    } else {
      assert (a + b)[..|a + b| - 1] == a + b[..|b| - 1];
      SumSplit(a, b[..|b| - 1]);
    }
  }

  lemma SumPrefix(b: Bytes, k: nat)
    requires k < |b|
    ensures Sum(b[..k + 1]) == Sum(b[..k]) + b[k] as int
  {
    assert b[..k + 1][..k] == b[..k];
  }

  // A checksum byte makes the sum of all bytes zero, and no other byte does.
  lemma ChecksumExact(b: Bytes, c: Byte)
    ensures Sum(b + [c]) % 256 == 0 <==> c == Checksum(b)
  {
    SumSplit(b, [c]);
    assert Sum([c]) == c as int;
    Complement(Sum(b), c as int);
  }

  lemma Complement(s: nat, c: nat)
    requires c < 256
    ensures (s + c) % 256 == 0 <==> c == (0x100 - s % 0x100) % 0x100
  {
    var q, r := s / 256, s % 256;
    assert s + c == 256 * q + (r + c);
    assert (s + c) % 256 == (r + c) % 256;
  }

  // The size of an area whose contents without checksum have the given length.
  function Grown(length: nat, size: nat): nat {
    if length > size - 1 then size + ((length - size) / 8 + 1) * 8 else size
  }

  // The area grows by the fewest steps of eight that leave room for the checksum.
  lemma GrownIsLeast(length: nat, size: nat)
    ensures length < Grown(length, size) && size <= Grown(length, size)
    ensures Grown(length, size) % 8 == size % 8
    ensures forall s: nat :: size <= s && s % 8 == size % 8 && length < s ==> Grown(length, size) <= s
  {
  }

  function Zeros(n: nat): (r: Bytes)
    ensures |r| == n
  {
    seq(n, i => 0)
  }

  // The second byte is set to the size, the contents are padded, and the checksum follows.
  function Seal(body: Bytes, size: nat): Bytes
    requires 2 <= |body| && Grown(|body|, size) / 8 < 256
  {
    var s := Grown(|body|, size);
    GrownIsLeast(|body|, size);
    var padded := [body[0], (s / 8) as Byte] + body[2..] + Zeros(s - 1 - |body|);
    padded + [Checksum(padded)]
  }

  // A sealed area has its size as length and in its second byte, sums to zero, and starts with the
  // body but for that byte.
  lemma SealShape(body: Bytes, size: nat)
    requires 2 <= |body| && Grown(|body|, size) / 8 < 256
    ensures var r := Seal(body, size);
            && |r| == Grown(|body|, size)
            && |body| < |r|
            && r[1] as int == Grown(|body|, size) / 8
            && Sum(r) % 256 == 0
            && r[|r| - 1] == Checksum(r[..|r| - 1])
            && r[..|body|] == body[1 := r[1]]
  {
    var s := Grown(|body|, size);
    GrownIsLeast(|body|, size);
    var padded := [body[0], (s / 8) as Byte] + body[2..] + Zeros(s - 1 - |body|);
    ChecksumExact(padded, Checksum(padded));
    assert Seal(body, size)[..s - 1] == padded;
  }
}
