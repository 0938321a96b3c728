/**
 The fan TLV object: a 256-cell buffer filled by index, and a decoder that advances an index and
 sets the object's fields
 (device/ragile/x86_64-ragile_ra-b6510-32c-r0/fantlv.py, lines 90-205).
 */
module FanDevice {
  import opened Wrappers
  import opened FruFields
  import opened FanTlv

  // The buffer begins with the bytes written so far, and the rest is as it was made.
  ghost predicate Filled(buffer: seq<Byte>, written: Bytes) {
    && |written| <= |buffer| == SIZE
    && buffer[..|written|] == written
    && forall i :: |written| <= i < SIZE ==> buffer[i] == 0xff
  }

  // Writes bytes at an index, which is where the bytes written so far end.
  method Put(buffer: array<Byte>, index: nat, b: Bytes, ghost written: Bytes) returns (next: nat)
    requires Filled(buffer[..], written) && index == |written| && index + |b| <= SIZE
    modifies buffer
    ensures Filled(buffer[..], written + b) && next == |written + b|
  {
    for i := 0 to |b|
      invariant Filled(buffer[..], written + b[..i])
    {
      ghost var before := written + b[..i];
      assert buffer[..|before|] == before;
      buffer[index + i] := b[i];
      assert written + b[..i + 1] == before + [b[i]];
      assert buffer[..|before| + 1] == before + [b[i]];
    }
    assert b[..|b|] == b;
    next := index + |b|;
  }

  // `fancrc`.
  method SumOf(b: Bytes) returns (sum: nat)
    ensures sum == Sum(b)
  {
    sum := 0;
    for i := 0 to |b|
      invariant sum == Sum(b[..i])
    {
      assert b[..i + 1][..i] == b[..i];
      sum := sum + b[i] as int;
    }
    assert b[..|b|] == b;
  }

  // The fields written one after another.
  method PutFields(buffer: array<Byte>, start: nat, fs: seq<TypedValue>, ghost written: Bytes) returns (index: nat)
    requires Filled(buffer[..], written) && start == |written| && start + |Tlvs(fs)| <= SIZE
    modifies buffer
    ensures Filled(buffer[..], written + Tlvs(fs)) && index == |written + Tlvs(fs)|
    decreases |fs|
  {
    index := start;
    if fs == [] {
      assert written + [] == written;
      return;
    }
    var one := Tlv(fs[0].t, fs[0].v);
    index := Put(buffer, index, one, written);
    index := PutFields(buffer, index, fs[1..], written + one);
    assert (written + one) + Tlvs(fs[1..]) == written + (one + Tlvs(fs[1..]));
  }

  class FanObject {
    var typename: Bytes
    var typesn: Bytes
    var typehwinfo: Bytes
    var typedevtype: nat

    constructor ()
      ensures Value() == Fan([], [], [], 0)
    {
      typename, typesn, typehwinfo, typedevtype := [], [], [], 0;
    }

    function Value(): Fan
      reads this
    {
      Fan(typename, typesn, typehwinfo, typedevtype)
    }

    // `generate_fan_value`.
    method GenerateFanValue() returns (buffer: array<Byte>, ok: bool)
      ensures ok <==> Encode(Value()).Ok?
      ensures ok ==> fresh(buffer) && Encode(Value()) == Ok(buffer[..])
    {
      buffer := new Byte[SIZE](i => 0xff);
      var dev := DevBytes(typedevtype);
      if dev.Err? {
        return buffer, false;
      }
      var fs := FieldsOf(Value(), dev.value);
      TlvsLength(Value(), dev.value);
      var total := |typename| + |typesn| + |typehwinfo| + |dev.value| + 8;
      if total > 248 {
        return buffer, false;
      }
      ghost var payload := Payload(Value(), dev.value);
      ghost var head := headInfo + Two(total);
      var index := Put(buffer, 0, headInfo + Two(total), []);
      assert [] + head == head;
      index := PutFields(buffer, index, fs, head);
      assert head + payload == Checked(payload);
      var crcs := SumOf(buffer[..index]);
      index := Put(buffer, index, Two(crcs), Checked(payload));
      FilledImage(buffer[..], payload);
      ok := true;
    }

    // `decode`: the head and the sum are checked, then the fields are set.
    method DecodeImage(e2: Bytes) returns (ok: bool)
      modifies this
      ensures Decode(e2, old(Value())) == if ok then Ok(Value()) else Err
    {
      ok := CheckImage(e2);
      if ok {
        ok := DecodeLoop(e2, HEADER + Length(e2), DecodeFields(e2, HEADER, HEADER + Length(e2), Value()));
      }
    }

    // The fields are set as the index advances.
    method DecodeLoop(e2: Bytes, end: nat, ghost all: Result<Fan>) returns (ok: bool)
      requires all == DecodeFields(e2, HEADER, end, Value())
      modifies this
      ensures all == if ok then Ok(Value()) else Err
    {
      var index := HEADER;
      while index + 2 < |e2| && index < end
        invariant all == DecodeFields(e2, index, end, Value())
        decreases |e2| - index
      {
        var next := index + 2 + e2[index + 1] as nat;
        SetMore(Value(), TypedValue(e2[index], Slice(e2, index + 2, next)), Parse(e2, next, end));
        ok := Decoder(e2[index], Slice(e2, index + 2, next));
        if !ok {
          return;
        }
        index := next;
      }
      ok := true;
    }

    // `decoder`.
    method Decoder(t: Byte, v: Bytes) returns (ok: bool)
      modifies this
      ensures SetField(old(Value()), t, v) == if ok then Ok(Value()) else Err
    {
      ok := true;
      if t == NAME {
        typename := v;
      } else if t == SN {
        typesn := v;
      } else if t == HW_INFO {
        typehwinfo := v;
      } else if t == DEV_TYPE {
        if v != [] {
          var n := NumberOf(v);
          typedevtype := n;
        }
      } else {
        ok := false;
      }
    }
  }

  // Head, length and sum of an image.
  method CheckImage(e2: Bytes) returns (ok: bool)
    ensures ok <==> GoodHead(e2) && GoodSum(e2)
  {
    if |e2| < HEADER || e2[..4] != headInfo {
      return false;
    }
    var end := HEADER + (256 * e2[4] as nat + e2[5] as nat);
    if |e2| < end + 2 {
      return false;
    }
    var sum := SumOf(e2[..end]);
    ok := sum == 256 * e2[end] as nat + e2[end + 1] as nat;
  }

  method NumberOf(b: Bytes) returns (n: nat)
    ensures n == Number(b)
  {
    n := 0;
    for i := 0 to |b|
      invariant n == Number(b[..i])
    {
      assert b[..i + 1][..i] == b[..i];
      n := 256 * n + b[i] as nat;
    }
    assert b[..|b|] == b;
  }

  lemma TlvsLength(f: Fan, dev: Bytes)
    ensures |Payload(f, dev)| == |f.name| + |f.sn| + |f.hwInfo| + |dev| + 8
  {
    var fs := FieldsOf(f, dev);
    TlvsMore(fs[0], fs[1..]);
    TlvsMore(fs[1], fs[2..]);
    TlvsMore(fs[2], fs[3..]);
    TlvsMore(fs[3], []);
    assert fs == [fs[0]] + fs[1..] && fs[1..] == [fs[1]] + fs[2..] && fs[2..] == [fs[2]] + fs[3..]
           && fs[3..] == [fs[3]] + [];
  }

  lemma TlvsMore(tv: TypedValue, rest: seq<TypedValue>)
    ensures |Tlvs([tv] + rest)| == 2 + |tv.v| + |Tlvs(rest)|
  {
    assert ([tv] + rest)[1..] == rest;
  }

  // A buffer filled with header, payload and sum is the image.
  lemma FilledImage(buffer: seq<Byte>, payload: Bytes)
    requires |payload| <= 248 && Filled(buffer, Checked(payload) + Two(Sum(Checked(payload))))
    ensures buffer == Image(payload)
  {
    SameTail(buffer, Checked(payload), Two(Sum(Checked(payload))), 248 - |payload|);
  }

  lemma SameTail(buffer: seq<Byte>, a: Bytes, b: Bytes, n: nat)
    requires Filled(buffer, a + b) && |a| + |b| + n == SIZE
    ensures buffer == a + (b + Pad(n))
  {
    var w := a + b;
    assert buffer == buffer[..|w|] + buffer[|w|..];
    assert buffer[|w|..] == Pad(n);
    assert a + b + Pad(n) == a + (b + Pad(n));
  }
}
