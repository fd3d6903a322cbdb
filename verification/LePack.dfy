/** The pack and unpack calls themselves, writing and reading a byte array in place. Each
    width's signed and unsigned pack share one body, as their shifts and masks coincide. */
module LePack {
  import opened Foundations
  import opened LittleEndian
  import opened FieldPacking

  /** Byte `i` of `v`: shift right by 8 * i and mask. */
  function ByteAt(v: int, i: nat): Byte
    requires i < 8
  {
    match i
    case 0 => v % 256
    case 1 => v / 0x100 % 256
    case 2 => v / 0x1_0000 % 256
    case 3 => v / 0x100_0000 % 256
    case 4 => v / 0x1_0000_0000 % 256
    case 5 => v / 0x100_0000_0000 % 256
    case 6 => v / 0x1_0000_0000_0000 % 256
    case 7 => v / 0x100_0000_0000_0000 % 256
  }

  lemma ByteAtShifts(v: int, k: nat)
    requires k < 7
    ensures ByteAt(v / 256, k) == ByteAt(v, k + 1)
  {
  }

  lemma {:induction false} EncodeSnoc(v: int, k: nat)
    requires k < 8
    ensures Encode(v, k + 1) == Encode(v, k) + [ByteAt(v, k)]
    decreases k
  {
    if k > 0 {
      hide ByteAt;
      EncodeSnoc(v / 256, k - 1);
      ByteAtShifts(v, k - 1);
    }
  }

  /** One of a pack function's stores. */
  method StoreByte(value: int, k: nat, offset: nat, data: array<Byte>, ghost before: seq<Byte>)
    requires k < 8 && offset + k < data.Length == |before|
    requires data[..] == Put(before, offset, Encode(value, k))
    modifies data
    ensures data[..] == Put(before, offset, Encode(value, k + 1))
  {
    EncodeSnoc(value, k);
    data[offset + k] := ByteAt(value, k);
    hide Encode, ByteAt;
    assert data[..] == Put(before, offset, Encode(value, k) + [ByteAt(value, k)]);
  }

  /** le_pack_u8 to le_pack_u64 and le_pack_s8 to le_pack_s64. */
  method PackInteger(width: Width, value: int, offset: Size, data: array<Byte>) returns (n: nat)
    requires IsSize(data.Length)
    modifies data
    ensures n == PackedCount(Signed(width, value), offset, data.Length)
    ensures data[..] == PackField(Signed(width, value), offset, old(data[..]))
    ensures n == if offset as nat + Bytes(width) <= data.Length then Bytes(width) else 0
    ensures forall k | 0 <= k < n :: data[offset as nat + k] == value / Pow256(k) % 256
  {
    hide Encode, Put, Pow256;
    ghost var before := data[..];
    SmallSizes();
    WithinBufferIff(offset, Bytes(width), data.Length);
    if !IsWithinBuffer(offset, Bytes(width), data.Length) { return 0; }
    StoreInteger(width, value, offset, data);
    StoredDigits(value, Bytes(width), offset, before);
    return Bytes(width);
  }

  method StoreInteger(width: Width, value: int, offset: nat, data: array<Byte>)
    requires offset + Bytes(width) <= data.Length
    modifies data
    ensures data[..] == Put(old(data[..]), offset, Encode(value, Bytes(width)))
  {
    ghost var before := data[..];
    assert data[..] == Put(before, offset, Encode(value, 0));
    hide Encode, Put;
    StoreByte(value, 0, offset, data, before);
    if width != W8 {
      StoreByte(value, 1, offset, data, before);
      if width != W16 {
        StoreByte(value, 2, offset, data, before);
        StoreByte(value, 3, offset, data, before);
        if width != W32 {
          StoreByte(value, 4, offset, data, before);
          StoreByte(value, 5, offset, data, before);
          StoreByte(value, 6, offset, data, before);
          StoreByte(value, 7, offset, data, before);
        }
      }
    }
  }

  lemma StoredDigits(value: int, n: nat, offset: nat, before: seq<Byte>)
    requires offset + n <= |before|
    ensures forall k | 0 <= k < n :: Put(before, offset, Encode(value, n))[offset + k] == value / Pow256(k) % 256
  {
    forall k | 0 <= k < n
      ensures Put(before, offset, Encode(value, n))[offset + k] == value / Pow256(k) % 256
    {
      EncodeDigits(value, n, k);
    }
  }

  lemma SmallSizes()
    ensures Modulus() > 8
  {
    Pow2Monotone(4, SIZE_BITS);
  }

  /** The shifted bytes added up, for a width of 1, 2, 4 or 8 bytes. */
  function SumShifted(width: Width, b: seq<Byte>): nat
    requires |b| == Bytes(width)
  {
    match width
    case W8 => b[0]
    case W16 => b[0] as int + b[1] as int * 0x100
    case W32 => b[0] as int + b[1] as int * 0x100 + b[2] as int * 0x1_0000 + b[3] as int * 0x100_0000
    case W64 =>
      b[0] as int + b[1] as int * 0x100 + b[2] as int * 0x1_0000 + b[3] as int * 0x100_0000
      + b[4] as int * 0x1_0000_0000 + b[5] as int * 0x100_0000_0000
      + b[6] as int * 0x1_0000_0000_0000 + b[7] as int * 0x100_0000_0000_0000
  }

  lemma SumIsDecode(width: Width, b: seq<Byte>)
    requires |b| == Bytes(width)
    ensures SumShifted(width, b) == Decode(b)
  {
    DecodeFrom(b, 0);
    match width {
      case W8 =>
      case W16 => DecodeFrom(b, 1);
      case W32 => DecodeFrom(b, 1); DecodeFrom(b, 2); DecodeFrom(b, 3);
      case W64 =>
        DecodeFrom(b, 1); DecodeFrom(b, 2); DecodeFrom(b, 3); DecodeFrom(b, 4);
        DecodeFrom(b, 5); DecodeFrom(b, 6); DecodeFrom(b, 7);
    }
    assert Decode(b[|b|..]) == 0;
    assert b[0..] == b;
  }

  lemma DecodeFrom(b: seq<Byte>, i: nat)
    requires i < |b|
    ensures Decode(b[i..]) == b[i] + 256 * Decode(b[i + 1..])
  {
    assert b[i..][1..] == b[i + 1..];
  }

  /** le_unpack_u8 to le_unpack_u64. */
  method UnpackUnsigned(width: Width, offset: Size, data: array<Byte>) returns (n: nat, value: Option<Field>)
    requires IsSize(data.Length)
    ensures value == UnpackField(UnsignedKind(width), offset, data[..])
    ensures n == if value.Some? then Bytes(width) else 0
    ensures value.Some? <==> offset as nat + Bytes(width) <= data.Length
  {
    SmallSizes();
    WithinBufferIff(offset, Bytes(width), data.Length);
    if !IsWithinBuffer(offset, Bytes(width), data.Length) { return 0, None; }
    var bytes := data[offset..offset as nat + Bytes(width)];
    SumIsDecode(width, bytes);
    assert bytes == data[..][offset..offset as nat + Bytes(width)];
    return Bytes(width), Some(Unsigned(width, SumShifted(width, bytes)));
  }

  /** le_unpack_s8 to le_unpack_s64: the sum converted to the signed type. */
  method UnpackSigned(width: Width, offset: Size, data: array<Byte>) returns (n: nat, value: Option<Field>)
    requires IsSize(data.Length)
    ensures value == UnpackField(SignedKind(width), offset, data[..])
    ensures n == if value.Some? then Bytes(width) else 0
    ensures value.Some? <==> offset as nat + Bytes(width) <= data.Length
  {
    SmallSizes();
    WithinBufferIff(offset, Bytes(width), data.Length);
    if !IsWithinBuffer(offset, Bytes(width), data.Length) { return 0, None; }
    var bytes := data[offset..offset as nat + Bytes(width)];
    SumIsDecode(width, bytes);
    assert bytes == data[..][offset..offset as nat + Bytes(width)];
    return Bytes(width), Some(Signed(width, ToSigned(SumShifted(width, bytes), Bytes(width))));
  }

  method PackBool(flag: bool, offset: Size, data: array<Byte>) returns (n: nat)
    requires IsSize(data.Length)
    modifies data
    ensures n == PackedCount(BoolField(flag), offset, data.Length)
    ensures data[..] == PackField(BoolField(flag), offset, old(data[..]))
    ensures n == if offset < data.Length then 1 else 0
    ensures n == 1 ==> data[offset] == if flag then 1 else 0
  {
    SmallSizes();
    WithinBufferIff(offset, 1, data.Length);
    if !IsWithinBuffer(offset, 1, data.Length) { return 0; }
    data[offset] := if flag then 1 else 0;
    return 1;
  }

  method UnpackBool(offset: Size, data: array<Byte>) returns (n: nat, value: Option<Field>)
    requires IsSize(data.Length)
    ensures value == UnpackField(BoolKind, offset, data[..])
    ensures n == if value.Some? then 1 else 0
    ensures value.Some? <==> offset < data.Length
    ensures value.Some? ==> value.value.BoolField? && (value.value.flag <==> data[offset] == 1)
  {
    SmallSizes();
    WithinBufferIff(offset, 1, data.Length);
    if !IsWithinBuffer(offset, 1, data.Length) { return 0, None; }
    return 1, Some(BoolField(data[offset] == 1));
  }

  method PackRaw(raw: seq<Byte>, offset: Size, data: array<Byte>) returns (n: nat)
    requires IsSize(data.Length) && IsSize(|raw|)
    modifies data
    ensures n == PackedCount(Raw(raw), offset, data.Length)
    ensures data[..] == PackField(Raw(raw), offset, old(data[..]))
    ensures n == if offset as nat + |raw| <= data.Length then |raw| else 0
    ensures n > 0 ==> forall k | 0 <= k < n :: data[offset as nat + k] == raw[k]
  {
    WithinBufferIff(offset, |raw|, data.Length);
    if !(IsWithinBuffer(offset, |raw|, data.Length) && |raw| > 0) { return 0; }
    forall i | 0 <= i < |raw| {
      data[offset as nat + i] := raw[i];
    }
    assert data[..] == Put(old(data[..]), offset, raw);
    return |raw|;
  }

  method UnpackRaw(size: Size, offset: Size, data: array<Byte>) returns (n: nat, value: Option<Field>)
    requires IsSize(data.Length)
    ensures value == UnpackField(RawKind(size), offset, data[..])
    ensures n == if value.Some? then size else 0
    ensures value.Some? <==> size > 0 && offset as nat + size as nat <= data.Length
    ensures value.Some? ==> value.value == Raw(data[offset..offset as nat + n])
  {
    WithinBufferIff(offset, size, data.Length);
    if !(IsWithinBuffer(offset, size, data.Length) && size > 0) { return 0, None; }
    var end: nat := offset as nat + size as nat;
    assert data[offset..end] == data[..][offset..end];
    return size, Some(Raw(data[offset..end]));
  }

  /** The pack call for a field's type. */
  method Pack(f: Field, offset: Size, data: array<Byte>) returns (n: nat)
    requires IsSize(data.Length) && IsField(f)
    modifies data
    ensures n == PackedCount(f, offset, data.Length)
    ensures data[..] == PackField(f, offset, old(data[..]))
  {
    match f
    case BoolField(b) => n := PackBool(b, offset, data);
    case Unsigned(w, v) =>
      n := PackInteger(w, v, offset, data);
      assert EncodeField(Unsigned(w, v)) == EncodeField(Signed(w, v));
    case Signed(w, v) => n := PackInteger(w, v, offset, data);
    case Raw(bytes) => n := PackRaw(bytes, offset, data);
  }

  /** The unpack call for a type. */
  method Unpack(kind: Kind, offset: Size, data: array<Byte>) returns (n: nat, value: Option<Field>)
    requires IsSize(data.Length) && IsSize(SizeOf(kind))
    ensures value == UnpackField(kind, offset, data[..])
    ensures n == if value.Some? then SizeOf(kind) else 0
  {
    match kind
    case BoolKind => n, value := UnpackBool(offset, data);
    case UnsignedKind(w) => n, value := UnpackUnsigned(w, offset, data);
    case SignedKind(w) => n, value := UnpackSigned(w, offset, data);
    case RawKind(size) => n, value := UnpackRaw(size, offset, data);
  }

  /** The fields whose count is not 0. */
  function Selected(fields: seq<Field>, counts: seq<nat>): seq<Field>
    requires |fields| == |counts|
  {
    if fields == [] then []
    else
      var last := |fields| - 1;
      Selected(fields[..last], counts[..last]) + if counts[last] != 0 then [fields[last]] else []
  }

  lemma {:induction false} SelectedIsAllIff(fields: seq<Field>, counts: seq<nat>)
    requires |fields| == |counts|
    ensures |Selected(fields, counts)| <= |fields|
    ensures Selected(fields, counts) == fields <==> forall i | 0 <= i < |counts| :: counts[i] != 0
    ensures forall f | f in Selected(fields, counts) :: f in fields
  {
    if fields != [] {
      var last := |fields| - 1;
      var front, before := fields[..last], counts[..last];
      SelectedIsAllIff(front, before);
      assert fields == front + [fields[last]];
      assert counts == before + [counts[last]];
      if Selected(fields, counts) == fields {
        assert Selected(fields, counts)[..last] == Selected(front, before);
      }
    }
  }

  lemma SelectedSnoc(fields: seq<Field>, counts: seq<nat>, f: Field, n: nat)
    requires |fields| == |counts|
    ensures Selected(fields + [f], counts + [n]) == Selected(fields, counts) + if n != 0 then [f] else []
  {
    assert (fields + [f])[..|fields|] == fields && (counts + [n])[..|counts|] == counts;
  }

  lemma SelectedNothing()
    ensures Selected([], []) == []
  {
  }

  lemma KeptNothing(fields: seq<Field>, offset: nat, length: nat)
    requires fields == []
    ensures Kept(fields, offset, length) == []
  {
  }

  lemma PackListStep(rest: seq<Field>, offset: nat, length: nat, front: seq<Field>)
    requires rest != []
    ensures var n := PackedCount(rest[0], offset, length);
            && (n == 0 || n == SizeOf(KindOf(rest[0])))
            && front + Kept(rest, offset, length)
               == front + (if n != 0 then [rest[0]] else []) + Kept(rest[1..], offset + n, length)
  {
  }

  /** Packs a list back to back, advancing the offset by each returned count; `start` may lie
      beyond the buffer. */
  method PackList(fields: seq<Field>, start: Size, data: array<Byte>) returns (counts: seq<nat>)
    requires IsSize(data.Length)
    requires forall f | f in fields :: IsField(f)
    modifies data
    ensures data[..] == PackAll(fields, start, old(data[..]))
    ensures |counts| == |fields|
    ensures (forall i | 0 <= i < |counts| :: counts[i] != 0) <==> AllPacked(fields, start, data.Length)
    ensures forall i | 0 <= i < |counts| :: counts[i] == 0 || counts[i] == SizeOf(KindOf(fields[i]))
    ensures Selected(fields, counts) == Kept(fields, start, data.Length)
  {
    hide PackField, IsField, SizeOf, KindOf, Selected, Kept, PackedCount, AllPacked;
    counts := [];
    SelectedNothing();
    var offset: nat := start;
    while |counts| < |fields|
      invariant |counts| <= |fields| && IsSize(offset)
      invariant PackAll(fields[|counts|..], offset, data[..]) == PackAll(fields, start, old(data[..]))
      invariant forall i | 0 <= i < |counts| :: counts[i] == 0 || counts[i] == SizeOf(KindOf(fields[i]))
      invariant Selected(fields[..|counts|], counts) + Kept(fields[|counts|..], offset, data.Length)
                == Kept(fields, start, data.Length)
    {
      ghost var done, rest := fields[..|counts|], fields[|counts|..];
      assert rest[0] == fields[|counts|] && rest[1..] == fields[|counts| + 1..];
      assert fields[..|counts| + 1] == done + [rest[0]];
      var n := Pack(fields[|counts|], offset, data);
      PackListStep(rest, offset, data.Length, Selected(done, counts));
      SelectedSnoc(done, counts, rest[0], n);
      counts := counts + [n];
      offset := offset + n;
    }
    assert fields[..|fields|] == fields;
    KeptNothing(fields[|fields|..], offset, data.Length);
    SelectedIsAllIff(fields, counts);
    KeptIsAllIff(fields, start, data.Length);
  }

  function Prepend(front: seq<Field>, rest: Option<seq<Field>>): Option<seq<Field>> {
    match rest
    case None => None
    case Some(fields) => Some(front + fields)
  }

  /** Unpacks a list back to back, giving up at the first call that returns 0. */
  method UnpackList(kinds: seq<Kind>, start: Size, data: array<Byte>) returns (fields: Option<seq<Field>>)
    requires IsSize(data.Length)
    requires forall k | k in kinds :: IsSize(SizeOf(k))
    ensures fields == UnpackAll(kinds, start, data[..])
  {
    hide UnpackField, SizeOf;
    var front: seq<Field> := [];
    var offset: nat := start;
    PrependNothing(UnpackAll(kinds, start, data[..]));
    assert kinds[0..] == kinds;
    while |front| < |kinds|
      invariant |front| <= |kinds| && IsSize(offset)
      invariant UnpackAll(kinds, start, data[..]) == Prepend(front, UnpackAll(kinds[|front|..], offset, data[..]))
    {
      ghost var rest := kinds[|front|..];
      assert rest[0] == kinds[|front|] && rest[1..] == kinds[|front| + 1..];
      UnpackFits(kinds[|front|], offset, data[..]);
      var n, value := Unpack(kinds[|front|], offset, data);
      if n == 0 { return None; }
      assert forall fs: seq<Field> :: front + ([value.value] + fs) == front + [value.value] + fs;
      front := front + [value.value];
      offset := offset + n;
    }
    assert front + [] == front;
    return Some(front);
  }

  lemma PrependNothing(rest: Option<seq<Field>>)
    ensures Prepend([], rest) == rest
  {
    if rest.Some? {
      assert [] + rest.value == rest.value;
    }
  }

  lemma UnpackFits(k: Kind, offset: nat, data: seq<Byte>)
    ensures UnpackField(k, offset, data).Some? ==> SizeOf(k) > 0 && offset + SizeOf(k) <= |data|
  {
  }

  /** The calls end to end: what was packed is read back, the whole list when every pack call
      returned a count, and otherwise the fields whose call did. */
  method PackThenUnpack(fields: seq<Field>, start: Size, data: array<Byte>)
    returns (counts: seq<nat>, kept: seq<Field>, back: Option<seq<Field>>)
    requires IsSize(data.Length)
    requires forall f | f in fields :: IsField(f)
    modifies data
    ensures |counts| == |fields|
    ensures kept == Selected(fields, counts) && back == Some(kept)
    ensures (forall i | 0 <= i < |counts| :: counts[i] != 0) <==> back == Some(fields)
  {
    counts := PackList(fields, start, data);
    KeptRoundTrip(fields, start, old(data[..]));
    kept := Selected(fields, counts);
    SelectedIsAllIff(fields, counts);
    SizesOfKinds(kept);
    back := UnpackList(KindsOf(kept), start, data);
  }

  lemma {:induction false} SizesOfKinds(fields: seq<Field>)
    requires forall f | f in fields :: IsField(f)
    ensures forall k | k in KindsOf(fields) :: IsSize(SizeOf(k))
  {
    if fields != [] {
      SmallSizes();
      assert IsField(fields[0]);
      SizesOfKinds(fields[1..]);
    }
  }
}
