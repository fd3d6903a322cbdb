/** Packing typed fields into a byte buffer at a caller-kept offset, and back. */
module FieldPacking {
  import opened Foundations
  import opened LittleEndian

  datatype Width = W8 | W16 | W32 | W64

  function Bytes(w: Width): (n: nat)
    ensures n >= 1
  {
    match w case W8 => 1 case W16 => 2 case W32 => 4 case W64 => 8
  }

  /** A type as the caller names it: the pack or unpack function called. */
  datatype Kind = BoolKind | UnsignedKind(width: Width) | SignedKind(width: Width) | RawKind(size: nat)

  datatype Field =
    | BoolField(flag: bool)
    | Unsigned(width: Width, value: nat)
    | Signed(width: Width, number: int)
    | Raw(bytes: seq<Byte>)

  /** The field's value is one its C type can hold. */
  predicate IsField(f: Field) {
    match f
    case BoolField(_) => true
    case Unsigned(w, v) => IsUnsigned(v, Bytes(w))
    case Signed(w, v) => IsSigned(v, Bytes(w))
    case Raw(bytes) => IsSize(|bytes|)
  }

  function KindOf(f: Field): Kind {
    match f
    case BoolField(_) => BoolKind
    case Unsigned(w, _) => UnsignedKind(w)
    case Signed(w, _) => SignedKind(w)
    case Raw(bytes) => RawKind(|bytes|)
  }

  function SizeOf(k: Kind): nat {
    match k
    case BoolKind => 1
    case UnsignedKind(w) => Bytes(w)
    case SignedKind(w) => Bytes(w)
    case RawKind(n) => n
  }

  function EncodeField(f: Field): (bytes: seq<Byte>)
    ensures |bytes| == SizeOf(KindOf(f))
  {
    match f
    case BoolField(b) => [if b then 1 else 0]
    case Unsigned(w, v) => Encode(v, Bytes(w))
    case Signed(w, v) => Encode(v, Bytes(w))
    case Raw(bytes) => bytes
  }

  /** Only the byte 1 reads as true. */
  function DecodeField(k: Kind, bytes: seq<Byte>): Field
    requires |bytes| == SizeOf(k)
  {
    match k
    case BoolKind => BoolField(bytes[0] == 1)
    case UnsignedKind(w) => Unsigned(w, Decode(bytes))
    case SignedKind(w) => Signed(w, ToSigned(Decode(bytes), Bytes(w)))
    case RawKind(_) => Raw(bytes)
  }

  /** The values of each type are those of the C type of its name. */
  lemma FieldRanges(f: Field)
    ensures IsField(f) <==>
              match f
              case BoolField(_) => true
              case Unsigned(W8, v) => v <= 0xFF
              case Unsigned(W16, v) => v <= 0xFFFF
              case Unsigned(W32, v) => v <= 0xFFFF_FFFF
              case Unsigned(W64, v) => v <= 0xFFFF_FFFF_FFFF_FFFF
              case Signed(W8, v) => -0x80 <= v <= 0x7F
              case Signed(W16, v) => -0x8000 <= v <= 0x7FFF
              case Signed(W32, v) => -0x8000_0000 <= v <= 0x7FFF_FFFF
              case Signed(W64, v) => -0x8000_0000_0000_0000 <= v <= 0x7FFF_FFFF_FFFF_FFFF
              case Raw(bytes) => IsSize(|bytes|)
  {
    assert Pow256(2) == 0x1_0000 && Pow256(4) == 0x1_0000_0000;
    assert Pow256(6) == 0x1_0000_0000_0000 && Pow256(8) == 0x1_0000_0000_0000_0000;
  }

  /** Every value comes back from its bytes. */
  lemma FieldRoundTrip(f: Field)
    requires IsField(f)
    ensures DecodeField(KindOf(f), EncodeField(f)) == f
  {
    match f
    case Unsigned(w, v) => DecodeEncode(v, Bytes(w));
    case Signed(w, v) => SignedDecodeEncode(v, Bytes(w));
    case _ =>
  }

  /** Every byte pattern comes back from its value, a flag's only if it is 0 or 1. */
  lemma BytesRoundTrip(k: Kind, bytes: seq<Byte>)
    requires |bytes| == SizeOf(k) && IsSize(|bytes|)
    ensures IsField(DecodeField(k, bytes)) && KindOf(DecodeField(k, bytes)) == k
    ensures EncodeField(DecodeField(k, bytes)) == bytes <==> (k.BoolKind? ==> bytes[0] <= 1)
  {
    match k
    case UnsignedKind(w) => EncodeDecode(bytes);
    case SignedKind(w) => SignedEncodeDecode(bytes);
    case BoolKind =>
      assert bytes == [bytes[0]];
    case RawKind(_) =>
  }

  // ----- bounds -----

  /** The required index is computed in `size_t`; one below the offset means it wrapped. */
  predicate IsWithinBuffer(offset: Size, size: Size, length: Size) {
    var requiredIndex := Wrap(offset + size);
    if requiredIndex < offset then false else requiredIndex <= length
  }

  /** The check is exact, wrap or no wrap. */
  lemma WithinBufferIff(offset: Size, size: Size, length: Size)
    ensures IsWithinBuffer(offset, size, length) <==> offset + size <= length
  {
    var sum: nat := offset as nat + size as nat;
    if sum >= Modulus() {
      ModPeriodic(sum - Modulus(), Modulus());
    }
  }

  // ----- one field -----

  function Put(data: seq<Byte>, offset: nat, bytes: seq<Byte>): (r: seq<Byte>)
    requires offset + |bytes| <= |data|
    ensures |r| == |data|
    ensures r[offset..offset + |bytes|] == bytes
    ensures r[..offset] == data[..offset] && r[offset + |bytes|..] == data[offset + |bytes|..]
  {
    data[..offset] + bytes + data[offset + |bytes|..]
  }

  predicate Packs(f: Field, offset: nat, length: nat) {
    offset + SizeOf(KindOf(f)) <= length && SizeOf(KindOf(f)) > 0
  }

  function PackedCount(f: Field, offset: nat, length: nat): (n: nat)
    ensures n == 0 || offset + n <= length
  {
    if Packs(f, offset, length) then SizeOf(KindOf(f)) else 0
  }

  /** The buffer after one pack call: the field in place, or nothing changed. */
  function PackField(f: Field, offset: nat, data: seq<Byte>): (r: seq<Byte>)
    ensures |r| == |data|
  {
    if Packs(f, offset, |data|) then Put(data, offset, EncodeField(f)) else data
  }

  function UnpackField(k: Kind, offset: nat, data: seq<Byte>): Option<Field> {
    if offset + SizeOf(k) <= |data| && SizeOf(k) > 0
    then Some(DecodeField(k, data[offset..offset + SizeOf(k)]))
    else None
  }

  // ----- a list of fields -----

  function TotalSize(fields: seq<Field>): nat {
    if fields == [] then 0 else SizeOf(KindOf(fields[0])) + TotalSize(fields[1..])
  }

  /** Pack calls back to back, the offset advanced by what each returned. */
  function PackAll(fields: seq<Field>, offset: nat, data: seq<Byte>): (r: seq<Byte>)
    ensures |r| == |data|
    decreases |fields|
  {
    if fields == [] then data
    else PackAll(fields[1..], offset + PackedCount(fields[0], offset, |data|), PackField(fields[0], offset, data))
  }

  predicate AllPacked(fields: seq<Field>, offset: nat, length: nat)
    decreases |fields|
  {
    fields == [] ||
    (&& PackedCount(fields[0], offset, length) != 0
     && AllPacked(fields[1..], offset + PackedCount(fields[0], offset, length), length))
  }

  function KindsOf(fields: seq<Field>): (kinds: seq<Kind>)
    ensures |kinds| == |fields|
  {
    if fields == [] then [] else [KindOf(fields[0])] + KindsOf(fields[1..])
  }

  /** The matching unpack calls, back to back; fails if any of them does. */
  function UnpackAll(kinds: seq<Kind>, offset: nat, data: seq<Byte>): Option<seq<Field>>
    decreases |kinds|
  {
    if kinds == [] then Some([])
    else
      match (UnpackField(kinds[0], offset, data), UnpackAll(kinds[1..], offset + SizeOf(kinds[0]), data))
      case (Some(f), Some(fs)) => Some([f] + fs)
      case _ => None
  }

  /** Every call of the list succeeds exactly when no raw block is empty and the whole
      list, if there is anything in it, fits. */
  lemma {:induction false} AllPackedIff(fields: seq<Field>, offset: nat, length: nat)
    ensures AllPacked(fields, offset, length) <==>
              && (fields == [] || offset + TotalSize(fields) <= length)
              && forall i | 0 <= i < |fields| :: SizeOf(KindOf(fields[i])) > 0
    decreases |fields|
  {
    if fields != [] {
      var n := SizeOf(KindOf(fields[0]));
      assert forall i | 0 <= i < |fields[1..]| :: fields[1..][i] == fields[i + 1];
      if 0 < n && offset + n <= length {
        AllPackedIff(fields[1..], offset + n, length);
        if forall i | 0 <= i < |fields[1..]| :: SizeOf(KindOf(fields[1..][i])) > 0 {
          forall i | 0 <= i < |fields| ensures SizeOf(KindOf(fields[i])) > 0 {
            assert i > 0 ==> fields[i] == fields[1..][i - 1];
          }
        }
      }
    }
  }

  lemma PackAllStep(fields: seq<Field>, offset: nat, data: seq<Byte>)
    requires fields != [] && AllPacked(fields, offset, |data|)
    ensures var n := SizeOf(KindOf(fields[0]));
            && offset + n <= |data| && AllPacked(fields[1..], offset + n, |data|)
            && PackAll(fields, offset, data) == PackAll(fields[1..], offset + n, PackField(fields[0], offset, data))
  {
  }

  /** A write at [offset, mid) followed by one at [mid, end) changes nothing outside. */
  lemma FramesCompose(data: seq<Byte>, first: seq<Byte>, r: seq<Byte>, offset: nat, mid: nat, end: nat)
    requires |data| == |first| == |r| && offset <= mid <= end <= |data|
    requires first[..offset] == data[..offset] && first[mid..] == data[mid..]
    requires r[..mid] == first[..mid] && r[end..] == first[end..]
    ensures r[..offset] == data[..offset] && r[end..] == data[end..]
  {
    assert r[..offset] == r[..mid][..offset] && first[..offset] == first[..mid][..offset];
    assert first[end..] == first[mid..][end - mid..] && data[end..] == data[mid..][end - mid..];
  }

  lemma PackFieldFrame(f: Field, offset: nat, data: seq<Byte>)
    requires Packs(f, offset, |data|)
    ensures var n := SizeOf(KindOf(f));
            var r := PackField(f, offset, data);
            r[..offset] == data[..offset] && r[offset + n..] == data[offset + n..]
  {
  }

  /** Later pack calls never disturb what lies before their offset, and the list writes
      nothing behind its last field. */
  lemma {:induction false} PackedListFrame(fields: seq<Field>, offset: nat, data: seq<Byte>)
    requires AllPacked(fields, offset, |data|) && offset <= |data|
    ensures offset + TotalSize(fields) <= |data|
    ensures var r := PackAll(fields, offset, data);
            && r[..offset] == data[..offset]
            && r[offset + TotalSize(fields)..] == data[offset + TotalSize(fields)..]
    decreases |fields|
  {
    hide EncodeField, KindOf, SizeOf, PackField;
    if fields != [] {
      var n := SizeOf(KindOf(fields[0]));
      var first := PackField(fields[0], offset, data);
      PackAllStep(fields, offset, data);
      PackFieldFrame(fields[0], offset, data);
      PackedListFrame(fields[1..], offset + n, first);
      FramesCompose(data, first, PackAll(fields, offset, data), offset, offset + n, offset + TotalSize(fields));
    }
  }

  /** The first field of a list is still in place when the whole list has been packed. */
  lemma FirstFieldReadsBack(fields: seq<Field>, offset: nat, data: seq<Byte>)
    requires fields != [] && IsField(fields[0])
    requires AllPacked(fields, offset, |data|)
    ensures UnpackField(KindOf(fields[0]), offset, PackAll(fields, offset, data)) == Some(fields[0])
  {
    hide EncodeField, DecodeField, SizeOf, KindOf, IsField, TotalSize;
    var f := fields[0];
    var n := SizeOf(KindOf(f));
    var first, r := PackField(f, offset, data), PackAll(fields, offset, data);
    PackAllStep(fields, offset, data);
    PackedListFrame(fields[1..], offset + n, first);
    assert r[offset..offset + n] == r[..offset + n][offset..];
    assert first[offset..offset + n] == first[..offset + n][offset..];
    FieldRoundTrip(f);
  }

  lemma UnpackAllStep(fields: seq<Field>, offset: nat, data: seq<Byte>)
    requires fields != []
    requires UnpackField(KindOf(fields[0]), offset, data) == Some(fields[0])
    requires UnpackAll(KindsOf(fields[1..]), offset + SizeOf(KindOf(fields[0])), data) == Some(fields[1..])
    ensures UnpackAll(KindsOf(fields), offset, data) == Some(fields)
  {
    hide UnpackField, KindOf, SizeOf;
    assert KindsOf(fields)[1..] == KindsOf(fields[1..]);
    assert fields == [fields[0]] + fields[1..];
  }

  lemma EmptyRoundTrip(offset: nat, data: seq<Byte>)
    ensures UnpackAll(KindsOf([]), offset, PackAll([], offset, data)) == Some([])
  {
  }

  /** Any list of fields that packs is read back whole. */
  lemma {:induction false} ListRoundTrip(fields: seq<Field>, offset: nat, data: seq<Byte>)
    requires AllPacked(fields, offset, |data|)
    requires forall f | f in fields :: IsField(f)
    ensures UnpackAll(KindsOf(fields), offset, PackAll(fields, offset, data)) == Some(fields)
    decreases |fields|
  {
    hide PackAll, PackField, UnpackField, UnpackAll, IsField, AllPacked, SizeOf, KindOf, KindsOf;
    if fields == [] {
      EmptyRoundTrip(offset, data);
    } else {
      PackAllStep(fields, offset, data);
      FirstFieldReadsBack(fields, offset, data);
      ListRoundTrip(fields[1..], offset + SizeOf(KindOf(fields[0])), PackField(fields[0], offset, data));
      UnpackAllStep(fields, offset, PackAll(fields, offset, data));
    }
  }

  // ----- lists with refused fields -----

  /** The fields whose pack call succeeded. */
  function Kept(fields: seq<Field>, offset: nat, length: nat): (kept: seq<Field>)
    ensures forall f | f in kept :: f in fields
    decreases |fields|
  {
    if fields == [] then []
    else
      var n := PackedCount(fields[0], offset, length);
      var rest := Kept(fields[1..], offset + n, length);
      if n == 0 then rest else [fields[0]] + rest
  }

  /** A refused field leaves no trace: the buffer is as if only the kept fields had been
      packed, and all of those are. */
  lemma {:induction false} RefusedFieldsLeaveNoTrace(fields: seq<Field>, offset: nat, data: seq<Byte>)
    ensures AllPacked(Kept(fields, offset, |data|), offset, |data|)
    ensures PackAll(Kept(fields, offset, |data|), offset, data) == PackAll(fields, offset, data)
    decreases |fields|
  {
    hide EncodeField, KindOf, SizeOf, Put;
    if fields != [] {
      var n := PackedCount(fields[0], offset, |data|);
      RefusedFieldsLeaveNoTrace(fields[1..], offset + n, PackField(fields[0], offset, data));
      if n != 0 {
        KeptCons(fields, offset, data);
      }
    }
  }

  lemma KeptCons(fields: seq<Field>, offset: nat, data: seq<Byte>)
    requires fields != [] && PackedCount(fields[0], offset, |data|) != 0
    ensures var n := PackedCount(fields[0], offset, |data|);
            var kept, rest := Kept(fields, offset, |data|), Kept(fields[1..], offset + n, |data|);
            && kept != [] && kept[0] == fields[0] && kept[1..] == rest
  {
  }

  /** Nothing is refused exactly when every call succeeds. */
  lemma {:induction false} KeptIsAllIff(fields: seq<Field>, offset: nat, length: nat)
    ensures Kept(fields, offset, length) == fields <==> AllPacked(fields, offset, length)
    ensures |Kept(fields, offset, length)| <= |fields|
    decreases |fields|
  {
    hide PackedCount;
    if fields != [] {
      var n := PackedCount(fields[0], offset, length);
      KeptIsAllIff(fields[1..], offset + n, length);
      assert fields == [fields[0]] + fields[1..];
      if n != 0 && Kept(fields, offset, length) == fields {
        assert Kept(fields, offset, length)[1..] == Kept(fields[1..], offset + n, length);
      }
    }
  }

  /** Whatever list is packed, whatever its calls return: no byte outside the kept fields
      changes. */
  lemma PackAllFrame(fields: seq<Field>, offset: nat, data: seq<Byte>)
    ensures var end := offset + TotalSize(Kept(fields, offset, |data|));
            forall i | 0 <= i < |data| && !(offset <= i < end) ::
              PackAll(fields, offset, data)[i] == data[i]
  {
    var kept, r := Kept(fields, offset, |data|), PackAll(fields, offset, data);
    RefusedFieldsLeaveNoTrace(fields, offset, data);
    AllPackedIff(kept, offset, |data|);
    if kept != [] {
      var end := offset + TotalSize(kept);
      PackedListFrame(kept, offset, data);
      forall i | 0 <= i < |data| && !(offset <= i < end)
        ensures r[i] == data[i]
      {
        if i < offset {
          assert r[..offset][i] == data[..offset][i];
        } else {
          assert r[end..][i - end] == data[end..][i - end];
        }
      }
    }
  }

  /** And exactly the kept fields are read back. */
  lemma KeptRoundTrip(fields: seq<Field>, offset: nat, data: seq<Byte>)
    requires forall f | f in fields :: IsField(f)
    ensures var kept := Kept(fields, offset, |data|);
            UnpackAll(KindsOf(kept), offset, PackAll(fields, offset, data)) == Some(kept)
  {
    RefusedFieldsLeaveNoTrace(fields, offset, data);
    ListRoundTrip(Kept(fields, offset, |data|), offset, data);
  }
}
