/**
  Typed fields in a byte buffer.

  A field is a little-endian number, a single bit, a byte used as a bool, or the tail of the buffer.
  Signed and floating values are their bit patterns. A field owns the bits it is stored in: writing
  changes no others and reading looks at no others.
*/
module Codec {
  import opened Wrappers

  type Byte = bv8
  type Buffer = seq<Byte>

  datatype FieldType = Bool | I8 | U8 | I16 | U16 | I32 | U32 | I64 | U64 | F32 | F64 | Bytes | Str

  datatype Direction = In | Out

  datatype FieldSpec = FieldSpec(offset: nat, fieldType: FieldType, dir: Direction, bit: Option<nat>)

  datatype TypedValue =
    | VBool(b: bool)
    | VI8(i8: bv8) | VU8(u8: bv8)
    | VI16(i16: bv16) | VU16(u16: bv16)
    | VI32(i32: bv32) | VU32(u32: bv32)
    | VI64(i64: bv64) | VU64(u64: bv64)
    | VF32(f32: bv32) | VF64(f64: bv64)
    | VBytes(bytes: seq<Byte>) | VStr(text: seq<Byte>)

  datatype CodecError = BufferTooSmall | TypeMismatch | BitOutOfRange

  // ---------------------------------------------------------------- little-endian numbers

  function Low8(v: bv32): bv8 {
    (v & 0xFF) as bv8
  }

  function Low16(v: bv32): bv16 {
    (v & 0xFFFF) as bv16
  }

  function Le16(v: bv16): (r: seq<Byte>)
    ensures |r| == 2
  {
    [(v & 0xFF) as bv8, ((v >> 8) & 0xFF) as bv8]
  }

  function Le32(v: bv32): (r: seq<Byte>)
    ensures |r| == 4
  {
    [(v & 0xFF) as bv8, ((v >> 8) & 0xFF) as bv8, ((v >> 16) & 0xFF) as bv8, ((v >> 24) & 0xFF) as bv8]
  }

  function Le64(v: bv64): (r: seq<Byte>)
    ensures |r| == 8
  {
    Le32((v & 0xFFFF_FFFF) as bv32) + Le32(((v >> 32) & 0xFFFF_FFFF) as bv32)
  }

  function From16(b: seq<Byte>): bv16
    requires |b| == 2
  {
    (b[0] as bv16) | ((b[1] as bv16) << 8)
  }

  function From32(b: seq<Byte>): bv32
    requires |b| == 4
  {
    (b[0] as bv32) | ((b[1] as bv32) << 8) | ((b[2] as bv32) << 16) | ((b[3] as bv32) << 24)
  }

  function From64(b: seq<Byte>): bv64
    requires |b| == 8
  {
    (From32(b[..4]) as bv64) | ((From32(b[4..]) as bv64) << 32)
  }

  /** The bytes are the digits of the number in base 256, the least significant first. */
  lemma LittleEndian(b: seq<Byte>)
    requires |b| == 8
    ensures From16(b[..2]) == b[0] as bv16 + 0x100 * b[1] as bv16
    ensures From32(b[..4]) == b[0] as bv32 + 0x100 * b[1] as bv32 + 0x1_0000 * b[2] as bv32 + 0x100_0000 * b[3] as bv32
    ensures From64(b) == From32(b[..4]) as bv64 + 0x1_0000_0000 * From32(b[4..]) as bv64
  {
  }

  lemma LowIs(x: bv32)
    ensures Low8(x) as bv32 == x % 0x100 && Low16(x) as bv32 == x % 0x1_0000
  {
  }

  lemma RoundTrip16(v: bv16)
    ensures From16(Le16(v)) == v
  {
  }

  lemma RoundTrip32(v: bv32)
    ensures From32(Le32(v)) == v
  {
  }

  lemma RoundTrip64(v: bv64)
    ensures From64(Le64(v)) == v
  {
    var lo, hi := (v & 0xFFFF_FFFF) as bv32, ((v >> 32) & 0xFFFF_FFFF) as bv32;
    var b := Le64(v);
    assert b[..4] == Le32(lo) && b[4..] == Le32(hi);
    RoundTrip32(lo);
    RoundTrip32(hi);
  }

  // ---------------------------------------------------------------- single bits

  function Mask(bit: nat): bv8
    requires bit < 8
  {
    1 << bit
  }

  function Bit(x: Byte, bit: nat): bool
    requires bit < 8
  {
    (x >> bit) & 1 != 0
  }

  function WithBit(x: Byte, bit: nat, on: bool): Byte
    requires bit < 8
  {
    if on then x | Mask(bit) else x & !Mask(bit)
  }

  lemma WithBitSets(x: Byte, bit: nat, on: bool, other: nat)
    requires bit < 8 && other < 8
    ensures Bit(WithBit(x, bit, on), other) == if other == bit then on else Bit(x, other)
  {
    if on { SetBit(x, bit, other); } else { ClearBit(x, bit, other); }
  }

  lemma SetBit(x: Byte, bit: nat, other: nat)
    requires bit < 8 && other < 8
    ensures Bit(x | Mask(bit), other) == if other == bit then true else Bit(x, other)
  {
    MaskIs(bit);
    BitIs(x, other);
    BitIs(x | Mask(bit), other);
  }

  lemma ClearBit(x: Byte, bit: nat, other: nat)
    requires bit < 8 && other < 8
    ensures Bit(x & !Mask(bit), other) == if other == bit then false else Bit(x, other)
  {
    MaskIs(bit);
    BitIs(x, other);
    BitIs(x & !Mask(bit), other);
  }

  lemma MaskIs(bit: nat)
    requires bit < 8
    ensures Mask(bit) == Power(bit)
  {
  }

  /** 2 to the given power. */
  function Power(bit: nat): bv8
    requires bit < 8
  {
    match bit
    case 0 => 1
    case 1 => 2
    case 2 => 4
    case 3 => 8
    case 4 => 16
    case 5 => 32
    case 6 => 64
    case 7 => 128
  }

  lemma BitIs(x: Byte, bit: nat)
    requires bit < 8
    ensures Bit(x, bit) == (x & Mask(bit) != 0)
    ensures Mask(bit) == Power(bit)
  {
  }

  lemma SameBitsSameByte(x: Byte, y: Byte)
    requires forall bit | 0 <= bit < 8 :: Bit(x, bit) == Bit(y, bit)
    ensures x == y
  {
    assert Bit(x, 0) == Bit(y, 0) && Bit(x, 1) == Bit(y, 1) && Bit(x, 2) == Bit(y, 2) && Bit(x, 3) == Bit(y, 3);
    assert Bit(x, 4) == Bit(y, 4) && Bit(x, 5) == Bit(y, 5) && Bit(x, 6) == Bit(y, 6) && Bit(x, 7) == Bit(y, 7);
  }

  // ---------------------------------------------------------------- encoding

  predicate IsTail(t: FieldType) {
    t == Bytes || t == Str
  }

  /** Bytes taken by a value of a fixed-size type. */
  function Width(t: FieldType): (w: nat)
    requires !IsTail(t)
    ensures 1 <= w <= 8
  {
    match t
    case Bool => 1
    case I8 => 1
    case U8 => 1
    case I16 => 2
    case U16 => 2
    case I32 => 4
    case U32 => 4
    case F32 => 4
    case I64 => 8
    case U64 => 8
    case F64 => 8
  }

  /** The value as the field's own type; the small integers also accept their 32-bit carriers, truncated. */
  function Coerced(t: FieldType, v: TypedValue): Result<TypedValue, CodecError> {
    match (t, v)
    case (Bool, VBool(_)) => Ok(v)
    case (I8, VI8(_)) => Ok(v)
    case (I8, VI32(x)) => Ok(VI8(Low8(x)))
    case (U8, VU8(_)) => Ok(v)
    case (U8, VU32(x)) => Ok(VU8(Low8(x)))
    case (I16, VI16(_)) => Ok(v)
    case (I16, VI32(x)) => Ok(VI16(Low16(x)))
    case (U16, VU16(_)) => Ok(v)
    case (U16, VU32(x)) => Ok(VU16(Low16(x)))
    case (I32, VI32(_)) => Ok(v)
    case (U32, VU32(_)) => Ok(v)
    case (I64, VI64(_)) => Ok(v)
    case (U64, VU64(_)) => Ok(v)
    case (F32, VF32(_)) => Ok(v)
    case (F64, VF64(_)) => Ok(v)
    case (Bytes, VBytes(_)) => Ok(v)
    case (Str, VStr(_)) => Ok(v)
    case (Str, VBytes(b)) => Ok(VStr(b))
    case (_, _) => Err(TypeMismatch)
  }

  /** The bytes of a value; a bool is a byte of its own here, 0 or 1. */
  function ToBytes(v: TypedValue): seq<Byte> {
    match v
    case VBool(b) => [if b then 1 else 0]
    case VI8(x) => [x]
    case VU8(x) => [x]
    case VI16(x) => Le16(x)
    case VU16(x) => Le16(x)
    case VI32(x) => Le32(x)
    case VU32(x) => Le32(x)
    case VF32(x) => Le32(x)
    case VI64(x) => Le64(x)
    case VU64(x) => Le64(x)
    case VF64(x) => Le64(x)
    case VBytes(b) => b
    case VStr(b) => b
  }

  function FromBytes(t: FieldType, b: seq<Byte>): TypedValue
    requires IsTail(t) || |b| == Width(t)
  {
    match t
    case Bool => VBool(b[0] != 0)
    case I8 => VI8(b[0])
    case U8 => VU8(b[0])
    case I16 => VI16(From16(b))
    case U16 => VU16(From16(b))
    case I32 => VI32(From32(b))
    case U32 => VU32(From32(b))
    case F32 => VF32(From32(b))
    case I64 => VI64(From64(b))
    case U64 => VU64(From64(b))
    case F64 => VF64(From64(b))
    case Bytes => VBytes(b)
    case Str => VStr(b)
  }

  function Put(buf: Buffer, at: nat, bytes: seq<Byte>): (r: Buffer)
    requires at + |bytes| <= |buf|
    ensures |r| == |buf|
    ensures forall k | 0 <= k < |r| :: r[k] == if at <= k < at + |bytes| then bytes[k - at] else buf[k]
  {
    buf[..at] + bytes + buf[at + |bytes|..]
  }

  /** Type first, then room, then the bit number; a bit field keeps the other bits of its byte. */
  function Encode(spec: FieldSpec, v: TypedValue, buf: Buffer): Result<Buffer, CodecError> {
    var own :- Coerced(spec.fieldType, v);
    var bytes := ToBytes(own);
    if spec.offset + |bytes| > |buf| then Err(BufferTooSmall)
    else if spec.fieldType == Bool && spec.bit.Some? then
      if spec.bit.value > 7 then Err(BitOutOfRange)
      else Ok(Put(buf, spec.offset, [WithBit(buf[spec.offset], spec.bit.value, own.b)]))
    else Ok(Put(buf, spec.offset, bytes))
  }

  function Decode(spec: FieldSpec, buf: Buffer): Result<TypedValue, CodecError> {
    if IsTail(spec.fieldType) then
      if spec.offset > |buf| then Err(BufferTooSmall) else Ok(FromBytes(spec.fieldType, buf[spec.offset..]))
    else
      var w := Width(spec.fieldType);
      if spec.offset + w > |buf| then Err(BufferTooSmall)
      else if spec.fieldType == Bool && spec.bit.Some? then
        if spec.bit.value > 7 then Err(BitOutOfRange) else Ok(VBool(Bit(buf[spec.offset], spec.bit.value)))
      else Ok(FromBytes(spec.fieldType, buf[spec.offset..spec.offset + w]))
  }

  /** The encoder on the buffer itself: all or nothing. */
  method EncodeField(spec: FieldSpec, v: TypedValue, buf: array<Byte>) returns (r: Result<(), CodecError>)
    modifies buf
    ensures match Encode(spec, v, old(buf[..]))
            case Ok(after) => r == Ok(()) && buf[..] == after
            case Err(e) => r == Err(e) && buf[..] == old(buf[..])
  {
    hide Le32;
    var own :- Coerced(spec.fieldType, v);
    var bytes := ToBytes(own);
    if spec.offset + |bytes| > buf.Length { return Err(BufferTooSmall); }
    if spec.fieldType == Bool && spec.bit.Some? {
      if spec.bit.value > 7 { return Err(BitOutOfRange); }
      bytes := [WithBit(buf[spec.offset], spec.bit.value, own.b)];
    }
    ghost var before := buf[..];
    for i := 0 to |bytes|
      invariant forall k | 0 <= k < buf.Length ::
          buf[k] == if spec.offset <= k < spec.offset + i then bytes[k - spec.offset] else before[k]
    {
      buf[spec.offset + i] := bytes[i];
    }
    assert buf[..] == Put(before, spec.offset, bytes);
    return Ok(());
  }

  // ---------------------------------------------------------------- round trip and independence

  lemma BytesRoundTrip(t: FieldType, v: TypedValue)
    requires Coerced(t, v) == Ok(v)
    ensures !IsTail(t) ==> |ToBytes(v)| == Width(t)
    ensures FromBytes(t, ToBytes(v)) == v
  {
    hide Le32, From32, Le16, Le64;
    match v
    case VI16(x) => RoundTrip16(x);
    case VU16(x) => RoundTrip16(x);
    case VI32(x) => RoundTrip32(x);
    case VU32(x) => RoundTrip32(x);
    case VF32(x) => RoundTrip32(x);
    case VI64(x) => RoundTrip64(x);
    case VU64(x) => RoundTrip64(x);
    case VF64(x) => RoundTrip64(x);
    case _ =>
  }

  /** The types a value of each kind may be written to. */
  predicate MayCarry(v: TypedValue, t: FieldType) {
    match v
    case VBool(_) => t == Bool
    case VI8(_) => t == I8
    case VU8(_) => t == U8
    case VI16(_) => t == I16
    case VU16(_) => t == U16
    case VI32(_) => t in {I32, I16, I8}
    case VU32(_) => t in {U32, U16, U8}
    case VI64(_) => t == I64
    case VU64(_) => t == U64
    case VF32(_) => t == F32
    case VF64(_) => t == F64
    case VBytes(_) => t in {Bytes, Str}
    case VStr(_) => t == Str
  }

  function BytesNeeded(v: TypedValue, t: FieldType): nat {
    if v.VBytes? then |v.bytes| else if v.VStr? then |v.text| else if IsTail(t) then 0 else Width(t)
  }

  /** Which error an encoding gives: the type is looked at first, then the room, then the bit. */
  lemma EncodeAnswers(spec: FieldSpec, v: TypedValue, buf: Buffer)
    ensures var r := Encode(spec, v, buf);
            if !MayCarry(v, spec.fieldType) then r == Err(TypeMismatch)
            else if spec.offset + BytesNeeded(v, spec.fieldType) > |buf| then r == Err(BufferTooSmall)
            else if v.VBool? && spec.bit.Some? && spec.bit.value >= 8 then r == Err(BitOutOfRange)
            else r.Ok?
  {
    hide Le32, Le16, Le64, WithBit;
    if MayCarry(v, spec.fieldType) {
      var own := Coerced(spec.fieldType, v).value;
      CoercedIsStable(spec.fieldType, v);
      BytesRoundTrip(spec.fieldType, own);
    }
  }

  /** A bool without a bit number is a byte of its own: written as 1 or 0, and read as true unless 0. */
  lemma BoolBytes(spec: FieldSpec, on: bool, buf: Buffer)
    requires spec.fieldType == Bool && spec.bit.None? && spec.offset < |buf|
    ensures Encode(spec, VBool(on), buf) == Ok(buf[spec.offset := if on then 1 else 0])
    ensures Decode(spec, buf) == Ok(VBool(buf[spec.offset] != 0))
  {
    var after := Encode(spec, VBool(on), buf).value;
    assert after == buf[spec.offset := if on then 1 else 0];
  }

  /** Written to a narrower field, a 32-bit integer reads back as its remainder. */
  lemma Narrowed(spec: FieldSpec, v: TypedValue, buf: Buffer)
    requires Encode(spec, v, buf).Ok? && (v.VI32? || v.VU32?)
    ensures var read := Decode(spec, Encode(spec, v, buf).value).value;
            var x := if v.VI32? then v.i32 else v.u32;
            match spec.fieldType
            case I8 => read.VI8? && read.i8 as bv32 == x % 0x100
            case U8 => read.VU8? && read.u8 as bv32 == x % 0x100
            case I16 => read.VI16? && read.i16 as bv32 == x % 0x1_0000
            case U16 => read.VU16? && read.u16 as bv32 == x % 0x1_0000
            case _ => read == v
  {
    hide Encode, Decode, Low8, Low16, ToBytes, BytesNeeded;
    EncodeAnswers(spec, v, buf);
    EncodeDecode(spec, v, buf);
    LowIs(if v.VI32? then v.i32 else v.u32);
  }

  lemma CoercedIsStable(t: FieldType, v: TypedValue)
    requires Coerced(t, v).Ok?
    ensures Coerced(t, Coerced(t, v).value) == Coerced(t, v)
  {
  }

  /** A written field reads back as the value it was given; a tail also shows what lies behind it. */
  lemma EncodeDecode(spec: FieldSpec, v: TypedValue, buf: Buffer)
    requires Encode(spec, v, buf).Ok?
    ensures var after, own := Encode(spec, v, buf).value, Coerced(spec.fieldType, v).value;
            if IsTail(spec.fieldType) then
              spec.offset + |ToBytes(own)| <= |buf|
              && Decode(spec, after) == Ok(FromBytes(spec.fieldType,
                                                     ToBytes(own) + buf[spec.offset + |ToBytes(own)|..]))
            else Decode(spec, after) == Ok(own)
  {
    hide ToBytes;
    var after, own := Encode(spec, v, buf).value, Coerced(spec.fieldType, v).value;
    CoercedIsStable(spec.fieldType, v);
    BytesRoundTrip(spec.fieldType, own);
    if IsTail(spec.fieldType) {
      assert after[spec.offset..] == ToBytes(own) + buf[spec.offset + |ToBytes(own)|..];
    } else if spec.fieldType == Bool && spec.bit.Some? {
      WithBitSets(buf[spec.offset], spec.bit.value, own.b, spec.bit.value);
    } else {
      assert after[spec.offset..spec.offset + Width(spec.fieldType)] == ToBytes(own);
    }
  }

  /** Which bits of the buffer belong to a field. */
  predicate Owns(spec: FieldSpec, k: nat, bit: nat) {
    if IsTail(spec.fieldType) then k >= spec.offset
    else if spec.fieldType == Bool && spec.bit.Some? then k == spec.offset && bit == spec.bit.value
    else spec.offset <= k < spec.offset + Width(spec.fieldType)
  }

  predicate SameBit(a: Buffer, b: Buffer, k: nat, bit: nat)
    requires |a| == |b| && k < |a| && bit < 8
  {
    Bit(a[k], bit) == Bit(b[k], bit)
  }

  /** Writing a field changes none of the bits it does not own. */
  lemma EncodeKeepsOthers(spec: FieldSpec, v: TypedValue, buf: Buffer, k: nat, bit: nat)
    requires Encode(spec, v, buf).Ok? && k < |buf| && bit < 8 && !Owns(spec, k, bit)
    ensures |Encode(spec, v, buf).value| == |buf| && SameBit(Encode(spec, v, buf).value, buf, k, bit)
  {
    var own := Coerced(spec.fieldType, v).value;
    CoercedIsStable(spec.fieldType, v);
    BytesRoundTrip(spec.fieldType, own);
    if spec.fieldType == Bool && spec.bit.Some? && k == spec.offset {
      WithBitSets(buf[k], spec.bit.value, own.b, bit);
    }
  }

  /** Reading a field looks at nothing but the bits it owns. */
  lemma DecodeIsLocal(spec: FieldSpec, a: Buffer, b: Buffer)
    requires |a| == |b|
    requires forall k, bit | 0 <= k < |a| && 0 <= bit < 8 && Owns(spec, k, bit) :: SameBit(a, b, k, bit)
    ensures Decode(spec, a) == Decode(spec, b)
  {
    if spec.fieldType == Bool && spec.bit.Some? {
      if spec.offset < |a| && spec.bit.value < 8 { assert SameBit(a, b, spec.offset, spec.bit.value); }
    } else {
      forall k | spec.offset <= k < |a| && Owns(spec, k, 0) ensures a[k] == b[k] {
        forall bit | 0 <= bit < 8 ensures Bit(a[k], bit) == Bit(b[k], bit) { assert SameBit(a, b, k, bit); }
        SameBitsSameByte(a[k], b[k]);
      }
      if IsTail(spec.fieldType) {
        if spec.offset <= |a| { assert a[spec.offset..] == b[spec.offset..]; }
      } else if spec.offset + Width(spec.fieldType) <= |a| {
        var end := spec.offset + Width(spec.fieldType);
        assert a[spec.offset..end] == b[spec.offset..end];
      }
    }
  }

  ghost predicate Disjoint(s: FieldSpec, t: FieldSpec) {
    forall k: nat, bit: nat :: !(Owns(s, k, bit) && Owns(t, k, bit))
  }

  /** Writing one field leaves the reading of a disjoint one alone. */
  lemma WriteKeepsDisjoint(spec: FieldSpec, v: TypedValue, buf: Buffer, other: FieldSpec)
    requires Encode(spec, v, buf).Ok? && Disjoint(spec, other)
    ensures Decode(other, Encode(spec, v, buf).value) == Decode(other, buf)
  {
    var after := Encode(spec, v, buf).value;
    forall k, bit | 0 <= k < |buf| && 0 <= bit < 8 && Owns(other, k, bit)
      ensures |after| == |buf| && SameBit(after, buf, k, bit)
    {
      EncodeKeepsOthers(spec, v, buf, k, bit);
    }
    DecodeIsLocal(other, after, buf);
  }
}
