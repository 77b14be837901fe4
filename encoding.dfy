/**
 * What the encoder writes, as functions of the value: the record layouts of
 * `write` and the `encodeX` helpers, the tier choices, the emptiness
 * predicate `skipValue`, and the recursive `EncodeValue`. The encoder in
 * module Encoders is proved to append exactly these bytes.
 */
module Encoding {
  import opened Wrappers
  import opened Tags
  import opened BigEndian
  import opened Reflect

  /** The tier `encodeInt` picks for a signed value. */
  function IntTier(i: int): Width
  {
    if -128 <= i <= 127 then W8
    else if -32768 <= i <= 32767 then W16
    else if -2147483648 <= i <= 2147483647 then W32
    else W64
  }

  /** The tier `encodeUint` picks for an unsigned value. */
  function UintTier(u: nat): Width
  {
    if u <= 255 then W8
    else if u <= 65535 then W16
    else if u <= 4294967295 then W32
    else W64
  }

  /**
   * The tier of a length or count prefix (`encodeString`, `encodeBinary`,
   * `writeArrayType`, `writeObjectType`); there is no 64-bit tier.
   */
  function LenTier(n: nat): Width
  {
    if n <= 255 then W8
    else if n <= 65535 then W16
    else W32
  }

  /** The payload written for a signed value in a tier: its two's complement bytes. */
  function IntPayload(i: int, w: Width): seq<byte>
  {
    ToBE(Unsigned(i, Bytes(w)), Bytes(w))
  }

  /** The big-endian bytes of `uintN(n)`: digits above the tier are dropped. */
  function UintPayload(u: nat, w: Width): seq<byte>
  {
    ToBE(u, Bytes(w))
  }

  function NilRecord(): seq<byte>
  {
    [Tag(KNil)]
  }

  function BoolRecord(b: bool): seq<byte>
  {
    if b then [Tag(KTrue)] else [Tag(KFalse)]
  }

  function IntRecord(i: int): seq<byte>
  {
    [Tag(KInt(IntTier(i)))] + IntPayload(i, IntTier(i))
  }

  function UintRecord(u: nat): seq<byte>
  {
    [Tag(KUint(UintTier(u)))] + UintPayload(u, UintTier(u))
  }

  function TextRecord(s: seq<byte>): seq<byte>
  {
    [Tag(KString(LenTier(|s|)))] + UintPayload(|s|, LenTier(|s|)) + s
  }

  function BinaryRecord(s: seq<byte>): seq<byte>
  {
    [Tag(KBinary(LenTier(|s|)))] + UintPayload(|s|, LenTier(|s|)) + s
  }

  function ArrayHeader(n: nat): seq<byte>
  {
    [Tag(KArray(LenTier(n)))] + UintPayload(n, LenTier(n))
  }

  function ObjectHeader(n: nat): seq<byte>
  {
    [Tag(KObject(LenTier(n)))] + UintPayload(n, LenTier(n))
  }

  /**
   * `skipValue`: the emptiness test that leaves a struct field out of its
   * object. Composite arrays and structs are empty when all their parts are.
   */
  predicate SkipValue(v: Val)
  {
    match v
    case VBool(b) => !b
    case VInt(i) => i == 0
    case VUint(u) => u == 0
    case VString(s) => |s| == 0
    case VSlice(_, items) => |items| == 0
    case VArray(items) => forall i :: 0 <= i < |items| ==> SkipValue(items[i])
    case VMap(_, es) => |es| == 0
    case VStruct(fs) => forall i :: 0 <= i < |fs| ==> SkipValue(fs[i])
    case VPtr(p) => p.None?
    case VIface(d) => d.None?
    case VOther => true
  }

  /**
   * The indices, from i on and in declaration order, of the fields
   * `encodeObject` keeps: exactly those whose value is not empty.
   */
  function Kept(fs: seq<Val>, i: nat): (r: seq<nat>)
    requires i <= |fs|
    decreases |fs| - i
    ensures forall a :: 0 <= a < |r| ==> i <= r[a] < |fs|
  {
    if i == |fs| then []
    else if SkipValue(fs[i]) then Kept(fs, i + 1)
    else [i] + Kept(fs, i + 1)
  }

  /** The fields kept are exactly the non-empty ones from i on, in increasing index order. */
  lemma {:induction false} KeptSpec(fs: seq<Val>, i: nat)
    requires i <= |fs|
    decreases |fs| - i
    ensures forall k :: k in Kept(fs, i) <==> i <= k < |fs| && !SkipValue(fs[k])
    ensures forall a, b :: 0 <= a < b < |Kept(fs, i)| ==> Kept(fs, i)[a] < Kept(fs, i)[b]
  {
    if i < |fs| {
      KeptSpec(fs, i + 1);
      var rest := Kept(fs, i + 1);
      assert forall b :: 0 <= b < |rest| ==> rest[b] in rest;
    }
  }

  /** The bytes written so far and the error that stopped the encoder, if any. */
  datatype EncOut = EncOut(bytes: seq<byte>, err: Option<Error>)

  function Done(bs: seq<byte>): EncOut
  {
    EncOut(bs, None)
  }

  function Fail(e: Error): EncOut
  {
    EncOut([], Some(e))
  }

  /** Bytes written before an encoding step. */
  function Then(prefix: seq<byte>, out: EncOut): EncOut
  {
    EncOut(prefix + out.bytes, out.err)
  }

  /** Two steps in sequence; the second runs only if the first succeeded. */
  function AndThen(first: EncOut, second: EncOut): EncOut
  {
    if first.err.Some? then first else Then(first.bytes, second)
  }

  /**
   * `EncodeValue`: the record of a value of type t. `ro` says the value was
   * reached through an unexported struct field, where `reflect` refuses
   * `Interface()` on arrays, slices and structs with a panic.
   */
  function EncodeValue(h: Hooks, t: Type, v: Val, ro: bool): EncOut
    decreases v, 1
  {
    match v
    case VBool(b) => Done(BoolRecord(b))
    case VInt(i) => Done(IntRecord(i))
    case VUint(u) => Done(UintRecord(u))
    case VString(s) => Done(TextRecord(s))
    case VSlice(_, items) =>
      if ro then Fail(Panic)
      else if t == ByteSlice then Done(BinaryRecord(BytesOf(items)))
      else Then(ArrayHeader(|items|), EncodeItems(h, ElemOf(t), items, 0, ro))
    case VArray(items) =>
      if ro then Fail(Panic)
      else Then(ArrayHeader(|items|), EncodeItems(h, ElemOf(t), items, 0, ro))
    case VMap(_, es) =>
      Then(ObjectHeader(|es|), EncodeEntries(h, KeyOf(t), ElemOf(t), es, 0, ro))
    case VStruct(_) =>
      if ro then Fail(Panic) else EncodeObject(h, t, v)
    case VPtr(None) => Done(NilRecord())
    case VPtr(Some(x)) => EncodeValue(h, ElemOf(t), x, ro)
    case VIface(None) => Done(NilRecord())
    case VIface(Some(d)) => EncodeValue(h, d.typ, d.val, ro)
    case VOther => Done(NilRecord())
  }

  /** The loop of `encodeArray`: the element records from index i on. */
  function EncodeItems(h: Hooks, e: Type, items: seq<Val>, i: nat, ro: bool): EncOut
    requires i <= |items|
    decreases items, |items| - i
  {
    if i == |items| then Done([])
    else AndThen(EncodeValue(h, e, items[i], ro), EncodeItems(h, e, items, i + 1, ro))
  }

  /** The loop of `encodeMap`: key record then element record, entry by entry. */
  function EncodeEntries(h: Hooks, kt: Type, et: Type, es: seq<Entry>, i: nat, ro: bool): EncOut
    requires i <= |es|
    decreases es, |es| - i
  {
    if i == |es| then Done([])
    else AndThen(EncodeEntry(h, kt, et, es[i], ro), EncodeEntries(h, kt, et, es, i + 1, ro))
  }

  function EncodeEntry(h: Hooks, kt: Type, et: Type, en: Entry, ro: bool): EncOut
    decreases en, 0
  {
    AndThen(EncodeValue(h, kt, en.key, ro), EncodeValue(h, et, en.elem, ro))
  }

  /**
   * `encodeObject`: a struct with a `MarshalBinary` method becomes a Binary
   * record of the hook's bytes, or fails with the hook's error having written
   * nothing; any other struct becomes an object of its non-empty fields.
   */
  function EncodeObject(h: Hooks, t: Type, v: Val): EncOut
    requires v.VStruct?
    decreases v, 0
  {
    if t.Struct? && t.marshaler then
      match h.marshal(t, v)
      case Failure(c) => Fail(HookFailed(c))
      case Success(data) => Done(BinaryRecord(data))
    else
      var keep := Kept(v.fields, 0);
      Then(ObjectHeader(|keep|), EncodePairs(h, t, v.fields, keep, 0))
  }

  /** The pair loop of `encodeObject`: a Text key with the field name, then the field's record. */
  function EncodePairs(h: Hooks, t: Type, fs: seq<Val>, keep: seq<nat>, j: nat): EncOut
    requires j <= |keep|
    requires forall k :: 0 <= k < |keep| ==> keep[k] < |fs|
    decreases fs, |keep| - j
  {
    if j == |keep| then Done([])
    else
      var f := FieldAt(t, keep[j]);
      AndThen(Then(TextRecord(f.name), EncodeValue(h, f.typ, fs[keep[j]], !f.exported)),
              EncodePairs(h, t, fs, keep, j + 1))
  }

  /**
   * `Encode(v interface{})`: a nil interface has no type and falls through
   * to the Nil record; otherwise its dynamic value is encoded.
   */
  function Encode(h: Hooks, x: Option<Dyn>): EncOut
  {
    match x
    case None => Done(NilRecord())
    case Some(d) => EncodeValue(h, d.typ, d.val, false)
  }
}
