/**
 * The codec's round trip: for every value whose Go shape survives the wire
 * (no interfaces holding values, no nil that decodes differently, lengths
 * below 2^32, hooks that invert each other), decoding its encoding into a
 * zero destination rebuilds exactly that value and consumes exactly its
 * bytes. The reads are exact in the FullRead mode; as written (SingleRead)
 * they are exact whenever some input follows the record.
 */
module RoundTrip {
  import opened Wrappers
  import opened Tags
  import opened BigEndian
  import opened Reflect
  import opened Encoding
  import opened EncodingFacts
  import opened Decoding

  const Two32: nat := 0x1_0000_0000

  /** bs occurs in data at pos, byte after byte. */
  predicate At(data: seq<byte>, pos: nat, bs: seq<byte>)
    decreases |bs|
  {
    if bs == [] then pos <= |data|
    else pos < |data| && data[pos] == bs[0] && At(data, pos + 1, bs[1..])
  }

  /** Occurring at pos is having the same bytes from pos on. */
  lemma {:induction false} AtSlice(data: seq<byte>, pos: nat, bs: seq<byte>)
    ensures At(data, pos, bs) <==> pos + |bs| <= |data| && data[pos..pos + |bs|] == bs
    decreases |bs|
  {
    if bs != [] {
      AtSlice(data, pos + 1, bs[1..]);
      if pos + |bs| <= |data| {
        assert data[pos..pos + |bs|] == [data[pos]] + data[pos + 1..pos + |bs|];
      }
    }
  }

  /** Reads that end at `end` get all their bytes: always in FullRead, before the end of input in SingleRead. */
  predicate Room(mode: ReadMode, data: seq<byte>, end: nat)
  {
    end <= |data| && (mode == FullRead || end < |data|)
  }

  /** The record of v does not start with the Nil tag. */
  predicate NilFree(v: Val)
  {
    !(v.VPtr? && v.target.None?) && !(v.VIface? && v.dyn.None?) && !v.VOther?
  }

  /**
   * Values that decode back to themselves from a zero destination. Byte
   * slices must be non-nil (an empty one comes back non-nil), other slices
   * nil exactly when empty, maps non-nil; a struct field left out must hold
   * its zero value and a field written must be exported; a pointer's target
   * must not encode as Nil (it would clear the pointer); interfaces must be
   * nil; a struct with `MarshalBinary` needs an `UnmarshalBinary` that takes
   * the bytes back to the value.
   */
  predicate Portable(h: Hooks, t: Type, v: Val)
    decreases v
  {
    match v
    case VBool(_) => t == Bool
    case VInt(i) => t.Int? && ValidBits(t.bits) && FitsInt(i, t.bits)
    case VUint(u) => t.Uint? && ValidBits(t.bits) && FitsUint(u, t.bits)
    case VString(s) => t == String && |s| < Two32
    case VSlice(isNil, items) =>
      t.Slice? && |items| < Two32 &&
      if t.elem == Uint(8) then
        !isNil && forall i :: 0 <= i < |items| ==> items[i].VUint? && items[i].u < 256
      else
        isNil == (|items| == 0) && forall i :: 0 <= i < |items| ==> Portable(h, t.elem, items[i])
    case VArray(items) =>
      t.Array? && t.len == |items| && |items| < Two32 &&
      forall i :: 0 <= i < |items| ==> Portable(h, t.elem, items[i])
    case VMap(isNil, es) =>
      t.Map? && !isNil && |es| < Two32 && DistinctKeys(es) &&
      forall i :: 0 <= i < |es| ==>
        Hashable(es[i].key) && Portable(h, t.key, es[i].key) && Portable(h, t.elem, es[i].elem)
    case VStruct(vs) =>
      t.Struct? && |vs| == |t.fields| &&
      if t.marshaler then
        t.unmarshaler && h.marshal(t, v).Success? && |h.marshal(t, v).value| < Two32 &&
        h.unmarshal(t, Zero(t), h.marshal(t, v).value) == Unmarshaled(v, None)
      else
        |vs| < Two32 &&
        (forall i, j :: 0 <= i < j < |vs| ==> t.fields[i].name != t.fields[j].name) &&
        forall i :: 0 <= i < |vs| ==>
          if SkipValue(vs[i]) then vs[i] == Zero(t.fields[i].typ)
          else t.fields[i].exported && |t.fields[i].name| < Two32 && Portable(h, t.fields[i].typ, vs[i])
    case VPtr(None) => t.Ptr?
    case VPtr(Some(x)) => t.Ptr? && NilFree(x) && Portable(h, t.elem, x)
    case VIface(None) => t.Interface?
    case VIface(Some(d)) => t == Any && KeepsType(d)
    case VOther => t == Other
  }

  /**
   * The dynamic values an empty interface gets back with their type: a bool,
   * an int64, a uint64, a string or a []byte, each on the same terms as
   * outside an interface. The decoder stores every integer as int64 or
   * uint64, every array as []interface{} and every object as
   * map[interface{}]interface{}, so other dynamic types do not survive.
   */
  predicate KeepsType(d: Dyn)
  {
    match d.val
    case VBool(_) => d.typ == Bool
    case VInt(i) => d.typ == Int(64) && FitsInt(i, 64)
    case VUint(u) => d.typ == Uint(64) && FitsUint(u, 64)
    case VString(s) => d.typ == String && |s| < Two32
    case VSlice(isNil, items) =>
      d.typ == ByteSlice && !isNil && |items| < Two32 &&
      forall i :: 0 <= i < |items| ==> items[i].VUint? && items[i].u < 256
    case _ => false
  }

  /**
   * The hypothesis of the round trip: v is portable, its record sits in data
   * at pos, and the reads of the record get all their bytes.
   */
  predicate RecordAt(mode: ReadMode, h: Hooks, t: Type, v: Val, data: seq<byte>, pos: nat)
  {
    Portable(h, t, v) &&
    At(data, pos, EncodeValue(h, t, v, false).bytes) &&
    Room(mode, data, pos + |EncodeValue(h, t, v, false).bytes|)
  }

  /** Packs the hypothesis of the round trip, so that a call states it as one fact. */
  lemma {:induction false} Framed(mode: ReadMode, h: Hooks, t: Type, v: Val, data: seq<byte>, pos: nat, bs: seq<byte>)
    requires Portable(h, t, v) == true
    requires bs == EncodeValue(h, t, v, false).bytes
    requires At(data, pos, bs) == true && Room(mode, data, pos + |bs|)
    ensures RecordAt(mode, h, t, v, data, pos) == true
  {
  }

  lemma {:induction false} AtSplit(data: seq<byte>, pos: nat, a: seq<byte>, b: seq<byte>)
    requires At(data, pos, a + b) == true
    ensures At(data, pos, a) && At(data, pos + |a|, b)
    decreases |a|
  {
    if a == [] {
      assert a + b == b;
    } else {
      assert (a + b)[1..] == a[1..] + b;
      AtSplit(data, pos + 1, a[1..], b);
    }
  }

  /** Two encoding steps in sequence: the first step's bytes come first, then, if it succeeded, the second's. */
  lemma {:induction false} AndThenAt(data: seq<byte>, pos: nat, first: EncOut, second: EncOut)
    requires At(data, pos, AndThen(first, second).bytes) == true
    ensures At(data, pos, first.bytes) && |first.bytes| <= |AndThen(first, second).bytes|
    ensures first.err.None? ==>
      AndThen(first, second) == EncOut(first.bytes + second.bytes, second.err) &&
      At(data, pos + |first.bytes|, second.bytes)
  {
    if first.err.None? {
      AtSplit(data, pos, first.bytes, second.bytes);
    }
  }

  /** Two encoding steps whose first succeeded: the second's bytes follow the first's, and reads up to the end keep their room. */
  lemma {:induction false} AndThenSplit(mode: ReadMode, data: seq<byte>, pos: nat, first: EncOut, second: EncOut)
    requires first.err.None?
    requires At(data, pos, AndThen(first, second).bytes) == true
    requires Room(mode, data, pos + |AndThen(first, second).bytes|)
    ensures AndThen(first, second) == EncOut(first.bytes + second.bytes, second.err)
    ensures |AndThen(first, second).bytes| == |first.bytes| + |second.bytes|
    ensures At(data, pos + |first.bytes|, second.bytes) == true
    ensures Room(mode, data, pos + |first.bytes| + |second.bytes|)
  {
    AtSplit(data, pos, first.bytes, second.bytes);
  }

  lemma {:induction false} NextExact(mode: ReadMode, data: seq<byte>, pos: nat, n: nat)
    requires pos + n <= |data| && Room(mode, data, pos + n)
    ensures Next(mode, data, pos, n) == Chunk(data[pos..pos + n], pos + n, None)
  {
    if mode == SingleRead {
      assert data[pos..pos + n] + Zeros(0) == data[pos..pos + n];
    }
  }

  /** A tag followed by a big-endian header, both where the record says. */
  lemma {:induction false} HeadAt(data: seq<byte>, pos: nat, k: Kind, x: nat, rest: seq<byte>)
    requires Named(k) && x < Pow256(Bytes(TierOf(k)))
    requires At(data, pos, [Tag(k)] + ToBE(x, Bytes(TierOf(k))) + rest) == true
    ensures pos < |data| && Classify(data[pos]) == Some(k)
    ensures ReadHeader(data, pos + 1, TierOf(k)) == Header(x, pos + 1 + Bytes(TierOf(k)), None)
    ensures At(data, pos + 1 + Bytes(TierOf(k)), rest)
  {
    var n := Bytes(TierOf(k));
    ClassifyTag(k);
    AtSplit(data, pos, [Tag(k)] + ToBE(x, n), rest);
    AtSplit(data, pos, [Tag(k)], ToBE(x, n));
    AtSlice(data, pos + 1, ToBE(x, n));
    FromToBEInRange(x, n);
  }

  /** The payload of a sized record, read where it sits, gives exactly its bytes. */
  lemma {:induction false} PayloadAt(mode: ReadMode, data: seq<byte>, q: nat, payload: seq<byte>)
    requires At(data, q, payload) == true && Room(mode, data, q + |payload|)
    ensures Next(mode, data, q, |payload|) == Chunk(payload, q + |payload|, None)
  {
    AtSlice(data, q, payload);
    NextExact(mode, data, q, |payload|);
  }

  /** Decoding into a zero destination of type t at pos rebuilds v and stops at end, without error. */
  predicate Decodes(mode: ReadMode, h: Hooks, t: Type, v: Val, data: seq<byte>, pos: nat, end: nat)
  {
    pos < end <= |data| && DecodeRecord(mode, h, t, Zero(t), data, pos) == Dec(v, end, None)
  }

  /** Tags that are followed by a header. */
  predicate Headed(k: Kind)
  {
    !k.KNil? && !k.KTrue? && !k.KFalse?
  }

  /** The tag dispatch of `DecodeValue` for a tag whose header was read successfully. */
  lemma {:induction false} Dispatch(mode: ReadMode, h: Hooks, t: Type, v: Val, data: seq<byte>, pos: nat, k: Kind, n: nat)
    requires pos < |data| && Classify(data[pos]) == Some(k) && Headed(k)
    requires ReadHeader(data, pos + 1, TierOf(k)) == Header(n, pos + 1 + Bytes(TierOf(k)), None)
    ensures k.KInt? ==> DecodeRecord(mode, h, t, v, data, pos) == Fin(DecodeNumber(t, v, NInt(Signed(n, Bytes(k.w)))), pos + 1 + Bytes(TierOf(k)))
    ensures k.KUint? ==> DecodeRecord(mode, h, t, v, data, pos) == Fin(DecodeNumber(t, v, NUint(n)), pos + 1 + Bytes(TierOf(k)))
    ensures k.KFloat? ==> DecodeRecord(mode, h, t, v, data, pos) == Fin(DecodeNumber(t, v, NFloat), pos + 1 + Bytes(TierOf(k)))
    ensures k.KString? ==> DecodeRecord(mode, h, t, v, data, pos) == DecodeString(mode, t, v, data, pos + 1 + Bytes(TierOf(k)), n)
    ensures k.KBinary? ==> DecodeRecord(mode, h, t, v, data, pos) == DecodeBinary(mode, h, t, v, data, pos + 1 + Bytes(TierOf(k)), n)
    ensures k.KArray? ==> DecodeRecord(mode, h, t, v, data, pos) == DecodeArray(mode, h, t, v, data, pos + 1 + Bytes(TierOf(k)), n)
    ensures k.KObject? ==> DecodeRecord(mode, h, t, v, data, pos) == DecodeObject(mode, h, t, v, data, pos + 1 + Bytes(TierOf(k)), n)
  {
    if k.KInt? {
      DispatchInt(mode, h, t, v, data, pos, k, n);
    } else if k.KUint? {
      DispatchUint(mode, h, t, v, data, pos, k, n);
    } else if k.KFloat? {
      DispatchFloat(mode, h, t, v, data, pos, k, n);
    } else if k.KString? {
      DispatchString(mode, h, t, v, data, pos, k, n);
    } else if k.KBinary? {
      DispatchBinary(mode, h, t, v, data, pos, k, n);
    } else if k.KArray? {
      DispatchArray(mode, h, t, v, data, pos, k, n);
    } else if k.KObject? {
      DispatchObject(mode, h, t, v, data, pos, k, n);
    }
  }

  lemma {:induction false} DispatchInt(mode: ReadMode, h: Hooks, t: Type, v: Val, data: seq<byte>, pos: nat, k: Kind, n: nat)
    requires pos < |data| && Classify(data[pos]) == Some(k) && k.KInt?
    requires ReadHeader(data, pos + 1, TierOf(k)) == Header(n, pos + 1 + Bytes(TierOf(k)), None)
    ensures DecodeRecord(mode, h, t, v, data, pos) == Fin(DecodeNumber(t, v, NInt(Signed(n, Bytes(k.w)))), pos + 1 + Bytes(TierOf(k)))
  {
  }

  lemma {:induction false} DispatchUint(mode: ReadMode, h: Hooks, t: Type, v: Val, data: seq<byte>, pos: nat, k: Kind, n: nat)
    requires pos < |data| && Classify(data[pos]) == Some(k) && k.KUint?
    requires ReadHeader(data, pos + 1, TierOf(k)) == Header(n, pos + 1 + Bytes(TierOf(k)), None)
    ensures DecodeRecord(mode, h, t, v, data, pos) == Fin(DecodeNumber(t, v, NUint(n)), pos + 1 + Bytes(TierOf(k)))
  {
  }

  lemma {:induction false} DispatchFloat(mode: ReadMode, h: Hooks, t: Type, v: Val, data: seq<byte>, pos: nat, k: Kind, n: nat)
    requires pos < |data| && Classify(data[pos]) == Some(k) && k.KFloat?
    requires ReadHeader(data, pos + 1, TierOf(k)) == Header(n, pos + 1 + Bytes(TierOf(k)), None)
    ensures DecodeRecord(mode, h, t, v, data, pos) == Fin(DecodeNumber(t, v, NFloat), pos + 1 + Bytes(TierOf(k)))
  {
  }

  lemma {:induction false} DispatchString(mode: ReadMode, h: Hooks, t: Type, v: Val, data: seq<byte>, pos: nat, k: Kind, n: nat)
    requires pos < |data| && Classify(data[pos]) == Some(k) && k.KString?
    requires ReadHeader(data, pos + 1, TierOf(k)) == Header(n, pos + 1 + Bytes(TierOf(k)), None)
    ensures DecodeRecord(mode, h, t, v, data, pos) == DecodeString(mode, t, v, data, pos + 1 + Bytes(TierOf(k)), n)
  {
  }

  lemma {:induction false} DispatchBinary(mode: ReadMode, h: Hooks, t: Type, v: Val, data: seq<byte>, pos: nat, k: Kind, n: nat)
    requires pos < |data| && Classify(data[pos]) == Some(k) && k.KBinary?
    requires ReadHeader(data, pos + 1, TierOf(k)) == Header(n, pos + 1 + Bytes(TierOf(k)), None)
    ensures DecodeRecord(mode, h, t, v, data, pos) == DecodeBinary(mode, h, t, v, data, pos + 1 + Bytes(TierOf(k)), n)
  {
  }

  lemma {:induction false} DispatchArray(mode: ReadMode, h: Hooks, t: Type, v: Val, data: seq<byte>, pos: nat, k: Kind, n: nat)
    requires pos < |data| && Classify(data[pos]) == Some(k) && k.KArray?
    requires ReadHeader(data, pos + 1, TierOf(k)) == Header(n, pos + 1 + Bytes(TierOf(k)), None)
    ensures DecodeRecord(mode, h, t, v, data, pos) == DecodeArray(mode, h, t, v, data, pos + 1 + Bytes(TierOf(k)), n)
  {
  }

  lemma {:induction false} DispatchObject(mode: ReadMode, h: Hooks, t: Type, v: Val, data: seq<byte>, pos: nat, k: Kind, n: nat)
    requires pos < |data| && Classify(data[pos]) == Some(k) && k.KObject?
    requires ReadHeader(data, pos + 1, TierOf(k)) == Header(n, pos + 1 + Bytes(TierOf(k)), None)
    ensures DecodeRecord(mode, h, t, v, data, pos) == DecodeObject(mode, h, t, v, data, pos + 1 + Bytes(TierOf(k)), n)
  {
  }

  /** A decode that succeeds under a headed tag has read its header. */
  lemma {:induction false} HeaderRead(mode: ReadMode, h: Hooks, t: Type, v: Val, data: seq<byte>, pos: nat, k: Kind)
    requires pos < |data| && Classify(data[pos]) == Some(k) && Headed(k)
    requires DecodeRecord(mode, h, t, v, data, pos).err.None?
    ensures ReadHeader(data, pos + 1, TierOf(k)).err.None?
  {
  }

  lemma {:induction false} FitsWider(i: int, bits: nat)
    requires ValidBits(bits) && FitsInt(i, bits)
    ensures FitsInt(i, 64)
  {
    ModulusValues();
  }

  lemma {:induction false} FitsWiderUint(u: nat, bits: nat)
    requires ValidBits(bits) && FitsUint(u, bits)
    ensures FitsUint(u, 64)
  {
    ModulusValues();
  }

  lemma {:induction false} RoundTripBool(mode: ReadMode, h: Hooks, b: bool, data: seq<byte>, pos: nat)
    requires At(data, pos, BoolRecord(b)) == true
    ensures Decodes(mode, h, Bool, VBool(b), data, pos, pos + 1)
  {
    var k := if b then KTrue else KFalse;
    ClassifyTag(k);
    assert data[pos] == Tag(k);
  }

  lemma {:induction false} RoundTripNil(mode: ReadMode, h: Hooks, t: Type, data: seq<byte>, pos: nat)
    requires t.Ptr? || t.Interface? || t.Other?
    requires At(data, pos, NilRecord()) == true
    ensures Decodes(mode, h, t, Zero(t), data, pos, pos + 1)
  {
    ClassifyTag(KNil);
    assert data[pos] == Tag(KNil);
  }

  lemma {:induction false} RoundTripInt(mode: ReadMode, h: Hooks, t: Type, i: int, data: seq<byte>, pos: nat)
    requires t.Int? && ValidBits(t.bits) && FitsInt(i, t.bits)
    requires At(data, pos, IntRecord(i)) == true
    ensures Decodes(mode, h, t, VInt(i), data, pos, pos + |IntRecord(i)|)
  {
    FitsWider(i, t.bits);
    var k := KInt(IntTier(i));
    var n := Bytes(TierOf(k));
    IntTierMinimal(i);
    var u := Unsigned(i, n);
    assert IntRecord(i) == [Tag(k)] + ToBE(u, n) + [];
    HeadAt(data, pos, k, u, []);
    Dispatch(mode, h, t, Zero(t), data, pos, k, u);
    SignedUnsigned(i, n);
  }

  lemma {:induction false} RoundTripUint(mode: ReadMode, h: Hooks, t: Type, u: nat, data: seq<byte>, pos: nat)
    requires t.Uint? && ValidBits(t.bits) && FitsUint(u, t.bits)
    requires At(data, pos, UintRecord(u)) == true
    ensures Decodes(mode, h, t, VUint(u), data, pos, pos + |UintRecord(u)|)
  {
    FitsWiderUint(u, t.bits);
    var k := KUint(UintTier(u));
    UintTierMinimal(u);
    assert UintRecord(u) == [Tag(k)] + ToBE(u, Bytes(TierOf(k))) + [];
    HeadAt(data, pos, k, u, []);
    Dispatch(mode, h, t, Zero(t), data, pos, k, u);
  }

  lemma {:induction false} RoundTripString(mode: ReadMode, h: Hooks, s: seq<byte>, data: seq<byte>, pos: nat)
    requires |s| < Two32
    requires At(data, pos, TextRecord(s)) == true && Room(mode, data, pos + |TextRecord(s)|)
    ensures Decodes(mode, h, String, VString(s), data, pos, pos + |TextRecord(s)|)
  {
    var k := KString(LenTier(|s|));
    LenTierMinimal(|s|);
    assert TextRecord(s) == [Tag(k)] + ToBE(|s|, Bytes(TierOf(k))) + s;
    HeadAt(data, pos, k, |s|, s);
    PayloadAt(mode, data, pos + 1 + Bytes(TierOf(k)), s);
    Dispatch(mode, h, String, Zero(String), data, pos, k, |s|);
  }

  lemma {:induction false} BytesValOf(items: seq<Val>)
    requires forall i :: 0 <= i < |items| ==> items[i].VUint? && items[i].u < 256
    ensures BytesVal(BytesOf(items)) == VSlice(false, items)
  {
  }

  lemma {:induction false} RoundTripBytes(mode: ReadMode, h: Hooks, items: seq<Val>, data: seq<byte>, pos: nat)
    requires |items| < Two32
    requires forall i :: 0 <= i < |items| ==> items[i].VUint? && items[i].u < 256
    requires At(data, pos, BinaryRecord(BytesOf(items))) == true
    requires Room(mode, data, pos + |BinaryRecord(BytesOf(items))|)
    ensures Decodes(mode, h, ByteSlice, VSlice(false, items), data, pos, pos + |BinaryRecord(BytesOf(items))|)
  {
    var s := BytesOf(items);
    var k := KBinary(LenTier(|s|));
    LenTierMinimal(|s|);
    assert BinaryRecord(s) == [Tag(k)] + ToBE(|s|, Bytes(TierOf(k))) + s;
    HeadAt(data, pos, k, |s|, s);
    PayloadAt(mode, data, pos + 1 + Bytes(TierOf(k)), s);
    Dispatch(mode, h, ByteSlice, Zero(ByteSlice), data, pos, k, |s|);
    BytesValOf(items);
  }

  /**
   * An empty interface holding a bool, an int64, a uint64, a string or a
   * []byte gets back the same dynamic type: these are the types the decoder
   * chooses for the records that such values write.
   */
  lemma {:induction false} RoundTripIface(mode: ReadMode, h: Hooks, t: Type, v: Val, data: seq<byte>, pos: nat)
    requires RecordAt(mode, h, t, v, data, pos) == true && v.VIface? && v.dyn.Some?
    ensures EncodeValue(h, t, v, false).err.None?
    ensures Decodes(mode, h, t, v, data, pos, pos + |EncodeValue(h, t, v, false).bytes|) == true
  {
    var d := v.dyn.value;
    assert t == Any && KeepsType(d);
    assert EncodeValue(h, t, v, false) == EncodeValue(h, d.typ, d.val, false);
    if d.val.VBool? {
      IfaceBool(mode, h, d.val.b, data, pos);
    } else if d.val.VInt? {
      IfaceInt(mode, h, d.val.i, data, pos);
    } else if d.val.VUint? {
      IfaceUint(mode, h, d.val.u, data, pos);
    } else if d.val.VString? {
      IfaceString(mode, h, d.val.s, data, pos);
    } else {
      assert d.val.VSlice? && d.typ == ByteSlice;
      IfaceBytes(mode, h, d.val.items, data, pos);
    }
  }

  lemma {:induction false} IfaceBool(mode: ReadMode, h: Hooks, b: bool, data: seq<byte>, pos: nat)
    requires At(data, pos, BoolRecord(b)) == true
    ensures Decodes(mode, h, Any, VIface(Some(Dyn(Bool, VBool(b)))), data, pos, pos + 1)
  {
    var k := if b then KTrue else KFalse;
    ClassifyTag(k);
    assert data[pos] == Tag(k);
  }

  lemma {:induction false} IfaceInt(mode: ReadMode, h: Hooks, i: int, data: seq<byte>, pos: nat)
    requires FitsInt(i, 64)
    requires At(data, pos, IntRecord(i)) == true
    ensures Decodes(mode, h, Any, VIface(Some(Dyn(Int(64), VInt(i)))), data, pos, pos + |IntRecord(i)|)
  {
    var k := KInt(IntTier(i));
    var n := Bytes(TierOf(k));
    IntTierMinimal(i);
    var u := Unsigned(i, n);
    assert IntRecord(i) == [Tag(k)] + ToBE(u, n) + [];
    HeadAt(data, pos, k, u, []);
    Dispatch(mode, h, Any, VIface(None), data, pos, k, u);
    SignedUnsigned(i, n);
  }

  lemma {:induction false} IfaceUint(mode: ReadMode, h: Hooks, u: nat, data: seq<byte>, pos: nat)
    requires FitsUint(u, 64)
    requires At(data, pos, UintRecord(u)) == true
    ensures Decodes(mode, h, Any, VIface(Some(Dyn(Uint(64), VUint(u)))), data, pos, pos + |UintRecord(u)|)
  {
    var k := KUint(UintTier(u));
    UintTierMinimal(u);
    assert UintRecord(u) == [Tag(k)] + ToBE(u, Bytes(TierOf(k))) + [];
    HeadAt(data, pos, k, u, []);
    Dispatch(mode, h, Any, VIface(None), data, pos, k, u);
  }

  lemma {:induction false} IfaceString(mode: ReadMode, h: Hooks, s: seq<byte>, data: seq<byte>, pos: nat)
    requires |s| < Two32
    requires At(data, pos, TextRecord(s)) == true && Room(mode, data, pos + |TextRecord(s)|)
    ensures Decodes(mode, h, Any, VIface(Some(Dyn(String, VString(s)))), data, pos, pos + |TextRecord(s)|)
  {
    var k := KString(LenTier(|s|));
    LenTierMinimal(|s|);
    assert TextRecord(s) == [Tag(k)] + ToBE(|s|, Bytes(TierOf(k))) + s;
    HeadAt(data, pos, k, |s|, s);
    PayloadAt(mode, data, pos + 1 + Bytes(TierOf(k)), s);
    Dispatch(mode, h, Any, VIface(None), data, pos, k, |s|);
  }

  lemma {:induction false} IfaceBytes(mode: ReadMode, h: Hooks, items: seq<Val>, data: seq<byte>, pos: nat)
    requires |items| < Two32
    requires forall i :: 0 <= i < |items| ==> items[i].VUint? && items[i].u < 256
    requires At(data, pos, BinaryRecord(BytesOf(items))) == true
    requires Room(mode, data, pos + |BinaryRecord(BytesOf(items))|)
    ensures Decodes(mode, h, Any, VIface(Some(Dyn(ByteSlice, VSlice(false, items)))), data, pos, pos + |BinaryRecord(BytesOf(items))|)
  {
    var s := BytesOf(items);
    var k := KBinary(LenTier(|s|));
    LenTierMinimal(|s|);
    assert BinaryRecord(s) == [Tag(k)] + ToBE(|s|, Bytes(TierOf(k))) + s;
    HeadAt(data, pos, k, |s|, s);
    PayloadAt(mode, data, pos + 1 + Bytes(TierOf(k)), s);
    Dispatch(mode, h, Any, VIface(None), data, pos, k, |s|);
    BytesValOf(items);
  }

  lemma {:induction false} RoundTripHook(mode: ReadMode, h: Hooks, t: Type, v: Val, data: seq<byte>, pos: nat)
    requires RecordAt(mode, h, t, v, data, pos) == true && v.VStruct? && t.marshaler
    ensures EncodeValue(h, t, v, false).err.None?
    ensures Decodes(mode, h, t, v, data, pos, pos + |EncodeValue(h, t, v, false).bytes|)
  {
    var s := h.marshal(t, v).value;
    var k := KBinary(LenTier(|s|));
    LenTierMinimal(|s|);
    assert EncodeValue(h, t, v, false).bytes == BinaryRecord(s) == [Tag(k)] + ToBE(|s|, Bytes(TierOf(k))) + s;
    HeadAt(data, pos, k, |s|, s);
    PayloadAt(mode, data, pos + 1 + Bytes(TierOf(k)), s);
    Dispatch(mode, h, t, Zero(t), data, pos, k, |s|);
  }

  /** Every record of a value that is not nil-like starts with a known tag other than Nil. */
  lemma {:induction false} FirstTag(h: Hooks, t: Type, v: Val)
    requires Portable(h, t, v) == true && NilFree(v)
    decreases v
    ensures var bs := EncodeValue(h, t, v, false).bytes;
      |bs| > 0 && Classify(bs[0]).Some? && Classify(bs[0]) != Some(KNil)
  {
    match v
    case VBool(b) =>
      ClassifyTag(if b then KTrue else KFalse);
    case VInt(i) =>
      ClassifyTag(KInt(IntTier(i)));
    case VUint(u) =>
      ClassifyTag(KUint(UintTier(u)));
    case VString(s) =>
      ClassifyTag(KString(LenTier(|s|)));
    case VSlice(_, items) =>
      if t == ByteSlice {
        ClassifyTag(KBinary(LenTier(|items|)));
      } else {
        ClassifyTag(KArray(LenTier(|items|)));
      }
    case VArray(items) =>
      ClassifyTag(KArray(LenTier(|items|)));
    case VMap(_, es) =>
      ClassifyTag(KObject(LenTier(|es|)));
    case VStruct(vs) =>
      if t.marshaler {
        ClassifyTag(KBinary(LenTier(|h.marshal(t, v).value|)));
      } else {
        ClassifyTag(KObject(LenTier(|Kept(vs, 0)|)));
      }
    case VPtr(p) =>
      FirstTag(h, t.elem, p.value);
    case VIface(d) =>
      var x := d.value;
      assert EncodeValue(h, t, v, false) == EncodeValue(h, x.typ, x.val, false);
      if x.val.VBool? {
        ClassifyTag(if x.val.b then KTrue else KFalse);
      } else if x.val.VInt? {
        ClassifyTag(KInt(IntTier(x.val.i)));
      } else if x.val.VUint? {
        ClassifyTag(KUint(UintTier(x.val.u)));
      } else if x.val.VString? {
        ClassifyTag(KString(LenTier(|x.val.s|)));
      } else {
        assert x.val.VSlice? && x.typ == ByteSlice;
        ClassifyTag(KBinary(LenTier(|x.val.items|)));
      }
  }

  /** Under a headed tag, decoding into a pointer is decoding into its pointee. */
  lemma {:induction false} PtrHeaded(mode: ReadMode, h: Hooks, e: Type, p: Val, data: seq<byte>, pos: nat, k: Kind, x: Val, end: nat)
    requires pos < |data| && Classify(data[pos]) == Some(k) && Headed(k)
    requires DecodeRecord(mode, h, e, Pointee(Ptr(e), p), data, pos) == Dec(x, end, None)
    ensures DecodeRecord(mode, h, Ptr(e), p, data, pos) == Dec(VPtr(Some(x)), end, None)
  {
    HeaderRead(mode, h, e, Pointee(Ptr(e), p), data, pos, k);
    var n := ReadHeader(data, pos + 1, TierOf(k)).value;
    Dispatch(mode, h, e, Pointee(Ptr(e), p), data, pos, k, n);
    Dispatch(mode, h, Ptr(e), p, data, pos, k, n);
  }

  /**
   * Pointer destinations are transparent: under any known tag other than Nil,
   * a successful decode into a pointer is the decode into its pointee (the
   * current one, or a fresh zero value that `indirect` allocates).
   */
  lemma {:induction false} PtrTransparent(mode: ReadMode, h: Hooks, e: Type, p: Val, data: seq<byte>, pos: nat, x: Val, end: nat)
    requires pos < |data| && Classify(data[pos]).Some? && Classify(data[pos]) != Some(KNil)
    requires DecodeRecord(mode, h, e, Pointee(Ptr(e), p), data, pos) == Dec(x, end, None)
    ensures DecodeRecord(mode, h, Ptr(e), p, data, pos) == Dec(VPtr(Some(x)), end, None)
  {
    var k := Classify(data[pos]).value;
    if Headed(k) {
      PtrHeaded(mode, h, e, p, data, pos, k, x, end);
    }
  }

  /**
   * The round trip for one record: `EncodeValue` succeeds, and decoding its
   * bytes into a zero destination gives back v and stops right after them.
   */
  lemma {:induction false} RoundTripValue(mode: ReadMode, h: Hooks, t: Type, v: Val, data: seq<byte>, pos: nat)
    requires RecordAt(mode, h, t, v, data, pos) == true
    decreases v, 3
    ensures EncodeValue(h, t, v, false).err.None?
    ensures Decodes(mode, h, t, v, data, pos, pos + |EncodeValue(h, t, v, false).bytes|) == true
  {
    if v.VSlice? || v.VArray? || v.VMap? || v.VStruct? || v.VPtr? {
      RoundTripComposite(mode, h, t, v, data, pos);
    } else {
      RoundTripScalar(mode, h, t, v, data, pos);
    }
  }

  /** Values whose record is a single tag with at most a header and a payload. */
  lemma {:induction false} RoundTripScalar(mode: ReadMode, h: Hooks, t: Type, v: Val, data: seq<byte>, pos: nat)
    requires RecordAt(mode, h, t, v, data, pos) == true
    requires !(v.VSlice? || v.VArray? || v.VMap? || v.VStruct? || v.VPtr?)
    ensures EncodeValue(h, t, v, false).err.None?
    ensures Decodes(mode, h, t, v, data, pos, pos + |EncodeValue(h, t, v, false).bytes|) == true
  {
    match v {
      case VBool(b) => RoundTripBool(mode, h, b, data, pos);
      case VInt(i) => RoundTripInt(mode, h, t, i, data, pos);
      case VUint(u) => RoundTripUint(mode, h, t, u, data, pos);
      case VString(s) => RoundTripString(mode, h, s, data, pos);
      case VIface(None) => RoundTripNil(mode, h, t, data, pos);
      case VIface(Some(_)) => RoundTripIface(mode, h, t, v, data, pos);
      case VOther => RoundTripNil(mode, h, t, data, pos);
    }
  }

  /** Values whose record holds other records, and pointers. */
  lemma {:induction false} RoundTripComposite(mode: ReadMode, h: Hooks, t: Type, v: Val, data: seq<byte>, pos: nat)
    requires RecordAt(mode, h, t, v, data, pos) == true
    requires v.VSlice? || v.VArray? || v.VMap? || v.VStruct? || v.VPtr?
    decreases v, 2
    ensures EncodeValue(h, t, v, false).err.None?
    ensures Decodes(mode, h, t, v, data, pos, pos + |EncodeValue(h, t, v, false).bytes|) == true
  {
    match v {
      case VSlice(_, items) =>
        if t.elem == Uint(8) {
          RoundTripBytes(mode, h, items, data, pos);
        } else {
          RoundTripArray(mode, h, t, v, data, pos);
        }
      case VArray(_) => RoundTripArray(mode, h, t, v, data, pos);
      case VMap(_, _) => RoundTripMap(mode, h, t, v, data, pos);
      case VStruct(_) =>
        if t.marshaler {
          RoundTripHook(mode, h, t, v, data, pos);
        } else {
          RoundTripStruct(mode, h, t, v, data, pos);
        }
      case VPtr(None) => RoundTripNil(mode, h, t, data, pos);
      case VPtr(Some(x)) => RoundTripPtr(mode, h, t, x, data, pos);
    }
  }

  /** A pointer to a value that is not itself nil decodes through a fresh pointee. */
  lemma {:induction false} RoundTripPtr(mode: ReadMode, h: Hooks, t: Type, x: Val, data: seq<byte>, pos: nat)
    requires RecordAt(mode, h, t, VPtr(Some(x)), data, pos) == true
    decreases VPtr(Some(x)), 1
    ensures EncodeValue(h, t, VPtr(Some(x)), false).err.None?
    ensures Decodes(mode, h, t, VPtr(Some(x)), data, pos, pos + |EncodeValue(h, t, VPtr(Some(x)), false).bytes|) == true
  {
    PtrRecord(mode, h, t, x, data, pos);
    RoundTripValue(mode, h, t.elem, x, data, pos);
    PtrDecodes(mode, h, t, x, data, pos, pos + |EncodeValue(h, t.elem, x, false).bytes|);
  }

  /** The record of a pointer is its pointee's record. */
  lemma {:induction false} PtrRecord(mode: ReadMode, h: Hooks, t: Type, x: Val, data: seq<byte>, pos: nat)
    requires RecordAt(mode, h, t, VPtr(Some(x)), data, pos) == true
    ensures t.Ptr? && NilFree(x) && Portable(h, t.elem, x)
    ensures EncodeValue(h, t, VPtr(Some(x)), false) == EncodeValue(h, t.elem, x, false)
    ensures RecordAt(mode, h, t.elem, x, data, pos) == true
  {
    Framed(mode, h, t.elem, x, data, pos, EncodeValue(h, t.elem, x, false).bytes);
  }

  /** The pointee's record decoded into a zero pointer: a fresh pointee holds the value. */
  lemma {:induction false} PtrDecodes(mode: ReadMode, h: Hooks, t: Type, x: Val, data: seq<byte>, pos: nat, end: nat)
    requires t.Ptr? && NilFree(x) && Portable(h, t.elem, x) == true
    requires At(data, pos, EncodeValue(h, t.elem, x, false).bytes) == true
    requires Decodes(mode, h, t.elem, x, data, pos, end) == true
    ensures Decodes(mode, h, t, VPtr(Some(x)), data, pos, end) == true
  {
    var bs := EncodeValue(h, t.elem, x, false).bytes;
    FirstTag(h, t.elem, x);
    assert data[pos] == bs[0];
    PtrTransparent(mode, h, t.elem, Zero(t), data, pos, x, end);
  }

  /** n zero values of type e: the elements a fresh array or resized empty slice starts from. */
  function Zeroes(e: Type, n: nat): (r: seq<Val>)
    ensures |r| == n && forall i :: 0 <= i < n ==> r[i] == Zero(e)
  {
    seq(n, _ => Zero(e))
  }

  /**
   * The element loop after i elements: the destination holds the first i
   * elements and zero values after them, and the remaining records follow.
   */
  predicate ItemsAt(mode: ReadMode, h: Hooks, e: Type, items: seq<Val>, cur: seq<Val>, i: nat, data: seq<byte>, pos: nat)
  {
    i <= |items| == |cur| &&
    (forall k :: 0 <= k < i ==> cur[k] == items[k]) &&
    (forall k :: i <= k < |items| ==> cur[k] == Zero(e)) &&
    (forall k :: i <= k < |items| ==> Portable(h, e, items[k])) &&
    At(data, pos, EncodeItems(h, e, items, i, false).bytes) &&
    Room(mode, data, pos + |EncodeItems(h, e, items, i, false).bytes|)
  }

  /** The header of an array record, and the element loop's hypothesis at its start. */
  lemma {:induction false} ArrayHead(mode: ReadMode, h: Hooks, t: Type, v: Val, data: seq<byte>, pos: nat, k: Kind, q: nat)
    requires RecordAt(mode, h, t, v, data, pos) == true && (v.VArray? || (v.VSlice? && t.elem != Uint(8)))
    requires k == KArray(LenTier(|v.items|)) && q == pos + 1 + Bytes(TierOf(k))
    ensures pos < |data| && Classify(data[pos]) == Some(k) && Headed(k)
    ensures ReadHeader(data, pos + 1, TierOf(k)) == Header(|v.items|, q, None)
    ensures (t.Array? && v.VArray? && t.len == |v.items|) || (t.Slice? && v.VSlice? && v.isNil == (|v.items| == 0))
    ensures ItemsAt(mode, h, t.elem, v.items, Zeroes(t.elem, |v.items|), 0, data, q)
    ensures |EncodeValue(h, t, v, false).bytes| == 1 + Bytes(TierOf(k)) + |EncodeItems(h, t.elem, v.items, 0, false).bytes|
    ensures EncodeValue(h, t, v, false).err == EncodeItems(h, t.elem, v.items, 0, false).err
  {
    var n := |v.items|;
    LenTierMinimal(n);
    var body := EncodeItems(h, t.elem, v.items, 0, false);
    assert EncodeValue(h, t, v, false) == Then([Tag(k)] + ToBE(n, Bytes(TierOf(k))), body);
    HeadAt(data, pos, k, n, body.bytes);
  }

  /** After the element loop has rebuilt every element, `decodeArray` yields the value. */
  lemma {:induction false} ArrayResult(mode: ReadMode, h: Hooks, t: Type, v: Val, data: seq<byte>, q: nat, end: nat)
    requires (t.Array? && v.VArray? && t.len == |v.items|) || (t.Slice? && v.VSlice? && v.isNil == (|v.items| == 0))
    requires q <= end <= |data|
    requires DecodeItems(mode, h, t.elem, Zeroes(t.elem, |v.items|), 0, |v.items|, data, q) == DecItems(v.items, end, None)
    ensures DecodeArray(mode, h, t, Zero(t), data, q, |v.items|) == Dec(v, end, None)
  {
    var n := |v.items|;
    if t.Array? {
      assert ArrayItems(Zero(t), n, t.elem) == Zeroes(t.elem, n);
      assert ZeroFill(v.items, n, t.elem) == v.items;
    } else {
      assert Resize([], n, t.elem) == Zeroes(t.elem, n);
    }
  }

  /** Arrays, and slices other than `[]byte`: a count header, then the elements in place. */
  lemma {:induction false} RoundTripArray(mode: ReadMode, h: Hooks, t: Type, v: Val, data: seq<byte>, pos: nat)
    requires RecordAt(mode, h, t, v, data, pos) == true && (v.VArray? || (v.VSlice? && t.elem != Uint(8)))
    decreases v, 1
    ensures EncodeValue(h, t, v, false).err.None?
    ensures Decodes(mode, h, t, v, data, pos, pos + |EncodeValue(h, t, v, false).bytes|)
  {
    var n := |v.items|;
    var k := KArray(LenTier(n));
    var q := pos + 1 + Bytes(TierOf(k));
    ArrayHead(mode, h, t, v, data, pos, k, q);
    Dispatch(mode, h, t, Zero(t), data, pos, k, n);
    RoundTripItems(mode, h, t.elem, v.items, Zeroes(t.elem, n), 0, data, q);
    ArrayResult(mode, h, t, v, data, q, q + |EncodeItems(h, t.elem, v.items, 0, false).bytes|);
  }

  /** The next element's record, framed for its own round trip. */
  lemma {:induction false} ItemsHead(mode: ReadMode, h: Hooks, e: Type, items: seq<Val>, cur: seq<Val>, i: nat, data: seq<byte>, pos: nat)
    requires ItemsAt(mode, h, e, items, cur, i, data, pos) == true && i < |items|
    ensures cur[i] == Zero(e)
    ensures RecordAt(mode, h, e, items[i], data, pos) == true
  {
    var a := EncodeValue(h, e, items[i], false);
    var rest := EncodeItems(h, e, items, i + 1, false);
    assert EncodeItems(h, e, items, i, false) == AndThen(a, rest);
    AndThenAt(data, pos, a, rest);
    Framed(mode, h, e, items[i], data, pos, a.bytes);
  }

  /** The element loop's hypothesis carries over to the next element. */
  lemma {:induction false} ItemsNext(mode: ReadMode, h: Hooks, e: Type, items: seq<Val>, cur: seq<Val>, i: nat, data: seq<byte>, pos: nat, p: nat)
    requires ItemsAt(mode, h, e, items, cur, i, data, pos) == true && i < |items|
    requires EncodeValue(h, e, items[i], false).err.None? && p == pos + |EncodeValue(h, e, items[i], false).bytes|
    ensures ItemsAt(mode, h, e, items, cur[i := items[i]], i + 1, data, p) == true
    ensures pos + |EncodeItems(h, e, items, i, false).bytes| == p + |EncodeItems(h, e, items, i + 1, false).bytes|
    ensures EncodeItems(h, e, items, i, false).err == EncodeItems(h, e, items, i + 1, false).err
  {
    var a := EncodeValue(h, e, items[i], false);
    var rest := EncodeItems(h, e, items, i + 1, false);
    assert EncodeItems(h, e, items, i, false) == AndThen(a, rest);
    AndThenAt(data, pos, a, rest);
  }

  /** One step of the element loop: element i decoded in place. */
  lemma {:induction false} ItemsStep(mode: ReadMode, h: Hooks, e: Type, items: seq<Val>, i: nat, n: nat, data: seq<byte>, pos: nat, x: Val, p: nat)
    requires i < n <= |items| && items[i] == Zero(e)
    requires Decodes(mode, h, e, x, data, pos, p) == true
    ensures DecodeItems(mode, h, e, items, i, n, data, pos) == DecodeItems(mode, h, e, items[i := x], i + 1, n, data, p)
  {
  }

  /** One round of the element loop: element i comes back from its record, and the loop's hypothesis holds at the next one. */
  lemma {:induction false} ItemsOne(mode: ReadMode, h: Hooks, e: Type, items: seq<Val>, cur: seq<Val>, i: nat, data: seq<byte>, pos: nat)
    returns (p: nat)
    requires ItemsAt(mode, h, e, items, cur, i, data, pos) == true && i < |items|
    decreases items, |items| - i, 1
    ensures ItemsAt(mode, h, e, items, cur[i := items[i]], i + 1, data, p) == true
    ensures EncodeItems(h, e, items, i, false).err == EncodeItems(h, e, items, i + 1, false).err
    ensures pos + |EncodeItems(h, e, items, i, false).bytes| == p + |EncodeItems(h, e, items, i + 1, false).bytes|
    ensures DecodeItems(mode, h, e, cur, i, |items|, data, pos)
         == DecodeItems(mode, h, e, cur[i := items[i]], i + 1, |items|, data, p)
  {
    p := ItemStored(mode, h, e, items, cur, i, data, pos);
    ItemsNext(mode, h, e, items, cur, i, data, pos, p);
  }

  /** Element i comes back from its record into the zero value in its place. */
  lemma {:induction false} ItemStored(mode: ReadMode, h: Hooks, e: Type, items: seq<Val>, cur: seq<Val>, i: nat, data: seq<byte>, pos: nat)
    returns (p: nat)
    requires ItemsAt(mode, h, e, items, cur, i, data, pos) == true && i < |items|
    decreases items, |items| - i, 0
    ensures EncodeValue(h, e, items[i], false).err.None? && p == pos + |EncodeValue(h, e, items[i], false).bytes|
    ensures DecodeItems(mode, h, e, cur, i, |items|, data, pos)
         == DecodeItems(mode, h, e, cur[i := items[i]], i + 1, |items|, data, p)
  {
    ItemsHead(mode, h, e, items, cur, i, data, pos);
    RoundTripValue(mode, h, e, items[i], data, pos);
    p := pos + |EncodeValue(h, e, items[i], false).bytes|;
    ItemsStep(mode, h, e, cur, i, |items|, data, pos, items[i], p);
  }

  /** The element loop rebuilds the elements from zero values, in index order. */
  lemma {:induction false} RoundTripItems(mode: ReadMode, h: Hooks, e: Type, items: seq<Val>, cur: seq<Val>, i: nat, data: seq<byte>, pos: nat)
    requires ItemsAt(mode, h, e, items, cur, i, data, pos) == true
    decreases items, |items| - i, 2
    ensures EncodeItems(h, e, items, i, false).err.None?
    ensures DecodeItems(mode, h, e, cur, i, |items|, data, pos)
         == DecItems(items, pos + |EncodeItems(h, e, items, i, false).bytes|, None)
  {
    if i == |items| {
      assert cur == items;
    } else {
      var p := ItemsOne(mode, h, e, items, cur, i, data, pos);
      RoundTripItems(mode, h, e, items, cur[i := items[i]], i + 1, data, p);
    }
  }

  lemma {:induction false} MapInsertFresh(es: seq<Entry>, k: Val, x: Val)
    requires forall j :: 0 <= j < |es| ==> es[j].key != k
    ensures MapInsert(es, k, x) == es + [Entry(k, x)]
  {
    if es != [] {
      MapInsertFresh(es[1..], k, x);
    }
  }

  /** Appending the next entry of a map with distinct keys to the entries before it. */
  lemma {:induction false} InsertNext(es: seq<Entry>, i: nat)
    requires i < |es| && DistinctKeys(es)
    ensures MapInsert(es[..i], es[i].key, es[i].elem) == es[..i + 1]
  {
    forall j | 0 <= j < i
      ensures es[j].key != es[i].key
    {
      assert KeysDiffer(es, j, i);
    }
    MapInsertFresh(es[..i], es[i].key, es[i].elem);
    assert es[..i] + [Entry(es[i].key, es[i].elem)] == es[..i + 1];
  }

  /** The entry loop after i entries: the remaining entries' records follow. */
  predicate EntriesAt(mode: ReadMode, h: Hooks, kt: Type, et: Type, es: seq<Entry>, i: nat, data: seq<byte>, pos: nat)
  {
    i <= |es| && DistinctKeys(es) &&
    (forall k :: i <= k < |es| ==> Hashable(es[k].key) && Portable(h, kt, es[k].key) && Portable(h, et, es[k].elem)) &&
    At(data, pos, EncodeEntries(h, kt, et, es, i, false).bytes) &&
    Room(mode, data, pos + |EncodeEntries(h, kt, et, es, i, false).bytes|)
  }

  /** The header of a map record, and the entry loop's hypothesis at its start. */
  lemma {:induction false} MapHead(mode: ReadMode, h: Hooks, t: Type, v: Val, data: seq<byte>, pos: nat, k: Kind, q: nat)
    requires RecordAt(mode, h, t, v, data, pos) == true && v.VMap?
    requires k == KObject(LenTier(|v.entries|)) && q == pos + 1 + Bytes(TierOf(k))
    ensures pos < |data| && Classify(data[pos]) == Some(k) && Headed(k)
    ensures ReadHeader(data, pos + 1, TierOf(k)) == Header(|v.entries|, q, None)
    ensures t.Map? && !v.mapNil
    ensures EntriesAt(mode, h, t.key, t.elem, v.entries, 0, data, q)
    ensures |EncodeValue(h, t, v, false).bytes| == 1 + Bytes(TierOf(k)) + |EncodeEntries(h, t.key, t.elem, v.entries, 0, false).bytes|
    ensures EncodeValue(h, t, v, false).err == EncodeEntries(h, t.key, t.elem, v.entries, 0, false).err
  {
    var n := |v.entries|;
    LenTierMinimal(n);
    var body := EncodeEntries(h, t.key, t.elem, v.entries, 0, false);
    assert EncodeValue(h, t, v, false) == Then([Tag(k)] + ToBE(n, Bytes(TierOf(k))), body);
    HeadAt(data, pos, k, n, body.bytes);
  }

  /** After the entry loop has stored every entry, `decodeObject` yields the map, no longer nil. */
  lemma {:induction false} MapResult(mode: ReadMode, h: Hooks, t: Type, es: seq<Entry>, data: seq<byte>, q: nat, end: nat)
    requires t.Map? && q <= end <= |data|
    requires DecodeEntries(mode, h, t.key, t.elem, es[..0], 0, |es|, data, q) == DecEntries(es, end, None)
    ensures DecodeObject(mode, h, t, Zero(t), data, q, |es|) == Dec(VMap(false, es), end, None)
  {
    assert es[..0] == [];
  }

  /** Maps: a count header, then key and element records, entry by entry, into a fresh map. */
  lemma {:induction false} RoundTripMap(mode: ReadMode, h: Hooks, t: Type, v: Val, data: seq<byte>, pos: nat)
    requires RecordAt(mode, h, t, v, data, pos) == true && v.VMap?
    decreases v, 1
    ensures EncodeValue(h, t, v, false).err.None?
    ensures Decodes(mode, h, t, v, data, pos, pos + |EncodeValue(h, t, v, false).bytes|)
  {
    var n := |v.entries|;
    var k := KObject(LenTier(n));
    var q := pos + 1 + Bytes(TierOf(k));
    MapHead(mode, h, t, v, data, pos, k, q);
    Dispatch(mode, h, t, Zero(t), data, pos, k, n);
    var end := q + |EncodeEntries(h, t.key, t.elem, v.entries, 0, false).bytes|;
    RoundTripEntries(mode, h, t.key, t.elem, v.entries, 0, data, q, end);
    MapResult(mode, h, t, v.entries, data, q, end);
  }

  /** The next entry's records, framed for their own round trip. */
  lemma {:induction false} EntriesHead(mode: ReadMode, h: Hooks, kt: Type, et: Type, es: seq<Entry>, i: nat, data: seq<byte>, pos: nat)
    requires EntriesAt(mode, h, kt, et, es, i, data, pos) == true && i < |es|
    ensures Hashable(es[i].key)
    ensures EntryAt(mode, h, kt, et, es[i], data, pos)
  {
    var a := EncodeEntry(h, kt, et, es[i], false);
    var rest := EncodeEntries(h, kt, et, es, i + 1, false);
    assert EncodeEntries(h, kt, et, es, i, false) == AndThen(a, rest);
    AndThenAt(data, pos, a, rest);
  }

  /** The entry loop's hypothesis carries over to the next entry. */
  lemma {:induction false} EntriesNext(mode: ReadMode, h: Hooks, kt: Type, et: Type, es: seq<Entry>, i: nat, data: seq<byte>, pos: nat, p: nat)
    requires EntriesAt(mode, h, kt, et, es, i, data, pos) == true && i < |es|
    requires EncodeEntry(h, kt, et, es[i], false).err.None? && p == pos + |EncodeEntry(h, kt, et, es[i], false).bytes|
    ensures EntriesAt(mode, h, kt, et, es, i + 1, data, p) == true
    ensures pos + |EncodeEntries(h, kt, et, es, i, false).bytes| == p + |EncodeEntries(h, kt, et, es, i + 1, false).bytes|
    ensures EncodeEntries(h, kt, et, es, i, false).err == EncodeEntries(h, kt, et, es, i + 1, false).err
  {
    var a := EncodeEntry(h, kt, et, es[i], false);
    var rest := EncodeEntries(h, kt, et, es, i + 1, false);
    assert EncodeEntries(h, kt, et, es, i, false) == AndThen(a, rest);
    AndThenAt(data, pos, a, rest);
  }

  /** One step of the entry loop that stores its pair. */
  lemma {:induction false} EntriesStep(mode: ReadMode, h: Hooks, kt: Type, et: Type, es: seq<Entry>, es': seq<Entry>, i: nat, n: nat, data: seq<byte>, pos: nat, en: Entry, p1: nat, p2: nat)
    requires i < n && Hashable(en.key) && es' == MapInsert(es, en.key, en.elem)
    requires Decodes(mode, h, kt, en.key, data, pos, p1) == true
    requires Decodes(mode, h, et, en.elem, data, p1, p2) == true
    ensures DecodeEntries(mode, h, kt, et, es, i, n, data, pos) == DecodeEntries(mode, h, kt, et, es', i + 1, n, data, p2)
  {
  }

  /** The entry loop: each key and element decoded into fresh zero values, then appended. */
  lemma {:induction false} RoundTripEntries(mode: ReadMode, h: Hooks, kt: Type, et: Type, es: seq<Entry>, i: nat, data: seq<byte>, pos: nat, end: nat)
    requires EntriesAt(mode, h, kt, et, es, i, data, pos) == true
    requires end == pos + |EncodeEntries(h, kt, et, es, i, false).bytes|
    decreases es, |es| - i, 2
    ensures EncodeEntries(h, kt, et, es, i, false).err.None?
    ensures DecodeEntries(mode, h, kt, et, es[..i], i, |es|, data, pos) == DecEntries(es, end, None)
  {
    if i < |es| {
      var p := EntryAdvance(mode, h, kt, et, es, i, data, pos, end);
      RoundTripEntries(mode, h, kt, et, es, i + 1, data, p, end);
    } else {
      assert es[..i] == es;
    }
  }

  /** One turn of the entry loop: the next entry comes back and is stored, and the rest follows. */
  lemma {:induction false} EntryAdvance(mode: ReadMode, h: Hooks, kt: Type, et: Type, es: seq<Entry>, i: nat, data: seq<byte>, pos: nat, end: nat)
    returns (p: nat)
    requires EntriesAt(mode, h, kt, et, es, i, data, pos) == true && i < |es|
    requires end == pos + |EncodeEntries(h, kt, et, es, i, false).bytes|
    decreases es, |es| - i, 1
    ensures EntriesAt(mode, h, kt, et, es, i + 1, data, p) == true
    ensures end == p + |EncodeEntries(h, kt, et, es, i + 1, false).bytes|
    ensures EncodeEntries(h, kt, et, es, i, false).err == EncodeEntries(h, kt, et, es, i + 1, false).err
    ensures DecodeEntries(mode, h, kt, et, es[..i], i, |es|, data, pos)
         == DecodeEntries(mode, h, kt, et, es[..i + 1], i + 1, |es|, data, p)
  {
    p := EntryStored(mode, h, kt, et, es, i, data, pos);
    EntriesNext(mode, h, kt, et, es, i, data, pos, p);
  }

  /** The next entry's key and element come back and are stored after the entries before it. */
  lemma {:induction false} EntryStored(mode: ReadMode, h: Hooks, kt: Type, et: Type, es: seq<Entry>, i: nat, data: seq<byte>, pos: nat)
    returns (p: nat)
    requires EntriesAt(mode, h, kt, et, es, i, data, pos) == true && i < |es|
    decreases es, |es| - i, 0
    ensures EncodeEntry(h, kt, et, es[i], false).err.None? && p == pos + |EncodeEntry(h, kt, et, es[i], false).bytes|
    ensures DecodeEntries(mode, h, kt, et, es[..i], i, |es|, data, pos)
         == DecodeEntries(mode, h, kt, et, es[..i + 1], i + 1, |es|, data, p)
  {
    EntriesHead(mode, h, kt, et, es, i, data, pos);
    var p1 := RoundTripEntry(mode, h, kt, et, es[i], data, pos);
    InsertNext(es, i);
    p := pos + |EncodeEntry(h, kt, et, es[i], false).bytes|;
    EntriesStep(mode, h, kt, et, es[..i], es[..i + 1], i, |es|, data, pos, es[i], p1, p);
  }

  /** The hypothesis of the round trip for one map entry. */
  predicate EntryAt(mode: ReadMode, h: Hooks, kt: Type, et: Type, en: Entry, data: seq<byte>, pos: nat)
  {
    Portable(h, kt, en.key) && Portable(h, et, en.elem) &&
    At(data, pos, EncodeEntry(h, kt, et, en, false).bytes) &&
    Room(mode, data, pos + |EncodeEntry(h, kt, et, en, false).bytes|)
  }

  /** The key record of an entry, framed for its own round trip. */
  lemma {:induction false} EntryKey(mode: ReadMode, h: Hooks, kt: Type, et: Type, en: Entry, data: seq<byte>, pos: nat)
    requires EntryAt(mode, h, kt, et, en, data, pos) == true
    ensures RecordAt(mode, h, kt, en.key, data, pos) == true
  {
    var a := EncodeValue(h, kt, en.key, false);
    var b := EncodeValue(h, et, en.elem, false);
    assert EncodeEntry(h, kt, et, en, false) == AndThen(a, b);
    AndThenAt(data, pos, a, b);
    Framed(mode, h, kt, en.key, data, pos, a.bytes);
  }

  /** Once the key is written, the element record follows it, framed for its own round trip. */
  lemma {:induction false} EntryElem(mode: ReadMode, h: Hooks, kt: Type, et: Type, en: Entry, data: seq<byte>, pos: nat)
    requires EntryAt(mode, h, kt, et, en, data, pos) == true
    requires EncodeValue(h, kt, en.key, false).err.None?
    ensures RecordAt(mode, h, et, en.elem, data, pos + |EncodeValue(h, kt, en.key, false).bytes|) == true
    ensures |EncodeEntry(h, kt, et, en, false).bytes|
         == |EncodeValue(h, kt, en.key, false).bytes| + |EncodeValue(h, et, en.elem, false).bytes|
    ensures EncodeEntry(h, kt, et, en, false).err == EncodeValue(h, et, en.elem, false).err
  {
    var a := EncodeValue(h, kt, en.key, false);
    var b := EncodeValue(h, et, en.elem, false);
    assert EncodeEntry(h, kt, et, en, false) == AndThen(a, b);
    AndThenSplit(mode, data, pos, a, b);
    Framed(mode, h, et, en.elem, data, pos + |a.bytes|, b.bytes);
  }

  /** One entry: its key record, then its element record, each into a fresh zero value. */
  lemma {:induction false} RoundTripEntry(mode: ReadMode, h: Hooks, kt: Type, et: Type, en: Entry, data: seq<byte>, pos: nat)
    returns (p1: nat)
    requires EntryAt(mode, h, kt, et, en, data, pos) == true
    decreases en, 1
    ensures EncodeEntry(h, kt, et, en, false).err.None?
    ensures Decodes(mode, h, kt, en.key, data, pos, p1) == true
    ensures Decodes(mode, h, et, en.elem, data, p1, pos + |EncodeEntry(h, kt, et, en, false).bytes|) == true
  {
    p1 := EntryKeyRound(mode, h, kt, et, en, data, pos);
    EntryElemRound(mode, h, kt, et, en, data, pos, p1);
  }

  /** The key record of an entry comes back. */
  lemma {:induction false} EntryKeyRound(mode: ReadMode, h: Hooks, kt: Type, et: Type, en: Entry, data: seq<byte>, pos: nat)
    returns (p1: nat)
    requires EntryAt(mode, h, kt, et, en, data, pos) == true
    decreases en, 0
    ensures EncodeValue(h, kt, en.key, false).err.None?
    ensures p1 == pos + |EncodeValue(h, kt, en.key, false).bytes|
    ensures Decodes(mode, h, kt, en.key, data, pos, p1) == true
  {
    EntryKey(mode, h, kt, et, en, data, pos);
    RoundTripValue(mode, h, kt, en.key, data, pos);
    p1 := pos + |EncodeValue(h, kt, en.key, false).bytes|;
  }

  /** The element record of an entry comes back from where its key record ends. */
  lemma {:induction false} EntryElemRound(mode: ReadMode, h: Hooks, kt: Type, et: Type, en: Entry, data: seq<byte>, pos: nat, p1: nat)
    requires EntryAt(mode, h, kt, et, en, data, pos) == true
    requires EncodeValue(h, kt, en.key, false).err.None?
    requires p1 == pos + |EncodeValue(h, kt, en.key, false).bytes|
    decreases en, 0
    ensures EncodeEntry(h, kt, et, en, false).err.None?
    ensures Decodes(mode, h, et, en.elem, data, p1, pos + |EncodeEntry(h, kt, et, en, false).bytes|) == true
  {
    EntryElem(mode, h, kt, et, en, data, pos);
    RoundTripValue(mode, h, et, en.elem, data, p1);
  }

  /** A strictly increasing list of indices below m has at most m entries. */
  lemma {:induction false} KeptBound(vs: seq<Val>, keep: seq<nat>)
    requires forall a, b :: 0 <= a < b < |keep| ==> keep[a] < keep[b]
    requires forall a :: 0 <= a < |keep| ==> keep[a] < |vs|
    ensures |keep| <= |vs|
  {
    if |keep| > 0 {
      var last := keep[|keep| - 1];
      KeptBound(vs[..last], keep[..|keep| - 1]);
    }
  }

  /** A field `encodeObject` writes is exported, has the only such name, and holds a portable value. */
  lemma {:induction false} KeptField(h: Hooks, t: Type, vs: seq<Val>, m: nat)
    requires Portable(h, t, VStruct(vs)) == true && !t.marshaler && m in Kept(vs, 0)
    ensures t.Struct? && m < |t.fields| == |vs| && FieldAt(t, m) == t.fields[m]
    ensures t.fields[m].exported && |t.fields[m].name| < Two32 && Portable(h, t.fields[m].typ, vs[m])
    ensures forall k :: 0 <= k < |t.fields| && k != m ==> t.fields[k].name != t.fields[m].name
  {
    KeptSpec(vs, 0);
  }

  /** The fresh struct during the pair loop: written fields decoded, the rest still zero. */
  predicate FilledUpTo(t: Type, vs: seq<Val>, keep: seq<nat>, j: nat, xs: seq<Val>)
    requires t.Struct? && |vs| == |t.fields| && j <= |keep|
  {
    |xs| == |vs| &&
    forall k :: 0 <= k < |vs| ==> xs[k] == if k in keep[..j] then vs[k] else Zero(t.fields[k].typ)
  }

  lemma {:induction false} FilledNext(t: Type, vs: seq<Val>, keep: seq<nat>, j: nat, xs: seq<Val>)
    requires t.Struct? && |vs| == |t.fields| && keep == Kept(vs, 0) && j < |keep|
    requires FilledUpTo(t, vs, keep, j, xs)
    ensures xs[keep[j]] == Zero(t.fields[keep[j]].typ)
    ensures FilledUpTo(t, vs, keep, j + 1, xs[keep[j] := vs[keep[j]]])
  {
    KeptSpec(vs, 0);
    assert keep[..j + 1] == keep[..j] + [keep[j]];
    assert keep[j] !in keep[..j];
  }

  lemma {:induction false} FilledAll(h: Hooks, t: Type, vs: seq<Val>, keep: seq<nat>, xs: seq<Val>)
    requires Portable(h, t, VStruct(vs)) == true && !t.marshaler && keep == Kept(vs, 0)
    requires FilledUpTo(t, vs, keep, |keep|, xs)
    ensures xs == vs
  {
    KeptSpec(vs, 0);
    assert keep[..|keep|] == keep;
  }

  lemma {:induction false} FilledZero(t: Type, vs: seq<Val>, keep: seq<nat>)
    requires t.Struct? && |vs| == |t.fields|
    ensures FilledUpTo(t, vs, keep, 0, Zero(t).fields)
  {
  }

  /** The pair loop after j pairs of a struct without hooks; the remaining pairs follow. */
  predicate PairsAt(mode: ReadMode, h: Hooks, t: Type, vs: seq<Val>, keep: seq<nat>, j: nat, xs: seq<Val>, data: seq<byte>, pos: nat)
  {
    Portable(h, t, VStruct(vs)) && !t.marshaler && keep == Kept(vs, 0) && j <= |keep| &&
    FilledUpTo(t, vs, keep, j, xs) &&
    At(data, pos, EncodePairs(h, t, vs, keep, j).bytes) &&
    Room(mode, data, pos + |EncodePairs(h, t, vs, keep, j).bytes|)
  }

  /** The header of a struct's object record, and the pair loop's hypothesis at its start. */
  lemma {:induction false} StructHead(mode: ReadMode, h: Hooks, t: Type, v: Val, data: seq<byte>, pos: nat, k: Kind, q: nat)
    requires RecordAt(mode, h, t, v, data, pos) == true && v.VStruct? && !t.marshaler
    requires k == KObject(LenTier(|Kept(v.fields, 0)|)) && q == pos + 1 + Bytes(TierOf(k))
    ensures pos < |data| && Classify(data[pos]) == Some(k) && Headed(k)
    ensures ReadHeader(data, pos + 1, TierOf(k)) == Header(|Kept(v.fields, 0)|, q, None)
    ensures t.Struct?
    ensures PairsAt(mode, h, t, v.fields, Kept(v.fields, 0), 0, Zero(t).fields, data, q)
    ensures |EncodeValue(h, t, v, false).bytes| == 1 + Bytes(TierOf(k)) + |EncodePairs(h, t, v.fields, Kept(v.fields, 0), 0).bytes|
    ensures EncodeValue(h, t, v, false).err == EncodePairs(h, t, v.fields, Kept(v.fields, 0), 0).err
  {
    var vs := v.fields;
    var keep := Kept(vs, 0);
    var n := |keep|;
    KeptSpec(vs, 0);
    KeptBound(vs, keep);
    LenTierMinimal(n);
    var body := EncodePairs(h, t, vs, keep, 0);
    assert EncodeValue(h, t, v, false) == Then([Tag(k)] + ToBE(n, Bytes(TierOf(k))), body);
    HeadAt(data, pos, k, n, body.bytes);
    FilledZero(t, vs, keep);
  }

  /** After the key loop has filled the fresh struct, `decodeObject` stores it. */
  lemma {:induction false} StructResult(mode: ReadMode, h: Hooks, t: Type, vs: seq<Val>, n: nat, data: seq<byte>, q: nat, end: nat)
    requires t.Struct? && q <= end <= |data|
    requires DecodeFields(mode, h, t, t.fields, Zero(t).fields, 0, n, data, q) == DecItems(vs, end, None)
    ensures DecodeObject(mode, h, t, Zero(t), data, q, n) == Dec(VStruct(vs), end, None)
  {
  }

  /** Structs without hooks: the fields written are decoded into a fresh zero struct. */
  lemma {:induction false} RoundTripStruct(mode: ReadMode, h: Hooks, t: Type, v: Val, data: seq<byte>, pos: nat)
    requires RecordAt(mode, h, t, v, data, pos) == true && v.VStruct? && !t.marshaler
    decreases v, 1
    ensures EncodeValue(h, t, v, false).err.None?
    ensures Decodes(mode, h, t, v, data, pos, pos + |EncodeValue(h, t, v, false).bytes|)
  {
    var keep := Kept(v.fields, 0);
    var k := KObject(LenTier(|keep|));
    var q := pos + 1 + Bytes(TierOf(k));
    StructHead(mode, h, t, v, data, pos, k, q);
    Dispatch(mode, h, t, Zero(t), data, pos, k, |keep|);
    RoundTripPairs(mode, h, t, v.fields, keep, 0, Zero(t).fields, data, q);
    StructResult(mode, h, t, v.fields, |keep|, data, q, q + |EncodePairs(h, t, v.fields, keep, 0).bytes|);
  }

  /** The next pair's key and field records, framed for their own round trips. */
  lemma {:induction false} PairsHead(mode: ReadMode, h: Hooks, t: Type, vs: seq<Val>, keep: seq<nat>, j: nat, xs: seq<Val>, data: seq<byte>, pos: nat, m: nat, f: Field)
    requires PairsAt(mode, h, t, vs, keep, j, xs, data, pos) == true && j < |keep|
    requires m == keep[j] && f == FieldAt(t, m)
    ensures t.Struct? && m < |t.fields| == |vs| == |xs| && f == t.fields[m]
    ensures f.exported && xs[m] == Zero(f.typ)
    ensures forall k :: 0 <= k < |t.fields| && k != m ==> t.fields[k].name != f.name
    ensures |f.name| < Two32
    ensures At(data, pos, TextRecord(f.name)) == true && Room(mode, data, pos + |TextRecord(f.name)|)
    ensures RecordAt(mode, h, f.typ, vs[m], data, pos + |TextRecord(f.name)|) == true
  {
    KeptField(h, t, vs, m);
    FilledNext(t, vs, keep, j, xs);
    var key := TextRecord(f.name);
    var a := EncodeValue(h, f.typ, vs[m], false);
    var rest := EncodePairs(h, t, vs, keep, j + 1);
    assert EncodePairs(h, t, vs, keep, j) == AndThen(Then(key, a), rest);
    AndThenAt(data, pos, Then(key, a), rest);
    AtSplit(data, pos, key, a.bytes);
    Framed(mode, h, f.typ, vs[m], data, pos + |key|, a.bytes);
  }

  /** The pair loop's hypothesis carries over to the next pair. */
  lemma {:induction false} PairsNext(mode: ReadMode, h: Hooks, t: Type, vs: seq<Val>, keep: seq<nat>, j: nat, xs: seq<Val>, data: seq<byte>, pos: nat, m: nat, f: Field, p: nat)
    requires PairsAt(mode, h, t, vs, keep, j, xs, data, pos) == true && j < |keep|
    requires m == keep[j] && f == FieldAt(t, m)
    requires EncodeValue(h, f.typ, vs[m], false).err.None?
    requires p == pos + |TextRecord(f.name)| + |EncodeValue(h, f.typ, vs[m], false).bytes|
    ensures m < |xs| == |vs|
    ensures PairsAt(mode, h, t, vs, keep, j + 1, xs[m := vs[m]], data, p) == true
    ensures pos + |EncodePairs(h, t, vs, keep, j).bytes| == p + |EncodePairs(h, t, vs, keep, j + 1).bytes|
    ensures EncodePairs(h, t, vs, keep, j).err == EncodePairs(h, t, vs, keep, j + 1).err
  {
    KeptField(h, t, vs, m);
    FilledNext(t, vs, keep, j, xs);
    var key := TextRecord(f.name);
    var a := EncodeValue(h, f.typ, vs[m], false);
    var rest := EncodePairs(h, t, vs, keep, j + 1);
    assert EncodePairs(h, t, vs, keep, j) == AndThen(Then(key, a), rest);
    AndThenAt(data, pos, Then(key, a), rest);
  }

  /** One step of the key loop: the key names a field, and the field loop took its record. */
  lemma {:induction false} FieldsStep(mode: ReadMode, h: Hooks, st: Type, fs: seq<Field>, xs: seq<Val>, i: nat, n: nat, data: seq<byte>, pos: nat, name: seq<byte>, p1: nat, ys: seq<Val>, p2: nat)
    requires i < n && |xs| == |fs| && pos <= p1 <= p2 <= |data|
    requires Decodes(mode, h, String, VString(name), data, pos, p1) == true
    requires FieldLoop(mode, h, fs, xs, name, 0, false, data, p1) == DecFields(ys, p2, None, true)
    ensures DecodeFields(mode, h, st, fs, xs, i, n, data, pos) == DecodeFields(mode, h, st, fs, ys, i + 1, n, data, p2)
  {
  }

  /** One round of the pair loop: the key names field keep[j], which takes its record, and the loop's hypothesis holds at the next pair. */
  lemma {:induction false} PairsOne(mode: ReadMode, h: Hooks, t: Type, vs: seq<Val>, keep: seq<nat>, j: nat, xs: seq<Val>, data: seq<byte>, pos: nat)
    returns (p: nat)
    requires PairsAt(mode, h, t, vs, keep, j, xs, data, pos) == true && j < |keep|
    decreases vs, |keep| - j, 2
    ensures keep[j] < |xs|
    ensures PairsAt(mode, h, t, vs, keep, j + 1, xs[keep[j] := vs[keep[j]]], data, p) == true
    ensures EncodePairs(h, t, vs, keep, j).err == EncodePairs(h, t, vs, keep, j + 1).err
    ensures pos + |EncodePairs(h, t, vs, keep, j).bytes| == p + |EncodePairs(h, t, vs, keep, j + 1).bytes|
    ensures DecodeFields(mode, h, t, t.fields, xs, j, |keep|, data, pos)
         == DecodeFields(mode, h, t, t.fields, xs[keep[j] := vs[keep[j]]], j + 1, |keep|, data, p)
  {
    var m := keep[j];
    var f := FieldAt(t, m);
    p := PairsDecode(mode, h, t, vs, keep, j, xs, data, pos, m, f);
    PairsNext(mode, h, t, vs, keep, j, xs, data, pos, m, f, p);
  }

  /** The key of pair j names field m, whose record the field loop decodes. */
  lemma {:induction false} PairsDecode(mode: ReadMode, h: Hooks, t: Type, vs: seq<Val>, keep: seq<nat>, j: nat, xs: seq<Val>, data: seq<byte>, pos: nat, m: nat, f: Field)
    returns (p: nat)
    requires PairsAt(mode, h, t, vs, keep, j, xs, data, pos) == true && j < |keep|
    requires m == keep[j] && f == FieldAt(t, m)
    decreases vs, |keep| - j, 1
    ensures t.Struct? && m < |xs| == |t.fields| && EncodeValue(h, f.typ, vs[m], false).err.None?
    ensures p <= |data| && p == pos + |TextRecord(f.name)| + |EncodeValue(h, f.typ, vs[m], false).bytes|
    ensures DecodeFields(mode, h, t, t.fields, xs, j, |keep|, data, pos)
         == DecodeFields(mode, h, t, t.fields, xs[m := vs[m]], j + 1, |keep|, data, p)
  {
    PairsHead(mode, h, t, vs, keep, j, xs, data, pos, m, f);
    var q := pos + |TextRecord(f.name)|;
    RoundTripString(mode, h, f.name, data, pos);
    p := PairValue(mode, h, t, vs, keep, j, xs, data, pos, m, f, q);
    FieldsStep(mode, h, t, t.fields, xs, j, |keep|, data, pos, f.name, q, xs[m := vs[m]], p);
  }

  /** After the key of pair j, the field loop finds field m and decodes its record into it. */
  lemma {:induction false} PairValue(mode: ReadMode, h: Hooks, t: Type, vs: seq<Val>, keep: seq<nat>, j: nat, xs: seq<Val>, data: seq<byte>, pos: nat, m: nat, f: Field, q: nat)
    returns (p: nat)
    requires PairsAt(mode, h, t, vs, keep, j, xs, data, pos) == true && j < |keep|
    requires m == keep[j] && f == FieldAt(t, m) && q == pos + |TextRecord(f.name)|
    decreases vs, |keep| - j, 0
    ensures t.Struct? && m < |xs| == |t.fields| && EncodeValue(h, f.typ, vs[m], false).err.None?
    ensures q <= p <= |data| && p == q + |EncodeValue(h, f.typ, vs[m], false).bytes|
    ensures FieldLoop(mode, h, t.fields, xs, f.name, 0, false, data, q) == DecFields(xs[m := vs[m]], p, None, true)
  {
    PairsHead(mode, h, t, vs, keep, j, xs, data, pos, m, f);
    RoundTripValue(mode, h, f.typ, vs[m], data, q);
    p := q + |EncodeValue(h, f.typ, vs[m], false).bytes|;
    FieldLoopHit(mode, h, t.fields, xs, f.name, m, 0, false, vs[m], data, q, p);
  }

  /**
   * The pair loop: after j pairs the fresh struct holds the first j written
   * fields and zero values elsewhere; after all of them it is v.
   */
  lemma {:induction false} RoundTripPairs(mode: ReadMode, h: Hooks, t: Type, vs: seq<Val>, keep: seq<nat>, j: nat, xs: seq<Val>, data: seq<byte>, pos: nat)
    requires PairsAt(mode, h, t, vs, keep, j, xs, data, pos) == true
    decreases vs, |keep| - j, 3
    ensures EncodePairs(h, t, vs, keep, j).err.None?
    ensures DecodeFields(mode, h, t, t.fields, xs, j, |keep|, data, pos)
         == DecItems(vs, pos + |EncodePairs(h, t, vs, keep, j).bytes|, None)
  {
    if j == |keep| {
      FilledAll(h, t, vs, keep, xs);
    } else {
      var p := PairsOne(mode, h, t, vs, keep, j, xs, data, pos);
      RoundTripPairs(mode, h, t, vs, keep, j + 1, xs[keep[j] := vs[keep[j]]], data, p);
    }
  }

  /** Fields from j on that cannot take the key are passed over. */
  lemma {:induction false} FieldLoopMiss(mode: ReadMode, h: Hooks, fs: seq<Field>, xs: seq<Val>, name: seq<byte>, j: nat, matched: bool, data: seq<byte>, pos: nat)
    requires j <= |fs| == |xs| && pos <= |data|
    requires forall k :: j <= k < |fs| ==> fs[k].name != name
    decreases |fs| - j
    ensures FieldLoop(mode, h, fs, xs, name, j, matched, data, pos) == DecFields(xs, pos, None, matched)
  {
    if j < |fs| {
      FieldLoopMiss(mode, h, fs, xs, name, j + 1, matched, data, pos);
    }
  }

  /** The one exported field named by the key takes the next record. */
  lemma {:induction false} FieldLoopHit(mode: ReadMode, h: Hooks, fs: seq<Field>, xs: seq<Val>, name: seq<byte>, m: nat, j: nat, matched: bool, x: Val, data: seq<byte>, pos: nat, q: nat)
    requires j <= m < |fs| == |xs| && pos <= q <= |data|
    requires fs[m].name == name && fs[m].exported
    requires forall k :: j <= k < |fs| && k != m ==> fs[k].name != name
    requires xs[m] == Zero(fs[m].typ) && Decodes(mode, h, fs[m].typ, x, data, pos, q) == true
    decreases m - j
    ensures FieldLoop(mode, h, fs, xs, name, j, matched, data, pos) == DecFields(xs[m := x], q, None, true)
  {
    if j < m {
      FieldLoopHit(mode, h, fs, xs, name, m, j + 1, matched, x, data, pos, q);
    } else {
      FieldLoopMiss(mode, h, fs, xs[m := x], name, m + 1, true, data, q);
    }
  }

  /**
   * The codec's round trip through `Encode` and `Decode`: a portable value
   * marshalled on its own and decoded into a pointer to a zero value comes
   * back unchanged, using all of its bytes, when the encoding is followed by
   * more input or the reads are exact.
   */
  lemma {:induction false} RoundTrip(mode: ReadMode, h: Hooks, t: Type, v: Val, rest: seq<byte>)
    requires Portable(h, t, v)
    requires mode == FullRead || rest != []
    ensures Encode(h, Some(Dyn(t, v))).err.None?
    ensures Decode(mode, h, Some(Dyn(Ptr(t), VPtr(Some(Zero(t))))), Encode(h, Some(Dyn(t, v))).bytes + rest, 0)
         == DecDyn(Some(Dyn(Ptr(t), VPtr(Some(v)))), |Encode(h, Some(Dyn(t, v))).bytes|, None)
  {
    var bs := Encode(h, Some(Dyn(t, v))).bytes;
    assert (bs + rest)[0..|bs|] == bs;
    AtSlice(bs + rest, 0, bs);
    RoundTripAt(mode, h, t, v, bs + rest, 0);
  }

  /** The same round trip for a record found anywhere on the stream. */
  lemma {:induction false} RoundTripAt(mode: ReadMode, h: Hooks, t: Type, v: Val, data: seq<byte>, pos: nat)
    requires Portable(h, t, v) == true
    requires At(data, pos, Encode(h, Some(Dyn(t, v))).bytes) == true
    requires Room(mode, data, pos + |Encode(h, Some(Dyn(t, v))).bytes|)
    ensures Encode(h, Some(Dyn(t, v))).err.None?
    ensures pos + |Encode(h, Some(Dyn(t, v))).bytes| <= |data|
    ensures Decode(mode, h, Some(Dyn(Ptr(t), VPtr(Some(Zero(t))))), data, pos)
         == DecDyn(Some(Dyn(Ptr(t), VPtr(Some(v)))), pos + |Encode(h, Some(Dyn(t, v))).bytes|, None)
  {
    Framed(mode, h, t, v, data, pos, EncodeValue(h, t, v, false).bytes);
    RoundTripValue(mode, h, t, v, data, pos);
  }
}
